/** The functions the mocking notebook replaces with spies and patches:
    record_data, wait_n_seconds, am_i_lucky and wait_key. A Mock is
    modelled as an object that records the arguments of every call. */
module Mocking {
  import opened Wrappers
  import AutomatedTesting

  /** A spy standing in for a collaborator: it only records its calls. */
  class Spy<A> {
    var calls: seq<A>

    constructor()
      ensures calls == []
    {
      calls := [];
    }

    /** Calling the spy appends the argument to its call list. */
    method Call(a: A)
      modifies this
      ensures calls == old(calls) + [a]
    {
      calls := calls + [a];
    }
  }

  /** The arguments of one save_fun call: a file name and the data. */
  datatype SaveCall = SaveCall(fileName: string, data: seq<int>)

  /** record_data(save_fun): one call, saving [1, 2, 3] to mydata1.txt. */
  method RecordData(saveFun: Spy<SaveCall>)
    modifies saveFun
    ensures saveFun.calls == old(saveFun.calls) + [SaveCall("mydata1.txt", [1, 2, 3])]
  {
    saveFun.Call(SaveCall("mydata1.txt", [1, 2, 3]));
  }

  /** The duration passed to each sleep call, in milliseconds (0.1 s). */
  const SleepStep: int := 100

  /** The sleep calls that waiting n whole seconds is expected to make:
      ten calls of 100 ms per second, none when n <= 0. */
  function SleepSchedule(n: int): (r: seq<int>)
    ensures |r| == if n > 0 then 10 * n else 0
    ensures forall k :: 0 <= k < |r| ==> r[k] == SleepStep
  {
    seq(if n > 0 then 10 * n else 0, _ => SleepStep)
  }

  /** The total time asked of sleep. */
  function Total(s: seq<int>): int
  {
    if s == [] then 0 else Total(s[..|s| - 1]) + s[|s| - 1]
  }

  /** The scheduled calls add up to n seconds. */
  lemma SleepScheduleTotal(n: int)
    ensures Total(SleepSchedule(n)) == 1000 * Max(n, 0)
  {
    ConstantTotal(SleepSchedule(n));
  }

  lemma {:induction false} ConstantTotal(s: seq<int>)
    requires forall k :: 0 <= k < |s| ==> s[k] == SleepStep
    ensures Total(s) == SleepStep * |s|
  {
    if s != [] {
      ConstantTotal(s[..|s| - 1]);
    }
  }

  /** wait_n_seconds(n, sleep): counts ms down from n * 1000 in steps of
      100, calling sleep(0.1) once per step. */
  method WaitNSeconds(n: int, sleep: Spy<int>)
    modifies sleep
    ensures sleep.calls == old(sleep.calls) + SleepSchedule(n)
  {
    var ms := n * 1000;
    ghost var made := 0;
    while ms > 0
      invariant ms == n * 1000 - SleepStep * made
      invariant 0 <= made && (n > 0 ==> made <= 10 * n) && (n <= 0 ==> made == 0)
      invariant sleep.calls == old(sleep.calls) + seq(made, _ => SleepStep)
      decreases ms
    {
      ms := ms - 100;
      sleep.Call(SleepStep);
      made := made + 1;
    }
    assert made == if n > 0 then 10 * n else 0;
  }

  /** What am_i_lucky prints and returns for a drawn number. */
  datatype Lucky = Lucky(won: bool, printed: string)

  const WinMessage: string := "You win!"
  const LoseMessage: string := "You lose.`"

  /** am_i_lucky with the value random.randint(1, 100000) returned. */
  function AmILucky(drawn: int): (r: Lucky)
    ensures r.won <==> drawn == 42
    ensures r.printed == (if r.won then WinMessage else LoseMessage)
  {
    if drawn == 42 then Lucky(true, WinMessage) else Lucky(false, LoseMessage)
  }

  /** am_i_lucky with the draw left to the random number generator: any
      number between 1 and 100000 may come up. */
  method DrawAndCheck() returns (drawn: int, r: Lucky)
    ensures 1 <= drawn <= 100000
    ensures r.won <==> drawn == 42
  {
    drawn :| 1 <= drawn <= 100000;
    r := AmILucky(drawn);
  }

  /** Patching randint to return 42 makes every call a win, and the two
      messages differ, so the printed text tells the outcomes apart. */
  lemma PatchedDrawAlwaysWins(drawn: int)
    ensures AmILucky(42).won && AmILucky(42).printed == WinMessage
    ensures AmILucky(drawn).printed == WinMessage <==> AmILucky(drawn).won
  {
  }

  /** wait_key(keyList): the first element of what waitKeys returned;
      None stands for the IndexError of an empty list. */
  function WaitKey<K>(returned: seq<K>): (r: Option<K>)
    ensures r.Some? <==> |returned| > 0
    ensures r.Some? ==> r.value == returned[0]
  {
    if |returned| > 0 then Some(returned[0]) else None
  }

  /** wait_key behaves as the timed branch of wait_keys. */
  lemma WaitKeyIsTimedWaitKeys<K>(returned: seq<K>)
    ensures WaitKey(returned).Some? <==> AutomatedTesting.WaitKeys(returned, true).Single?
    ensures WaitKey(returned).Some? ==>
      WaitKey(returned).value == AutomatedTesting.WaitKeys(returned, true).key
  {
  }
}
