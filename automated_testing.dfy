/** The functions under test in the automated-testing solutions: subtract,
    concatenate_lists, the key-selection helper wait_keys and the trial
    sequence builder. */
module AutomatedTesting {
  import opened Wrappers
  import Randomness
  import Functions
  import opened Arithmetic

  /** subtract(a, b): the number that b must be added to in order to get a. */
  function Subtract(a: int, b: int): (r: int)
    ensures r + b == a
  {
    a - b
  }

  /** Subtracting undoes the notebook's add. */
  lemma SubtractUndoesAdd(a: int, b: int)
    ensures Subtract(Functions.Add(a, b), b) == a
    ensures Functions.Add(Subtract(a, b), b) == a
  {
  }

  /** The values the solutions assert. */
  lemma SubtractExamples()
    ensures Subtract(3, 5) == -2 && Subtract(10, 7) == 3
  {
  }

  /** concatenate_lists(a, b): a followed by b. */
  function ConcatenateLists<T>(a: seq<T>, b: seq<T>): (r: seq<T>)
    ensures |r| == |a| + |b|
    ensures r[..|a|] == a && r[|a|..] == b
  {
    a + b
  }

  /** What wait_keys hands back: the first key event, the whole list, or the
      IndexError of indexing an empty list. */
  datatype KeyResult<K> = Single(key: K) | All(keys: seq<K>) | IndexError

  /** wait_keys(keys, timed): `pressed` is what waitKeys returned (key names,
      or [name, time] pairs when time-stamped). Timed calls return its first
      element, untimed calls the list unchanged. */
  function WaitKeys<K>(pressed: seq<K>, timed: bool): (r: KeyResult<K>)
    ensures r.Single? <==> timed && pressed != []
    ensures r.Single? ==> r.key == pressed[0]
    ensures r.All? <==> !timed
    ensures r.All? ==> r.keys == pressed
  {
    if timed then (if pressed == [] then IndexError else Single(pressed[0]))
    else All(pressed)
  }

  /** conditions * n_reps: the list repeated n_reps times, empty when
      n_reps <= 0. */
  function Repeat<T>(conditions: seq<T>, nReps: int): (r: seq<T>)
    ensures |r| == |conditions| * Max(nReps, 0)
    ensures forall k :: 0 <= k < |r| ==> r[k] == conditions[k % |conditions|]
  {
    if nReps <= 0 then []
    else
      var rest := Repeat(conditions, nReps - 1);
      var m := |conditions|;
      MulStepDown(m, nReps);
      assert forall k :: |rest| <= k < |rest| + m ==> k % m == k - |rest| by {
        forall k | |rest| <= k < |rest| + m
          ensures k % m == k - |rest|
        {
          ModOfMultiplePlus(m, nReps - 1, k - |rest|);
        }
      }
      rest + conditions
  }

  /** In conditions * n_reps every condition occurs n_reps times as often as
      in conditions. */
  lemma {:induction false} RepeatCounts<T>(conditions: seq<T>, nReps: int, x: T)
    ensures multiset(Repeat(conditions, nReps))[x] == multiset(conditions)[x] * Max(nReps, 0)
  {
    if nReps > 0 {
      var rest := Repeat(conditions, nReps - 1);
      var c := multiset(conditions)[x];
      RepeatCounts(conditions, nReps - 1, x);
      assert Repeat(conditions, nReps) == rest + conditions;
      assert Max(nReps - 1, 0) == nReps - 1 && Max(nReps, 0) == nReps;
      assert multiset(rest + conditions)[x] == multiset(rest)[x] + c;
      MulStepDown(c, nReps);
    }
  }

  /** trial_sequence(conditions, n_reps, shuffle): conditions * n_reps, shuffled
      in place when asked; the shuffled list holds the same trials. */
  method TrialSequence<T(==)>(conditions: seq<T>, nReps: int, shuffle: bool) returns (trials: seq<T>)
    ensures |trials| == |conditions| * Max(nReps, 0)
    ensures multiset(trials) == multiset(Repeat(conditions, nReps))
    ensures !shuffle ==> trials == Repeat(conditions, nReps)
  {
    var ordered := Repeat(conditions, nReps);
    var a := new T[|ordered|](i requires 0 <= i < |ordered| => ordered[i]);
    assert a[..] == ordered;
    if shuffle {
      Randomness.Shuffle(a);
    }
    trials := a[..];
  }
}
