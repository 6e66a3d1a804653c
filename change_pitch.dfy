/** The frequency staircase of the change_pitch script: each trial plays a
    tone at the current frequency, then the key pressed moves the frequency
    up or down by a fixed step. */
module ChangePitch {
  import opened Wrappers
  import opened Arithmetic

  /** The frequency change one key press causes, in units of step: "up"
      raises it, any other key lowers it. */
  function Delta(key: string): (d: int)
    ensures d == 1 <==> key == "up"
    ensures d == -1 <==> key != "up"
  {
    if key == "up" then 1 else -1
  }

  /** The net number of steps after the first n trials, where keys(i) is the
      first key reported by waitKeys on trial i. */
  function NetSteps(keys: nat -> string, n: nat): int
  {
    if n == 0 then 0 else NetSteps(keys, n - 1) + Delta(keys(n - 1))
  }

  /** How many of the first n trials were answered with key k. */
  function Count(keys: nat -> string, n: nat, k: string): nat
  {
    if n == 0 then 0
    else Count(keys, n - 1, k) + (if keys(n - 1) == k then 1 else 0)
  }

  /** The net movement is the number of "up" presses minus the number of
      other presses. */
  lemma {:induction false} NetStepsIsUpsMinusOthers(keys: nat -> string, n: nat)
    ensures NetSteps(keys, n) == Count(keys, n, "up") - (n - Count(keys, n, "up"))
  {
    if n > 0 {
      NetStepsIsUpsMinusOthers(keys, n - 1);
    }
  }

  /** With keyList ["up", "down"] every other press is "down". */
  lemma {:induction false} UpsAndDownsCoverAll(keys: nat -> string, n: nat)
    requires forall i: nat :: i < n ==> keys(i) == "up" || keys(i) == "down"
    ensures Count(keys, n, "up") + Count(keys, n, "down") == n
  {
    if n > 0 {
      UpsAndDownsCoverAll(keys, n - 1);
    }
  }

  /** The frequency after the first n trials, trial by trial. */
  function FreqAfter(freq0: int, step: int, keys: nat -> string, n: nat): int
  {
    if n == 0 then freq0
    else if keys(n - 1) == "up" then FreqAfter(freq0, step, keys, n - 1) + step
    else FreqAfter(freq0, step, keys, n - 1) - step
  }

  /** Trial by trial, the frequency moves by step times the net steps. */
  lemma {:induction false} FreqAfterIsNetSteps(freq0: int, step: int, keys: nat -> string, n: nat)
    ensures FreqAfter(freq0, step, keys, n) == freq0 + step * NetSteps(keys, n)
  {
    if n > 0 {
      FreqAfterIsNetSteps(freq0, step, keys, n - 1);
      var net := NetSteps(keys, n - 1);
      if keys(n - 1) == "up" {
        MulStepDown(step, net + 1);
      } else {
        MulStepDown(step, net);
      }
    }
  }

  /** After n trials answered with "up" or "down" the frequency is the
      start plus step times (#up - #down). */
  lemma FinalFrequency(freq0: int, step: int, keys: nat -> string, n: nat)
    requires forall i: nat :: i < n ==> keys(i) == "up" || keys(i) == "down"
    ensures FreqAfter(freq0, step, keys, n)
         == freq0 + step * (Count(keys, n, "up") - Count(keys, n, "down"))
  {
    FreqAfterIsNetSteps(freq0, step, keys, n);
    NetStepsIsUpsMinusOthers(keys, n);
    UpsAndDownsCoverAll(keys, n);
  }

  /** The loop over range(n_trials): `played` lists the frequencies of the
      tones played, `freq` is the frequency after the last trial. */
  method Staircase(freq0: int, step: int, nTrials: int, keys: nat -> string)
    returns (played: seq<int>, freq: int)
    ensures |played| == Max(nTrials, 0)
    ensures forall i :: 0 <= i < |played| ==> played[i] == FreqAfter(freq0, step, keys, i)
    ensures |played| > 0 ==> played[0] == freq0
    ensures freq == FreqAfter(freq0, step, keys, Max(nTrials, 0))
  {
    freq := freq0;
    played := [];
    var i := 0;
    while i < nTrials
      invariant 0 <= i == |played| <= Max(nTrials, 0)
      invariant freq == FreqAfter(freq0, step, keys, i)
      invariant forall j :: 0 <= j < i ==> played[j] == FreqAfter(freq0, step, keys, j)
    {
      played := played + [freq];
      var key := keys(i);
      if key == "up" {
        freq := freq + step;
      } else {
        freq := freq - step;
      }
      i := i + 1;
    }
  }
}
