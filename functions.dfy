/** The functions of the "modularizing an experiment with functions"
    notebook: add, the greeting builders, the trial-division prime filter and
    the retrying shuffle that separates repeated trials. */
module Functions {
  import opened Wrappers
  import opened Text
  import Randomness
  import opened Arithmetic

  // ---------------------------------------------------------------------
  // add
  // ---------------------------------------------------------------------

  /** add(a, b): the number whose difference with either argument is the
      other one. */
  function Add(a: int, b: int): (r: int)
    ensures r - b == a && r - a == b
  {
    a + b
  }

  // ---------------------------------------------------------------------
  // say_hi_to (first version)
  // ---------------------------------------------------------------------

  /** say_hi_to(first, last="", shout=False): "Hi <first> <last>!", upper-cased
      when shouting. The space before `last` is always there, so the default
      gives "Hi Bob !". */
  function SayHiTo(first: string, last: string, shout: bool): (r: string)
    ensures |r| == |first| + |last| + 5
    ensures r[..3] == (if shout then "HI " else "Hi ")
    ensures r[3..3 + |first|] == (if shout then ToUpper(first) else first)
    ensures r[3 + |first|] == ' '
    ensures r[4 + |first|..|r| - 1] == (if shout then ToUpper(last) else last)
    ensures r[|r| - 1] == '!'
  {
    var text := "Hi" + " " + first + " " + last + "!";
    if shout then ToUpper(text) else text
  }

  /** Shouting upper-cases the polite greeting and changes nothing else. */
  lemma ShoutIsUpperCase(first: string, last: string)
    ensures SayHiTo(first, last, true) == ToUpper(SayHiTo(first, last, false))
  {
    var polite := SayHiTo(first, last, false);
    var loud := SayHiTo(first, last, true);
    forall i | 0 <= i < |loud|
      ensures loud[i] == ToUpper(polite)[i]
    {
      if i < 3 {
        assert loud[i] == loud[..3][i] && polite[i] == polite[..3][i];
      } else if i < 3 + |first| {
        assert loud[i] == loud[3..3 + |first|][i - 3] && polite[i] == polite[3..3 + |first|][i - 3];
      } else if 4 + |first| <= i < |loud| - 1 {
        assert loud[i] == loud[4 + |first|..|loud| - 1][i - 4 - |first|];
        assert polite[i] == polite[4 + |first|..|polite| - 1][i - 4 - |first|];
      }
    }
  }

  /** The greetings the notebook asserts. */
  lemma SayHiToExamples()
    ensures SayHiTo("Bob", "", false) == "Hi Bob !"
    ensures SayHiTo("Bob", "McBobface", false) == "Hi Bob McBobface!"
    ensures SayHiTo("Bob", "McBobface", true) == "HI BOB MCBOBFACE!"
  {
    assert "Hi" + " " + "Bob" + " " + "" + "!" == "Hi Bob !";
    var polite := "Hi" + " " + "Bob" + " " + "McBobface" + "!";
    assert polite == "Hi Bob McBobface!";
    var loud := "HI BOB MCBOBFACE!";
    assert ToUpper(polite) == loud by {
      assert |ToUpper(polite)| == |loud|;
      forall i | 0 <= i < |loud|
        ensures ToUpper(polite)[i] == loud[i]
      {
        assert ToUpper(polite)[i] == UpperChar(polite[i]);
      }
    }
  }

  // ---------------------------------------------------------------------
  // say_hi_to (second version, with do_print)
  // ---------------------------------------------------------------------

  /** What a call shows and what it returns (None is Python's None). */
  datatype Greeted = Greeted(printed: Option<string>, returned: Option<string>)

  /** The second say_hi_to as written: its test is `if print:`, the built-in
      function, which is always true, so it always prints the greeting and
      returns None, whatever do_print says. */
  function SayHiToPrinting(first: string, last: string, doPrint: bool): (g: Greeted)
    ensures g.printed == Some(SayHiTo(first, last, false))
    ensures g.returned == None
  {
    var text := "Hi" + " " + first + " " + last + "!";
    Greeted(Some(text), None)
  }

  /** The discrepancy: asking not to print still prints and still returns
      None, so the caller never gets the greeting back. */
  lemma DoPrintIsIgnored(first: string, last: string)
    ensures SayHiToPrinting(first, last, false) == SayHiToPrinting(first, last, true)
    ensures SayHiToPrinting(first, last, false).returned != Some(SayHiTo(first, last, false))
  {
  }

  /** The second say_hi_to as evidently intended, testing `do_print`. */
  function SayHiToPrintingFixed(first: string, last: string, doPrint: bool): (g: Greeted)
    ensures g.printed.Some? <==> doPrint
    ensures g.returned.Some? <==> !doPrint
    ensures doPrint ==> g.printed == Some(SayHiTo(first, last, false))
    ensures !doPrint ==> g.returned == Some(SayHiTo(first, last, false))
  {
    var text := "Hi" + " " + first + " " + last + "!";
    if doPrint then Greeted(Some(text), None) else Greeted(None, Some(text))
  }

  // ---------------------------------------------------------------------
  // find_primes
  // ---------------------------------------------------------------------

  /** int(i / 2): halving truncated toward zero. */
  function HalfTowardZero(i: int): int {
    if i >= 0 then i / 2 else -((-i) / 2)
  }

  /** No j of range(2, bound) divides i. */
  predicate NoDivisorBelow(i: int, bound: int) {
    forall j :: 2 <= j < bound ==> i % j != 0
  }

  /** The verdict of find_primes' inner loop for i. */
  predicate PassesTrialDivision(i: int) {
    NoDivisorBelow(i, HalfTowardZero(i))
  }

  predicate IsPrime(n: int) {
    n >= 2 && NoDivisorBelow(n, n)
  }

  /** find_primes(start, stop): every i of range(start, stop), in increasing
      order, that no j of range(2, int(i/2)) divides. */
  method FindPrimes(start: int, stop: int) returns (primes: seq<int>)
    ensures forall x :: x in primes <==> start <= x < stop && PassesTrialDivision(x)
    ensures forall k, l :: 0 <= k < l < |primes| ==> primes[k] < primes[l]
  {
    primes := [];
    var i := start;
    while i < stop
      invariant start <= i && (i <= stop || i == start)
      invariant forall x :: x in primes <==> start <= x < i && PassesTrialDivision(x)
      invariant forall k, l :: 0 <= k < l < |primes| ==> primes[k] < primes[l]
      invariant forall k :: 0 <= k < |primes| ==> primes[k] < i
    {
      var isPrime := true;
      var half := HalfTowardZero(i);
      var j := 2;
      while j < half
        invariant 2 <= j && (j <= half || j == 2)
        invariant isPrime <==> NoDivisorBelow(i, j)
      {
        if i % j == 0 {
          isPrime := false;
        }
        j := j + 1;
      }
      assert isPrime <==> PassesTrialDivision(i);
      if isPrime {
        primes := primes + [i];
      }
      i := i + 1;
    }
  }

  /** A composite i has a divisor m with 2 <= m, 2m <= i and m*m <= i. */
  lemma SmallDivisor(i: int, d: int) returns (m: int)
    requires 2 <= d < i && i % d == 0
    ensures 2 <= m && 2 * m <= i && m * m <= i && i % m == 0
  {
    var q := i / d;
    assert i == d * q by {
      assert i == d * (i / d) + i % d;
    }
    assert d * (q - 1) == i - d;
    MulSign(d, q - 1);
    assert q >= 2;
    FactorDivides(i, q, d);
    FactorDivides(i, d, q);
    if d <= q {
      m := d;
      MulMonotone(m, m, q);
      MulMonotone(m, 2, q);
    } else {
      m := q;
      MulMonotone(m, m, d);
      MulMonotone(m, 2, d);
    }
  }

  /** Consequence of the int(i/2) bound: from 5 on, find_primes keeps exactly
      the primes; every i up to 4 (0, 1, 4 and all negatives included) is
      kept. */
  lemma TrialDivisionVersusPrimality(i: int)
    ensures i >= 5 ==> (PassesTrialDivision(i) <==> IsPrime(i))
    ensures i <= 4 ==> PassesTrialDivision(i)
  {
    if i >= 5 && !IsPrime(i) {
      var d :| 2 <= d < i && i % d == 0;
      var m := SmallDivisor(i, d);
      if m == 2 {
        assert HalfTowardZero(i) >= 3;
      } else {
        assert 3 * m <= m * m;
      }
      assert 2 <= m < HalfTowardZero(i) && i % m == 0;
    }
  }

  /** The discrepancy: find_primes(0, 5) keeps 0, 1 and 4, which are not
      prime. */
  lemma FindPrimesKeepsNonPrimes()
    ensures PassesTrialDivision(0) && PassesTrialDivision(1) && PassesTrialDivision(4)
    ensures !IsPrime(0) && !IsPrime(1) && !IsPrime(4)
  {
    assert 4 % 2 == 0;
  }

  /** find_primes as evidently intended: numbers below 2 are not prime and
      the divisor range includes int(i/2), i.e. range(2, int(i/2) + 1). */
  method FindPrimesFixed(start: int, stop: int) returns (primes: seq<int>)
    ensures forall x :: x in primes <==> start <= x < stop && IsPrime(x)
    ensures forall k, l :: 0 <= k < l < |primes| ==> primes[k] < primes[l]
  {
    primes := [];
    var i := start;
    while i < stop
      invariant start <= i && (i <= stop || i == start)
      invariant forall x :: x in primes <==> start <= x < i && IsPrime(x)
      invariant forall k, l :: 0 <= k < l < |primes| ==> primes[k] < primes[l]
      invariant forall k :: 0 <= k < |primes| ==> primes[k] < i
    {
      var isPrime := i >= 2;
      var bound := HalfTowardZero(i) + 1;
      var j := 2;
      while j < bound
        invariant 2 <= j && (j <= bound || j == 2)
        invariant isPrime <==> i >= 2 && NoDivisorBelow(i, j)
      {
        if i % j == 0 {
          isPrime := false;
        }
        j := j + 1;
      }
      if i >= 2 {
        HalfBoundDecidesPrimality(i);
      }
      if isPrime {
        primes := primes + [i];
      }
      i := i + 1;
    }
  }

  /** Trial division up to and including int(i/2) decides primality. */
  lemma HalfBoundDecidesPrimality(i: int)
    requires i >= 2
    ensures NoDivisorBelow(i, HalfTowardZero(i) + 1) <==> IsPrime(i)
  {
    if !IsPrime(i) {
      var d :| 2 <= d < i && i % d == 0;
      var m := SmallDivisor(i, d);
      assert 2 <= m < HalfTowardZero(i) + 1 && i % m == 0;
    }
  }

  // ---------------------------------------------------------------------
  // shuffle_trials
  // ---------------------------------------------------------------------

  /** No two neighbouring trials are equal. */
  predicate NoAdjacentDuplicates<T(==)>(s: seq<T>) {
    forall i :: 1 <= i < |s| ==> s[i] != s[i - 1]
  }

  /** The inner loop of shuffle_trials: found_duplicate. */
  method HasAdjacentDuplicate<T(==)>(trials: array<T>) returns (found: bool)
    ensures found <==> !NoAdjacentDuplicates(trials[..])
  {
    found := false;
    var i := 1;
    while i < trials.Length
      invariant 1 <= i
      invariant found <==> exists k :: 1 <= k < i && k < trials.Length && trials[k] == trials[k - 1]
    {
      if trials[i] == trials[i - 1] {
        found := true;
      }
      i := i + 1;
    }
  }

  /** How shuffle_trials ends: the list is returned, or StopIteration is raised. */
  datatype ShuffleResult = Returned | StopIteration

  /** shuffle_trials(trials, max_iter): checks the list for equal neighbours
      and reshuffles it in place until none remain, raising StopIteration
      when a check beyond the max_iter-th would be needed. The ghost `seen`
      records the list as each check found it: every check but a successful
      last one found equal neighbours, and the list was reshuffled between
      checks. */
  method ShuffleTrials<T(==)>(trials: array<T>, maxIter: int) returns (r: ShuffleResult, ghost seen: seq<seq<T>>)
    modifies trials
    ensures multiset(trials[..]) == old(multiset(trials[..]))
    ensures r == Returned ==> NoAdjacentDuplicates(trials[..])
    ensures maxIter <= 0 ==> r == StopIteration && trials[..] == old(trials[..])
    ensures maxIter >= 1 && NoAdjacentDuplicates(old(trials[..])) ==>
      r == Returned && trials[..] == old(trials[..])
    ensures r == StopIteration ==> |seen| == Max(maxIter, 0)
    ensures r == Returned ==> 1 <= |seen| <= maxIter && seen[|seen| - 1] == trials[..]
    ensures seen != [] ==> seen[0] == old(trials[..])
    ensures forall k :: 0 <= k < |seen| ==> multiset(seen[k]) == old(multiset(trials[..]))
    ensures forall k :: 0 <= k < |seen| && (r == StopIteration || k < |seen| - 1) ==>
      !NoAdjacentDuplicates(seen[k])
  {
    var ok := false;
    var count := 0;
    seen := [];
    while !ok
      invariant 0 <= count <= Max(maxIter, 0)
      invariant |seen| == count
      invariant multiset(trials[..]) == old(multiset(trials[..]))
      invariant ok ==> NoAdjacentDuplicates(trials[..]) && 1 <= count <= maxIter
      invariant ok ==> seen[count - 1] == trials[..]
      invariant count == 0 ==> !ok && trials[..] == old(trials[..])
      invariant count >= 1 ==> seen[0] == old(trials[..])
      invariant count >= 1 && NoAdjacentDuplicates(old(trials[..])) ==> ok && trials[..] == old(trials[..])
      invariant forall k :: 0 <= k < count ==> multiset(seen[k]) == old(multiset(trials[..]))
      invariant forall k :: 0 <= k < count && (!ok || k < count - 1) ==> !NoAdjacentDuplicates(seen[k])
      decreases Max(maxIter - count, 0) + (if ok then 0 else 1)
    {
      count := count + 1;
      if count > maxIter {
        return StopIteration, seen;
      }
      seen := seen + [trials[..]];
      var foundDuplicate := HasAdjacentDuplicate(trials);
      if !foundDuplicate {
        ok := true;
      } else {
        Randomness.Shuffle(trials);
      }
    }
    return Returned, seen;
  }

  /** A list of two or more copies of one condition has no arrangement without
      equal neighbours, so shuffle_trials can only raise on it. */
  lemma UniformListCannotBeSeparated<T>(s: seq<T>, t: seq<T>)
    requires |s| >= 2 && forall i :: 0 <= i < |s| ==> s[i] == s[0]
    requires multiset(t) == multiset(s)
    ensures !NoAdjacentDuplicates(t)
  {
    assert |t| == |multiset(t)| == |multiset(s)| == |s|;
    assert t[0] in multiset(t) && t[1] in multiset(t);
    assert t[0] in s && t[1] in s;
    assert t[1] == t[0];
  }
}
