/** The two flow-control exercises: the if/elif chain that sorts a number
    by sign and magnitude, and the counting loop left with break. */
module FlowControl {
  import opened Wrappers
  import Text

  /** The five branches of the classifier, one per printed message. */
  datatype Magnitude =
    | LargeNegative
    | SmallNegative
    | Zero
    | SmallPositive
    | HighPositive

  /** The branch the if/elif chain takes for x. */
  function Classify(x: int): (r: Magnitude)
    ensures r == HighPositive <==> x > 10
    ensures r == SmallPositive <==> 1 <= x <= 10
    ensures r == Zero <==> x == 0
    ensures r == LargeNegative <==> x < -10
    ensures r == SmallNegative <==> -10 <= x <= -1
  {
    if x > 10 then HighPositive
    else if x > 0 then SmallPositive
    else if x == 0 then Zero
    else if x < -10 then LargeNegative
    else SmallNegative
  }

  /** The text each branch prints. */
  function Message(m: Magnitude): string
  {
    match m
    case HighPositive => "High positive number"
    case SmallPositive => "Small positive number"
    case Zero => "Zero!"
    case LargeNegative => "Large negative number"
    case SmallNegative => "Small negative number"
  }

  /** Different branches print different messages, so the printed line
      tells which branch ran. */
  lemma MessagesDistinct(m: Magnitude, n: Magnitude)
    requires m != n
    ensures Message(m) != Message(n)
  {
  }

  /** The position of a branch along the number line. */
  function Rank(m: Magnitude): nat
  {
    match m
    case LargeNegative => 0
    case SmallNegative => 1
    case Zero => 2
    case SmallPositive => 3
    case HighPositive => 4
  }

  /** The chain sorts numbers in order: a larger number never lands in a
      lower branch. */
  lemma ClassifyMonotone(x: int, y: int)
    requires x <= y
    ensures Rank(Classify(x)) <= Rank(Classify(y))
  {
  }

  /** One example per branch, the values the exercise looks for. */
  lemma ClassifyExamples()
    ensures Classify(20) == HighPositive && Classify(10) == SmallPositive
    ensures Classify(0) == Zero && Classify(-11) == LargeNegative
    ensures Classify(-10) == SmallNegative
  {
  }

  /** The counting loop. `enterLoop` is the loop condition, True as written
      and False in the exercise's last variant; the result is the final
      count and the printed line. */
  method CountIterations(maxCount: int, enterLoop: bool) returns (count: int, message: string)
    ensures count == if enterLoop then Max(maxCount, 1) else 0
    ensures message == "Ran " + Text.NatToString(count) + " iterations"
  {
    count := 0;
    while enterLoop
      invariant 0 <= count < Max(maxCount, 1)
      invariant enterLoop || count == 0
      decreases Max(maxCount, 1) - count
    {
      count := count + 1;
      if count >= maxCount {
        break;
      }
    }
    message := "Ran " + Text.NatToString(count) + " iterations";
  }

  /** The printed line can be read back: the count sits between "Ran " and
      " iterations". */
  lemma CountReadBack(count: nat)
    ensures var message := "Ran " + Text.NatToString(count) + " iterations";
      |message| >= 16 && Text.ParseNat(message[4..|message| - 11]) == count
  {
    var digits := Text.NatToString(count);
    var message := "Ran " + digits + " iterations";
    assert message[4..|message| - 11] == digits;
    Text.ParseNatToString(count);
  }
}
