/** `data-types/src/main.rs`: a calculator over `i32` whose three operations
    saturate at the ends of the range, and two string templates. */
module DataTypes {
  import opened Decimal

  type I32 = x: int | I32Min <= x <= I32Max
  type U32 = n: int | 0 <= n < 0x1_0000_0000

  function Dist(x: int, y: int): nat {
    if x <= y then y - x else x - y
  }

  /** The exact result of a saturating operation brought into `i32`: the
      value of the range nearest to it. */
  function Saturate(x: int): (r: I32)
    ensures I32Min <= x <= I32Max ==> r == x
    ensures forall y: I32 :: Dist(r, x) <= Dist(y, x)
  {
    if x > I32Max then I32Max else if x < I32Min then I32Min else x
  }

  /** Saturation only ever moves a value towards the range, stopping at its
      nearer end. */
  lemma SaturateEnds(x: int)
    ensures x > I32Max ==> Saturate(x) == I32Max
    ensures x < I32Min ==> Saturate(x) == I32Min
    ensures Saturate(x) <= x <==> x >= I32Min
    ensures Saturate(x) >= x <==> x <= I32Max
  {
  }

  /** `calculate`: `i32::saturating_add`, `saturating_sub` and
      `saturating_mul` for "+", "-" and "*"; 0 for every other operation. */
  function Calculate(a: I32, b: I32, operation: string): (r: I32)
    ensures operation == "+" ==> r == Saturate(a + b)
    ensures operation == "-" ==> r == Saturate(a - b)
    ensures operation == "*" ==> r == Saturate(a * b)
    ensures operation != "+" && operation != "-" && operation != "*" ==> r == 0
  {
    match operation
    case "+" => Saturate(a + b)
    case "-" => Saturate(a - b)
    case "*" => Saturate(a * b)
    case _ => 0
  }

  /** Where the exact result fits, the calculator returns it. */
  lemma CalculateExact(a: I32, b: I32, operation: string)
    requires operation == "+" || operation == "-" || operation == "*"
    requires var x := if operation == "+" then a + b else if operation == "-" then a - b else a * b;
             I32Min <= x <= I32Max
    ensures Calculate(a, b, operation) == if operation == "+" then a + b else if operation == "-" then a - b else a * b
  {
  }

  lemma CalculateExamples()
    ensures Calculate(10, 20, "+") == 30 && Calculate(100, 200, "+") == 300
    ensures Calculate(I32Max, 1, "+") == I32Max
    ensures Calculate(50, 30, "-") == 20 && Calculate(I32Min, 1, "-") == I32Min
    ensures Calculate(5, 6, "*") == 30 && Calculate(I32Max, 2, "*") == I32Max
    ensures Calculate(10, 20, "/") == 0
  {
    assert "/" != "+" && "/" != "-" && "/" != "*";
  }

  // ---------------------------------------------------------------------
  // format_message and build_greeting

  const Greeting := "Hello, "
  const AccountLabel := "! Your account: "
  const LevelLabel := ", level: "

  /** `format!("Hello, {name}! Your account: {score}, level: {level}.")`. */
  function FormatMessage(name: string, score: U32, level: U32): (r: string)
    ensures |r| == |Greeting| + |name| + |AccountLabel| + |NatToString(score)| + |LevelLabel| + |NatToString(level)| + 1
  {
    Greeting + name + AccountLabel + NatToString(score) + LevelLabel + NatToString(level) + "."
  }

  /** The message is the template with the name and the two numbers, each
      in its place. */
  lemma FormatMessageShape(name: string, score: U32, level: U32)
    ensures var r, s, l := FormatMessage(name, score, level), NatToString(score), NatToString(level);
      var i := |Greeting| + |name| + |AccountLabel|;
      var j := i + |s| + |LevelLabel|;
      r[..|Greeting|] == Greeting && r[|Greeting|..|Greeting| + |name|] == name &&
      r[|Greeting| + |name|..i] == AccountLabel && r[i..i + |s|] == s &&
      r[i + |s|..j] == LevelLabel && r[j..j + |l|] == l && r[|r| - 1] == '.'
  {
    Pieces(Greeting, name, AccountLabel, NatToString(score), LevelLabel, NatToString(level), ".");
  }

  /** Where each of seven strings sits in their concatenation. */
  lemma Pieces(p0: string, p1: string, p2: string, p3: string, p4: string, p5: string, p6: string)
    ensures var r := p0 + p1 + p2 + p3 + p4 + p5 + p6;
      var i1 := |p0|;
      var i2 := i1 + |p1|;
      var i3 := i2 + |p2|;
      var i4 := i3 + |p3|;
      var i5 := i4 + |p4|;
      var i6 := i5 + |p5|;
      |r| == i6 + |p6| &&
      r[..i1] == p0 && r[i1..i2] == p1 && r[i2..i3] == p2 && r[i3..i4] == p3 &&
      r[i4..i5] == p4 && r[i5..i6] == p5 && r[i6..] == p6
  {
  }

  /** The numbers can be read back out of the message: the digits after
      the account label are the score, those after the level label the level. */
  lemma FormatMessageNumbers(name: string, score: U32, level: U32)
    ensures var r, s, l := FormatMessage(name, score, level), NatToString(score), NatToString(level);
      var i := |Greeting| + |name| + |AccountLabel|;
      var j := i + |s| + |LevelLabel|;
      AllDigits(r[i..i + |s|]) && ValueOf(r[i..i + |s|]) == score &&
      AllDigits(r[j..j + |l|]) && ValueOf(r[j..j + |l|]) == level
  {
    FormatMessageShape(name, score, level);
    NatToStringValue(score);
    NatToStringValue(level);
  }

  /** `build_greeting`: the name, one space, the suffix. */
  function BuildGreeting(name: string, suffix: string): (r: string)
    ensures |r| == |name| + 1 + |suffix|
    ensures r[..|name|] == name && r[|name|] == ' ' && r[|name| + 1..] == suffix
  {
    name + " " + suffix
  }

  lemma NumbersOfExamples()
    ensures NatToString(150) == "150" && NatToString(5) == "5"
    ensures NatToString(999) == "999" && NatToString(12) == "12"
  {
  }

  lemma AlexMessage()
    ensures FormatMessage("Alex", 150, 5) == "Hello, Alex! Your account: 150, level: 5."
  {
    NumbersOfExamples();
    Template("Alex", "150", "5");
  }

  lemma MariaMessage()
    ensures FormatMessage("Maria", 999, 12) == "Hello, Maria! Your account: 999, level: 12."
  {
    NumbersOfExamples();
    Template("Maria", "999", "12");
  }

  lemma Template(name: string, s: string, l: string)
    ensures Greeting + name + AccountLabel + s + LevelLabel + l + "."
         == "Hello, " + name + "! Your account: " + s + ", level: " + l + "."
  {
  }

  lemma GreetingExample()
    ensures BuildGreeting("Ivan", "Welcome!") == "Ivan Welcome!"
  {
  }
}
