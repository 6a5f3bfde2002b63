/** `david/calculator.py`: `bonus_calculate` reads an expression `a op b`
    of three blank-separated words and prints the result, or the first
    error it meets. */
module Calculator {
  import opened Wrappers
  import opened Text
  import PriorityCalculator

  /** What `bonus_calculate` prints. */
  datatype Outcome =
    | IntResult(n: int)     // "Result:" after `+`, `-` or `*`
    | Quotient(q: real)     // "Result:" after `/`
    | FormatError           // "Invalid expression format."
    | InvalidNumber         // "Invalid Input Number"
    | DivisionByZero        // "Error: Division by zero."
    | InvalidOperator       // "Invalid operator."

  /** `int(w)` for a word: an optional sign, then decimal digits, with
      single underscores allowed between digits. */
  function ParseInt(w: string): (r: Option<int>)
    ensures r.Some? <==>
      IsIntDigits(w) || (|w| > 1 && (w[0] == '-' || w[0] == '+') && IsIntDigits(w[1..]))
    ensures r.Some? && IsIntDigits(w) ==> r.value == IntDigitsValue(w)
    ensures r.Some? && w[0] == '-' ==> r.value == -(IntDigitsValue(w[1..]) as int)
    ensures r.Some? && w[0] == '+' ==> r.value == IntDigitsValue(w[1..])
  {
    if IsIntDigits(w) then Some(IntDigitsValue(w))
    else if |w| > 1 && w[0] == '-' && IsIntDigits(w[1..]) then Some(-(IntDigitsValue(w[1..]) as int))
    else if |w| > 1 && w[0] == '+' && IsIntDigits(w[1..]) then Some(IntDigitsValue(w[1..]))
    else None
  }

  /** A word of plain digits, signed or not, reads as its decimal value. */
  lemma ParseIntOfDigits(w: string)
    requires IsDigitString(w)
    ensures ParseInt(w) == Some(DecimalValue(w))
    ensures ParseInt("-" + w) == Some(-(DecimalValue(w) as int))
    ensures ParseInt("+" + w) == Some(DecimalValue(w))
  {
    DigitsAreIntDigits(w);
    assert ("-" + w)[1..] == w && ("+" + w)[1..] == w;
    assert !IsDigit(("-" + w)[0]) && !IsDigit(("+" + w)[0]);
  }

  /** Underscores count only between digits: `1_000` is read as 1000... */
  lemma ParseIntUnderscored()
    ensures ParseInt("1_000") == Some(1000)
  {
    ThousandDigits();
    ThousandValue();
  }

  lemma ThousandDigits()
    ensures IsIntDigits("1_000")
  {
    assert "1_000"[2..] == "000" && "000"[1..] == "00" && "00"[1..] == "0";
  }

  lemma ThousandValue()
    ensures DropUnderscores("1_000") == "1000" && DecimalValue("1000") == 1000
  {
    assert "1_000"[1..] == "_000" && "_000"[1..] == "000";
    DropUnderscoresOfDigits("000");
    assert "1000"[..3] == "100" && "100"[..2] == "10" && "10"[..1] == "1" && "1"[..0] == "";
  }

  /** ... and a leading, trailing or doubled underscore is refused. */
  lemma ParseIntMisplacedUnderscores()
    ensures ParseInt("_1").None? && ParseInt("1_").None? && ParseInt("1__0").None?
    ensures ParseInt("-_1").None? && ParseInt("+").None?
  {
    assert "1__0"[1..] == "__0" && "1__0"[2..] == "_0";
    assert "1_"[1..] == "_" && "1_"[2..] == "";
    assert "-_1"[1..] == "_1";
  }

  /** How Python prints an integer. */
  function IntToString(n: int): (s: string)
    ensures s != [] && NoSpace(s)
  {
    var d := NatToString(if n < 0 then -n else n);
    assert forall i | 0 <= i < |d| :: !IsSpace(d[i]) by {
      forall i | 0 <= i < |d| ensures !IsSpace(d[i]) {
        assert IsDigit(d[i]);
      }
    }
    if n < 0 then "-" + d else d
  }

  /** Reading a printed integer back gives the integer. */
  lemma ParseIntOfIntToString(n: int)
    ensures ParseInt(IntToString(n)) == Some(n)
  {
    var m: nat := if n < 0 then -n else n;
    DecimalValueOfNatToString(m);
    ParseIntOfDigits(NatToString(m));
  }

  function Add(a: int, b: int): int { a + b }

  function Subtract(a: int, b: int): int { a - b }

  function Multiply(a: int, b: int): int { a * b }

  /** `a / b` on integers is true division. */
  function Divide(a: int, b: int): (r: real)
    requires b != 0
    ensures r * b as real == a as real
  {
    a as real / b as real
  }

  /** `bonus_calculate`: the count of words first, then the first number,
      then the second, then the operator. */
  function BonusCalculate(ex: string): (o: Outcome)
    ensures var ws := Words(ex);
      (o == FormatError <==> |ws| != 3)
      && (o == InvalidNumber <==>
            |ws| == 3 && (ParseInt(ws[0]).None? || ParseInt(ws[2]).None?))
    ensures var ws := Words(ex);
      |ws| == 3 && ParseInt(ws[0]).Some? && ParseInt(ws[2]).Some? ==>
        var a, op, b := ParseInt(ws[0]).value, PriorityCalculator.OpOf(ws[1]), ParseInt(ws[2]).value;
        (o == InvalidOperator <==> op.None?)
        && (o == DivisionByZero <==> op == Some(PriorityCalculator.Slash) && b == 0)
        && (op == Some(PriorityCalculator.Plus) ==> o == IntResult(a + b))
        && (op == Some(PriorityCalculator.Minus) ==> o == IntResult(a - b))
        && (op == Some(PriorityCalculator.Times) ==> o == IntResult(a * b))
        && (op == Some(PriorityCalculator.Slash) && b != 0 ==> o == Quotient(a as real / b as real))
  {
    var elements := Words(ex);
    if |elements| != 3 then FormatError
    else
      match ParseInt(elements[0])
      case None => InvalidNumber
      case Some(a) =>
        match ParseInt(elements[2])
        case None => InvalidNumber
        case Some(b) =>
          var op := PriorityCalculator.OpOf(elements[1]);
          if op.None? then InvalidOperator
          else if op.value == PriorityCalculator.Plus then IntResult(Add(a, b))
          else if op.value == PriorityCalculator.Minus then IntResult(Subtract(a, b))
          else if op.value == PriorityCalculator.Times then IntResult(Multiply(a, b))
          else if b == 0 then DivisionByZero
          else Quotient(Divide(a, b))
  }

  /** Three words separated by single blanks are read as those words. */
  lemma WordsOfThree(x: string, y: string, z: string)
    requires x != [] && NoSpace(x) && y != [] && NoSpace(y) && z != [] && NoSpace(z)
    ensures Words(x + " " + y + " " + z) == [x, y, z]
  {
    assert x + " " + y + " " + z == x + " " + (y + " " + z);
    WordsCons(x, y + " " + z);
    WordsCons(y, z);
    WordsSingle(z);
  }

  /** An expression written out from two integers and an operator evaluates
      to that operation, division by zero excepted. */
  lemma EvaluatesWrittenExpression(a: int, op: string, b: int)
    requires op in ["+", "-", "*", "/"]
    ensures var o := BonusCalculate(IntToString(a) + " " + op + " " + IntToString(b));
      (op == "+" ==> o == IntResult(a + b))
      && (op == "-" ==> o == IntResult(a - b))
      && (op == "*" ==> o == IntResult(a * b))
      && (op == "/" && b == 0 ==> o == DivisionByZero)
      && (op == "/" && b != 0 ==> o == Quotient(a as real / b as real))
  {
    var ex := IntToString(a) + " " + op + " " + IntToString(b);
    assert |op| == 1 && !IsSpace(op[0]);
    WordsOfThree(IntToString(a), op, IntToString(b));
    ParseIntOfIntToString(a);
    ParseIntOfIntToString(b);
    BonusOfWords(ex, a, op, b);
  }

  /** The outcome for an expression whose three words are two numerals and
      an operator. */
  lemma BonusOfWords(ex: string, a: int, op: string, b: int)
    requires op in ["+", "-", "*", "/"]
    requires |Words(ex)| == 3 && ParseInt(Words(ex)[0]) == Some(a) && Words(ex)[1] == op
    requires ParseInt(Words(ex)[2]) == Some(b)
    ensures var o := BonusCalculate(ex);
      (op == "+" ==> o == IntResult(a + b))
      && (op == "-" ==> o == IntResult(a - b))
      && (op == "*" ==> o == IntResult(a * b))
      && (op == "/" && b == 0 ==> o == DivisionByZero)
      && (op == "/" && b != 0 ==> o == Quotient(a as real / b as real))
  {
  }
}
