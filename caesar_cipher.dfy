/** `caesar_cipher.py`: rotating the lower-case letters of the recovered
    password, choosing a shift, and reading the password back from the line
    the search wrote. */
module CaesarCipher {
  import opened Wrappers
  import opened Text
  import DoorHacking

  predicate IsLower(c: char) { 'a' <= c <= 'z' }

  /** Position of a lower-case letter in the alphabet. */
  function LetterIndex(c: char): (i: nat)
    requires IsLower(c)
    ensures i < 26
  {
    c as int - 'a' as int
  }

  /** One character of the decode: lower-case letters move `shift` places
      round the alphabet (Python's `%` on a positive modulus never goes
      negative, like Dafny's), everything else is kept. */
  function Shifted(c: char, shift: int): (d: char)
    ensures IsLower(c) <==> IsLower(d)
    ensures !IsLower(c) ==> d == c
    ensures IsLower(c) ==> LetterIndex(d) == (LetterIndex(c) + shift) % 26
  {
    if IsLower(c) then ('a' as int + (c as int - 'a' as int + shift) % 26) as char else c
  }

  /** The whole decoded text, character by character. */
  function Rotated(text: string, shift: int): (r: string)
    ensures |r| == |text|
    ensures forall i | 0 <= i < |text| :: r[i] == Shifted(text[i], shift)
  {
    seq(|text|, i requires 0 <= i < |text| => Shifted(text[i], shift))
  }

  /** `caesar_cipher_decode`: builds the result one character at a time. */
  method CaesarDecode(targetText: string, shift: int) returns (decoded: string)
    ensures decoded == Rotated(targetText, shift)
  {
    var result: seq<char> := [];
    for i := 0 to |targetText|
      invariant |result| == i
      invariant forall j | 0 <= j < i :: result[j] == Shifted(targetText[j], shift)
    {
      var c := targetText[i];
      if 'a' <= c <= 'z' {
        result := result + [('a' as int + (c as int - 'a' as int + shift) % 26) as char];
      } else {
        result := result + [c];
      }
    }
    decoded := result;
  }

  lemma ModSum(x: int, a: int, b: int)
    ensures ((x + a) % 26 + b) % 26 == (x + a + b) % 26
  {
    var q := (x + a) / 26;
    assert x + a == 26 * q + (x + a) % 26;
    assert (x + a) % 26 + b == (x + a + b) - 26 * q;
    ModMultiple(x + a + b, -q);
  }

  lemma ModMultiple(y: int, q: int)
    ensures (y + 26 * q) % 26 == y % 26
  {
    var r := y % 26;
    var p := y / 26;
    assert y + 26 * q == 26 * (p + q) + r;
  }

  /** Decoding twice is decoding once with the sum of the shifts. */
  lemma RotatedCompose(text: string, a: int, b: int)
    ensures Rotated(Rotated(text, a), b) == Rotated(text, a + b)
  {
    var r, s := Rotated(Rotated(text, a), b), Rotated(text, a + b);
    forall i | 0 <= i < |text| ensures r[i] == s[i] {
      ShiftedCompose(text[i], a, b);
    }
  }

  /** One character shifted twice is shifted once by the sum. */
  lemma ShiftedCompose(c: char, a: int, b: int)
    ensures Shifted(Shifted(c, a), b) == Shifted(c, a + b)
  {
    if IsLower(c) {
      var d, e := Shifted(c, a), Shifted(c, a + b);
      ModSum(LetterIndex(c), a, b);
      assert LetterIndex(Shifted(d, b)) == LetterIndex(e);
    }
  }

  /** A shift by a whole number of turns changes nothing. */
  lemma RotatedFullTurn(text: string, k: int)
    ensures Rotated(text, 26 * k) == text
  {
    var r := Rotated(text, 26 * k);
    forall i | 0 <= i < |text| ensures r[i] == text[i] {
      if IsLower(text[i]) {
        ModMultiple(LetterIndex(text[i]), k);
      }
    }
  }

  /** Decoding with `26 - shift` undoes a decode with `shift`. */
  lemma RotatedInverse(text: string, shift: int)
    ensures Rotated(Rotated(text, shift), 26 - shift) == text
  {
    RotatedCompose(text, shift, 26 - shift);
    RotatedFullTurn(text, 1);
  }

  /** The list `main` prints: the decode with each shift from 1 to 26. */
  method DecodeAll(targetText: string) returns (decodedList: seq<string>)
    ensures |decodedList| == 26
    ensures forall i | 0 <= i < 26 :: decodedList[i] == Rotated(targetText, i + 1)
  {
    decodedList := [];
    for shift := 1 to 27
      invariant |decodedList| == shift - 1
      invariant forall i | 0 <= i < shift - 1 :: decodedList[i] == Rotated(targetText, i + 1)
    {
      var decoded := CaesarDecode(targetText, shift);
      decodedList := decodedList + [decoded];
    }
  }

  /** What the operator's answer leads to. */
  datatype Selection = EmptyInput | NotDigits | OutOfRange | Unidentified | Selected(text: string)

  /** The checks `main` makes on the answer `cmd` before picking a decode. */
  function SelectShift(cmd: string, decodedList: seq<string>): (sel: Selection)
    requires |decodedList| == 26
    ensures sel.Selected? <==>
      IsDigitString(Strip(cmd)) && 1 <= DecimalValue(Strip(cmd)) <= 26
    ensures sel.Selected? ==> sel.text == decodedList[DecimalValue(Strip(cmd)) - 1]
    ensures sel == EmptyInput <==> Strip(cmd) == []
    ensures sel == NotDigits <==> Strip(cmd) != [] && !IsDigitString(Strip(cmd))
    ensures sel == Unidentified <==> IsDigitString(Strip(cmd)) && DecimalValue(Strip(cmd)) == 0
  {
    var c := Strip(cmd);
    if c == [] then EmptyInput
    else if !IsDigitString(c) then NotDigits
    else
      var shift := DecimalValue(c);
      if !(0 <= shift <= 26) then OutOfRange
      else if shift == 0 then Unidentified
      else Selected(decodedList[shift - 1])
  }

  /** Answering with the numeral of a shift, padded with blanks, selects the
      decode with that shift. */
  lemma SelectNumeral(text: string, decodedList: seq<string>, n: nat, pad: string)
    requires |decodedList| == 26
    requires forall i | 0 <= i < 26 :: decodedList[i] == Rotated(text, i + 1)
    requires 1 <= n <= 26 && AllSpace(pad)
    ensures SelectShift(pad + NatToString(n) + pad, decodedList) == Selected(Rotated(text, n))
  {
    var s := NatToString(n);
    assert Strip(pad + s + pad) == s by {
      assert !IsSpace(s[0]) && !IsSpace(s[|s| - 1]) by {
        assert IsDigit(s[0]) && IsDigit(s[|s| - 1]);
      }
      StripUnique(pad, s, pad);
    }
    assert IsDigitString(s) && DecimalValue(s) == n by {
      DecimalValueOfNatToString(n);
    }
  }

  /** `read_password` after the file is read: the text after the first ':'
      of the stripped contents, stripped; `None` when there is no ':'. */
  function ReadPassword(contents: string): (r: Option<string>)
    ensures r.Some? <==> ':' in Strip(contents)
    ensures r.Some? ==>
      var line := Strip(contents);
      r.value == Strip(line[IndexOf(line, ':') + 1..])
  {
    var line := Strip(contents);
    var parts := SplitMax(line, ':', 1);
    if |parts| < 2 then
      CountZero(line, ':');
      None
    else
      Some(Strip(parts[1]))
  }

  /** A line `title: value` followed by blanks reads back as `value`, when the
      title has no ':' and the value does not start or end with a blank. */
  lemma ReadPasswordOfLine(title: string, value: string, trail: string)
    requires ':' !in title && title != [] && !IsSpace(title[0])
    requires value != [] && !IsSpace(value[0]) && !IsSpace(value[|value| - 1])
    requires AllSpace(trail)
    ensures ReadPassword(title + ": " + value + trail) == Some(value)
  {
    var line := title + ": " + value;
    StripLine(title, value, trail);
    assert line == title + [':'] + (" " + value);
    IndexOfAfter(title, ':', " " + value);
    assert line[|title| + 1..] == " " + value;
    StripBlankValue(value);
  }

  lemma StripLine(title: string, value: string, trail: string)
    requires title != [] && !IsSpace(title[0])
    requires value != [] && !IsSpace(value[|value| - 1])
    requires AllSpace(trail)
    ensures Strip(title + ": " + value + trail) == title + ": " + value
  {
    var line := title + ": " + value;
    assert title + ": " + value + trail == [] + line + trail;
    assert line[|line| - 1] == value[|value| - 1];
    StripUnique([], line, trail);
  }

  lemma StripBlankValue(value: string)
    requires value != [] && !IsSpace(value[0]) && !IsSpace(value[|value| - 1])
    ensures Strip(" " + value) == value
  {
    assert " " + value == " " + value + [];
    assert AllSpace(" ") && AllSpace([]);
    StripUnique(" ", value, []);
  }

  /** The password file written by the search reads back as the password. */
  lemma ReadPasswordOfRecord(password: string)
    requires DoorHacking.InKeyspace(password)
    ensures ReadPassword(DoorHacking.PasswordRecord(password)) == Some(password)
  {
    var title := "ZIP 파일 암호";
    assert DoorHacking.PasswordRecord(password) == title + ": " + password + "\n";
    assert ':' !in title by {
      forall i | 0 <= i < |title| ensures title[i] != ':' {
      }
    }
    assert DoorHacking.IsSymbol(password[0]) && DoorHacking.IsSymbol(password[|password| - 1]);
    assert AllSpace("\n");
    ReadPasswordOfLine(title, password, "\n");
  }
}
