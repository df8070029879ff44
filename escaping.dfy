/** Escaping text for a double-quoted JavaScript string literal (`escapeJSString`,
    lib/index.js:14-16) and reading such a literal's body back (`unescapeJSString`,
    lib/index.js:10-12, which evaluates `"` + body + `"`). The evaluation is modelled
    as the string-literal grammar of strict-mode JavaScript: the module is an ES
    module, so octal escapes are syntax errors. */
module Escaping {
  import opened Wrappers
  import JsStrings

  /** `escapeJSString` as written: five global replacements, backslash first. */
  function EscapeJSString(s: string): (r: string)
    ensures r == EscapeChars(s)
    ensures forall i :: 0 <= i < |r| ==> r[i] != '\n' && r[i] != '\r' && r[i] != '\t'
  {
    EscapeIsPerChar(s);
    EscapeHasNoControl(s);
    Stage5(s)
  }

  function Stage1(s: string): string { JsStrings.ReplaceAll(s, "\\", "\\\\") }
  function Stage2(s: string): string { JsStrings.ReplaceAll(Stage1(s), "\"", "\\\"") }
  function Stage3(s: string): string { JsStrings.ReplaceAll(Stage2(s), "\n", "\\n") }
  function Stage4(s: string): string { JsStrings.ReplaceAll(Stage3(s), "\r", "\\r") }
  function Stage5(s: string): string { JsStrings.ReplaceAll(Stage4(s), "\t", "\\t") }

  /** What escaping does to one character. */
  function EscapeChar(c: char): string {
    if c == '\\' then "\\\\"
    else if c == '"' then "\\\""
    else if c == '\n' then "\\n"
    else if c == '\r' then "\\r"
    else if c == '\t' then "\\t"
    else [c]
  }

  /** Escaping character by character. */
  function EscapeChars(s: string): string
    decreases |s|
  {
    if |s| == 0 then "" else EscapeChar(s[0]) + EscapeChars(s[1..])
  }

  /** A one-character pattern that does not occur is not replaced. */
  lemma {:induction false} ReplaceCharMissing(s: string, c: char, r: string)
    requires c !in s
    ensures JsStrings.ReplaceAll(s, [c], r) == s
    decreases |s|
  {
    if |s| > 0 {
      assert s[..1] != [c] by { assert s[..1][0] == s[0]; }
      ReplaceCharMissing(s[1..], c, r);
      assert s == [s[0]] + s[1..];
    }
  }

  /** A one-character string is either replaced whole or kept. */
  lemma ReplaceOneChar(x: char, c: char, r: string)
    ensures JsStrings.ReplaceAll([x], [c], r) == if x == c then r else [x]
  {
    if x == c {
      assert [x][|[c]|..] == [];
    } else {
      ReplaceCharMissing([x], c, r);
    }
  }

  lemma EscapeSingle(c: char)
    ensures Stage5([c]) == EscapeChar(c)
  {
    ReplaceOneChar(c, '\\', "\\\\");
    if c == '\\' {
      ReplaceCharMissing("\\\\", '"', "\\\"");
      ReplaceCharMissing("\\\\", '\n', "\\n");
      ReplaceCharMissing("\\\\", '\r', "\\r");
      ReplaceCharMissing("\\\\", '\t', "\\t");
    } else {
      ReplaceOneChar(c, '"', "\\\"");
      if c == '"' {
        ReplaceCharMissing("\\\"", '\n', "\\n");
        ReplaceCharMissing("\\\"", '\r', "\\r");
        ReplaceCharMissing("\\\"", '\t', "\\t");
      } else {
        ReplaceOneChar(c, '\n', "\\n");
        if c == '\n' {
          ReplaceCharMissing("\\n", '\r', "\\r");
          ReplaceCharMissing("\\n", '\t', "\\t");
        } else {
          ReplaceOneChar(c, '\r', "\\r");
          if c == '\r' {
            ReplaceCharMissing("\\r", '\t', "\\t");
          } else {
            ReplaceOneChar(c, '\t', "\\t");
          }
        }
      }
    }
  }

  /** Each stage works character by character, so the five of them do too. */
  lemma EscapeConcat(a: string, b: string)
    ensures Stage5(a + b) == Stage5(a) + Stage5(b)
  {
    JsStrings.ReplaceCharConcat(a, b, '\\', "\\\\");
    JsStrings.ReplaceCharConcat(Stage1(a), Stage1(b), '"', "\\\"");
    JsStrings.ReplaceCharConcat(Stage2(a), Stage2(b), '\n', "\\n");
    JsStrings.ReplaceCharConcat(Stage3(a), Stage3(b), '\r', "\\r");
    JsStrings.ReplaceCharConcat(Stage4(a), Stage4(b), '\t', "\\t");
  }

  /** The chain of replacements is the character-by-character escape. */
  lemma {:induction false} EscapeIsPerChar(s: string)
    ensures Stage5(s) == EscapeChars(s)
    decreases |s|
  {
    if |s| == 0 {
      ReplaceCharMissing("", '\\', "\\\\");
      ReplaceCharMissing("", '"', "\\\"");
      ReplaceCharMissing("", '\n', "\\n");
      ReplaceCharMissing("", '\r', "\\r");
      ReplaceCharMissing("", '\t', "\\t");
    } else {
      assert s == [s[0]] + s[1..];
      EscapeConcat([s[0]], s[1..]);
      EscapeSingle(s[0]);
      EscapeIsPerChar(s[1..]);
    }
  }

  /** No raw newline, carriage return or tab survives escaping. */
  lemma {:induction false} EscapeHasNoControl(s: string)
    ensures forall i :: 0 <= i < |EscapeChars(s)| ==>
      EscapeChars(s)[i] != '\n' && EscapeChars(s)[i] != '\r' && EscapeChars(s)[i] != '\t'
    decreases |s|
  {
    if |s| > 0 {
      EscapeHasNoControl(s[1..]);
    }
  }

  predicate IsDecimalDigit(c: char) {
    '0' <= c <= '9'
  }

  predicate IsHexDigit(c: char) {
    '0' <= c <= '9' || 'a' <= c <= 'f' || 'A' <= c <= 'F'
  }

  predicate AllHex(s: string) {
    forall i :: 0 <= i < |s| ==> IsHexDigit(s[i])
  }

  /** The number of leading hexadecimal digits of `s`. */
  function HexRun(s: string): (n: nat)
    ensures n <= |s| && AllHex(s[..n])
    ensures n < |s| ==> !IsHexDigit(s[n])
    decreases |s|
  {
    if |s| > 0 && IsHexDigit(s[0]) then
      var n := 1 + HexRun(s[1..]);
      assert s[..n] == [s[0]] + s[1..][..n - 1];
      n
    else 0
  }

  /** A code point that a Dafny `char` can hold: not a surrogate, at most U+10FFFF. */
  predicate IsScalar(v: nat) {
    v < 0xD800 || (0xE000 <= v <= 0x10FFFF)
  }

  predicate IsHighSurrogate(v: nat) {
    0xD800 <= v <= 0xDBFF
  }

  predicate IsLowSurrogate(v: nat) {
    0xDC00 <= v <= 0xDFFF
  }

  /** The code point that the UTF-16 pair `hi`, `lo` stands for. */
  function CombineSurrogates(hi: nat, lo: nat): (c: char)
    requires IsHighSurrogate(hi) && IsLowSurrogate(lo)
    ensures 0x10000 <= c as int
  {
    (0x10000 + (hi - 0xD800) * 0x400 + (lo - 0xDC00)) as char
  }

  /** The `\u` escape that opens `s`, in its four-digit or its braced form: the
      code unit or code point it denotes and the number of characters it spans.
      `None` when `s` does not open with a well-formed one. */
  function UnicodeEscape(s: string): (r: Option<(nat, nat)>)
    ensures r.Some? ==> 2 < r.value.1 <= |s|
  {
    if |s| < 3 || s[0] != '\\' || s[1] != 'u' then None
    else if |s| >= 6 && AllHex(s[2..6]) then Some((JsStrings.DigitsValue(s[2..6], 16), 6))
    else if s[2] == '{' then
      var n := HexRun(s[3..]);
      if n > 0 && 3 + n < |s| && s[3 + n] == '}' then Some((JsStrings.DigitsValue(s[3..3 + n], 16), 4 + n))
      else None
    else None
  }

  /** The body of a double-quoted string literal, read as strict-mode JavaScript
      reads it. A body the grammar rejects (an unescaped quote or line break, a
      backslash at the very end, an octal or malformed escape, a braced code point
      above U+10FFFF) is a failure, as the evaluation throws. A high-surrogate
      escape followed by a low-surrogate escape is the one character the pair
      stands for; a surrogate escape without its partner is a failure too, since a
      Dafny string cannot hold it. */
  function Unescape(s: string): (r: Result<string, string>)
    decreases |s|
  {
    if |s| == 0 then Success("")
    else if s[0] == '"' then Failure("unescaped quote inside the literal")
    else if s[0] == '\n' || s[0] == '\r' then Failure("line break inside the literal")
    else if s[0] != '\\' then Prepend([s[0]], Unescape(s[1..]))
    else if |s| == 1 then Failure("unterminated string literal")
    else
      var d := s[1];
      if d == 'n' then Prepend("\n", Unescape(s[2..]))
      else if d == 'r' then Prepend("\r", Unescape(s[2..]))
      else if d == 't' then Prepend("\t", Unescape(s[2..]))
      else if d == 'b' then Prepend([8 as char], Unescape(s[2..]))
      else if d == 'f' then Prepend([12 as char], Unescape(s[2..]))
      else if d == 'v' then Prepend([11 as char], Unescape(s[2..]))
      else if d == '0' && !(|s| > 2 && IsDecimalDigit(s[2])) then Prepend([0 as char], Unescape(s[2..]))
      else if IsDecimalDigit(d) then Failure("octal escape in strict mode")
      else if d == 'x' then
        if |s| >= 4 && IsHexDigit(s[2]) && IsHexDigit(s[3]) then
          TwoHexDigits(s[2..4]);
          Prepend([JsStrings.DigitsValue(s[2..4], 16) as char], Unescape(s[4..]))
        else Failure("malformed hexadecimal escape")
      else if d == 'u' then
        match UnicodeEscape(s)
        case None => Failure("malformed unicode escape")
        case Some((v, n)) =>
          if v > 0x10FFFF then Failure("code point out of range")
          else if IsScalar(v) then Prepend([v as char], Unescape(s[n..]))
          else
            var next := UnicodeEscape(s[n..]);
            if IsHighSurrogate(v) && next.Some? && IsLowSurrogate(next.value.0) then
              Prepend([CombineSurrogates(v, next.value.0)], Unescape(s[n + next.value.1..]))
            else Failure("lone surrogate")
      else if d == '\n' || d == '\U{2028}' || d == '\U{2029}' then Unescape(s[2..])
      else if d == '\r' then
        if |s| > 2 && s[2] == '\n' then Unescape(s[3..]) else Unescape(s[2..])
      else Prepend([d], Unescape(s[2..]))
  }

  function Prepend(p: string, r: Result<string, string>): Result<string, string> {
    match r
    case Success(t) => Success(p + t)
    case Failure(e) => Failure(e)
  }

  /** Two hexadecimal digits are worth less than 256. */
  lemma TwoHexDigits(t: string)
    requires |t| == 2 && IsHexDigit(t[0]) && IsHexDigit(t[1])
    ensures JsStrings.DigitsValue(t, 16) < 256
  {
    assert t[..1][..0] == [];
    assert JsStrings.DigitsValue(t[..1], 16) == JsStrings.DigitValue(t[0]) < 16;
    assert JsStrings.DigitValue(t[1]) < 16;
  }

  /** Every character above U+FFFF is the one a surrogate pair stands for, and
      the pair is determined by the character. */
  lemma SurrogatesCover(c: char)
    requires 0x10000 <= c as int
    ensures IsHighSurrogate(0xD800 + (c as int - 0x10000) / 0x400)
    ensures IsLowSurrogate(0xDC00 + (c as int - 0x10000) % 0x400)
    ensures CombineSurrogates(0xD800 + (c as int - 0x10000) / 0x400, 0xDC00 + (c as int - 0x10000) % 0x400) == c
  {
  }

  /** Two pairs that stand for the same character are the same pair. */
  lemma CombineInjective(hi: nat, lo: nat, hi': nat, lo': nat)
    requires IsHighSurrogate(hi) && IsLowSurrogate(lo) && IsHighSurrogate(hi') && IsLowSurrogate(lo')
    requires CombineSurrogates(hi, lo) == CombineSurrogates(hi', lo')
    ensures hi == hi' && lo == lo'
  {
  }

  /** A high-surrogate escape `\uXXXX` followed by a low-surrogate one reads as the
      single character the pair stands for. */
  lemma SurrogatePairRead(h: string, l: string, rest: string)
    requires |h| == 4 && AllHex(h) && |l| == 4 && AllHex(l)
    requires IsHighSurrogate(JsStrings.DigitsValue(h, 16)) && IsLowSurrogate(JsStrings.DigitsValue(l, 16))
    ensures Unescape("\\u" + h + "\\u" + l + rest)
      == Prepend([CombineSurrogates(JsStrings.DigitsValue(h, 16), JsStrings.DigitsValue(l, 16))], Unescape(rest))
  {
    var s := "\\u" + h + "\\u" + l + rest;
    assert s[2..6] == h;
    assert s[6..] == "\\u" + l + rest;
    assert s[6..][2..6] == l;
    assert s[12..] == rest;
  }

  /** `\uD83D\uDE00`, as minifiers write an emoji, reads as U+1F600. */
  lemma EmojiExample(h: string, l: string)
    requires h == "D83D" && l == "DE00"
    ensures Unescape("\\u" + h + "\\u" + l) == Success(['\U{1F600}'])
  {
    assert JsStrings.DigitsValue(h, 16) == 0xD83D by {
      assert h[..3] == "D83" && h[..3][..2] == "D8" && h[..3][..2][..1] == "D" && h[..3][..2][..1][..0] == "";
      assert JsStrings.DigitsValue("D", 16) == 0xD;
      assert JsStrings.DigitsValue("D8", 16) == 0xD8;
      assert JsStrings.DigitsValue("D83", 16) == 0xD83;
    }
    assert JsStrings.DigitsValue(l, 16) == 0xDE00 by {
      assert l[..3] == "DE0" && l[..3][..2] == "DE" && l[..3][..2][..1] == "D" && l[..3][..2][..1][..0] == "";
      assert JsStrings.DigitsValue("D", 16) == 0xD;
      assert JsStrings.DigitsValue("DE", 16) == 0xDE;
      assert JsStrings.DigitsValue("DE0", 16) == 0xDE0;
    }
    SurrogatePairRead(h, l, "");
    assert "\\u" + h + "\\u" + l + "" == "\\u" + h + "\\u" + l;
    assert CombineSurrogates(0xD83D, 0xDE00) == '\U{1F600}';
    assert Unescape("") == Success("");
    assert ['\U{1F600}'] + "" == ['\U{1F600}'];
  }

  /** One escaped character is read back as that character. */
  lemma UnescapeOne(c: char, rest: string)
    ensures Unescape(EscapeChar(c) + rest) == Prepend([c], Unescape(rest))
  {
    var e := EscapeChar(c) + rest;
    if |EscapeChar(c)| == 1 {
      assert e[0] == c && e[1..] == rest;
    } else {
      assert e[0] == '\\' && e[2..] == rest;
      assert e[1] == (if c == '\n' then 'n' else if c == '\r' then 'r' else if c == '\t' then 't' else c);
    }
  }

  /** Reading back an escaped text gives the text: `Unescape` undoes
      `EscapeJSString` for every input. */
  lemma {:induction false} UnescapeEscape(s: string)
    ensures Unescape(EscapeJSString(s)) == Success(s)
    decreases |s|
  {
    EscapeIsPerChar(s);
    if |s| > 0 {
      UnescapeEscape(s[1..]);
      EscapeIsPerChar(s[1..]);
      UnescapeOne(s[0], EscapeChars(s[1..]));
      assert s == [s[0]] + s[1..];
    }
  }
}
