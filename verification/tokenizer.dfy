/** The checker's tokenizer for CPOG and CNF files.  A token is an
    integer (an optional leading '-' and digits), a '*', a string of other
    non-blank characters, the end of a line or the end of the file.  The
    file is a character sequence and end-of-file is its end; the C
    token_last buffer becomes the token's text.  The magnitude and the
    value are C ints: each step's result wraps to 32 bits. */
module Tokenizer {

  import Decimal
  import opened Literals

  /** Size of token_last, including its terminating NUL. */
  const TOKEN_MAX: nat := 100

  /** token_t; TNone is the type of a token before its first character. */
  datatype TokType = TInt | TString | TStar | TEof | TEol | TNone | TUnknown

  /** One call of token_next: the token type, token_value, token_last,
      the read position afterwards and the line count. */
  datatype Scan = Scan(ttype: TokType, value: int, text: string, pos: nat, lines: nat)

  /** isspace in the C locale. */
  predicate IsSpace(c: char) {
    c == ' ' || c == '\t' || c == '\n' || c == '\U{B}' || c == '\U{C}' || c == '\r'
  }

  predicate IsDigit(c: char) {
    '0' <= c <= '9'
  }

  /** token_next: blanks other than a newline are skipped; a newline gives
      an end-of-line token and counts the line; the end of input gives an
      end-of-file token; any other character starts a token. */
  function TokenNext(input: string, pos: nat, lines: nat): (r: Scan)
    requires pos <= |input|
    ensures pos <= r.pos <= |input|
    ensures r.ttype != TNone
    ensures r.ttype == TEof <==> (r.pos == |input| && forall k :: pos <= k < |input| ==> IsSpace(input[k]) && input[k] != '\n')
    ensures r.lines == (if r.ttype == TEol then lines + 1 else lines)
    decreases |input| - pos
  {
    if pos == |input| then Scan(TEof, 0, "", pos, lines)
    else if input[pos] == '\n' then Scan(TEol, 0, "", pos + 1, lines + 1)
    else if IsSpace(input[pos]) then TokenNext(input, pos + 1, lines)
    else
      var b := Body(input, pos, TNone, 1, 0, 0, "");
      Scan(b.ttype, b.value, b.text, b.pos, lines)
  }

  /** The second loop of token_next.  Before reading a character it gives
      up (type unknown) once the text holds TOKEN_MAX-1 characters, though
      it still consumes that character.  A blank or the end of input ends
      the token; a newline is pushed back for the next call.  A character
      that cannot continue the token makes it unknown and is consumed. */
  function Body(input: string, pos: nat, ttype: TokType, sign: int, mag: int, value: int, text: string): (r: Scan)
    requires pos <= |input|
    requires pos == |input| || !(ttype == TNone && IsSpace(input[pos]))
    ensures pos <= r.pos <= |input|
    ensures r.ttype in {ttype, TInt, TString, TStar, TUnknown}
    ensures r.ttype == TNone ==> pos == |input|
    ensures r.lines == 0
    decreases |input| - pos
  {
    if |text| >= TOKEN_MAX - 1 then
      Scan(TUnknown, value, text, if pos == |input| || input[pos] == '\n' then pos else pos + 1, 0)
    else if pos == |input| then Scan(ttype, value, text, pos, 0)
    else
      var c := input[pos];
      if c == '-' then
        if ttype != TNone then Scan(TUnknown, value, text, pos + 1, 0)
        else Body(input, pos + 1, TInt, -sign, mag, value, text + [c])
      else if IsDigit(c) then
        if ttype != TNone && ttype != TInt then Scan(TUnknown, value, text, pos + 1, 0)
        else
          var m := ToInt32(10 * mag + (c as int - '0' as int));
          Body(input, pos + 1, TInt, sign, m, ToInt32(sign * m), text + [c])
      else if IsSpace(c) then
        Scan(ttype, value, text, if c == '\n' then pos else pos + 1, 0)
      else if c == '*' then
        if ttype != TNone then Scan(TUnknown, value, text, pos + 1, 0)
        else Body(input, pos + 1, TStar, sign, mag, value, text + [c])
      else
        if ttype != TNone && ttype != TString then Scan(TUnknown, value, text, pos + 1, 0)
        else Body(input, pos + 1, TString, sign, mag, value, text + [c])
  }

  predicate AllDigits(s: string) {
    forall k :: 0 <= k < |s| ==> IsDigit(s[k])
  }

  /** A run of k digits accumulates their decimal value into the
      magnitude, most significant first, and both the magnitude and the
      value hold that number (and its signed form) wrapped to 32 bits. */
  lemma {:induction false} DigitRun(input: string, pos: nat, k: nat, ttype: TokType, sign: int, text: string)
    requires pos + k <= |input|
    requires AllDigits(input[pos..pos + k])
    requires ttype == TNone || ttype == TInt
    requires pos == |input| || !(ttype == TNone && IsSpace(input[pos]))
    requires |text| + k < TOKEN_MAX - 1
    ensures var ds := input[pos..pos + k];
            Body(input, pos, ttype, sign, 0, 0, text)
            == Body(input, pos + k, if k == 0 then ttype else TInt, sign, ToInt32(Decimal.DigitsValue(ds)),
                    ToInt32(sign * Decimal.DigitsValue(ds)), text + ds)
  {
    var ds := input[pos..pos + k];
    if k == 0 {
      assert text + ds == text;
      assert Decimal.DigitsValue(ds) == 0;
    } else {
      var ds' := input[pos..pos + k - 1];
      assert ds[..k - 1] == ds';
      assert AllDigits(ds') by {
        forall i | 0 <= i < |ds'| ensures IsDigit(ds'[i]) {
          assert ds'[i] == ds[i];
        }
      }
      DigitRun(input, pos, k - 1, ttype, sign, text);
      LastDigit(input, pos, k, if k - 1 == 0 then ttype else TInt, sign, text);
    }
  }

  /** The last digit of a run of k digits: one more step of Body. */
  lemma LastDigit(input: string, pos: nat, k: nat, tt: TokType, sign: int, text: string)
    requires 0 < k && pos + k <= |input|
    requires AllDigits(input[pos..pos + k]) && AllDigits(input[pos..pos + k - 1])
    requires tt == TNone || tt == TInt
    requires |text| + k < TOKEN_MAX - 1
    ensures var ds := input[pos..pos + k];
            var ds' := input[pos..pos + k - 1];
            Body(input, pos + k - 1, tt, sign, ToInt32(Decimal.DigitsValue(ds')), ToInt32(sign * Decimal.DigitsValue(ds')), text + ds')
            == Body(input, pos + k, TInt, sign, ToInt32(Decimal.DigitsValue(ds)), ToInt32(sign * Decimal.DigitsValue(ds)), text + ds)
  {
    var ds := input[pos..pos + k];
    var ds' := input[pos..pos + k - 1];
    var c := input[pos + k - 1];
    assert ds[..k - 1] == ds';
    assert ds == ds' + [c];
    assert text + ds == (text + ds') + [c];
    assert IsDigit(ds[k - 1]) && ds[k - 1] == c;
    var m := Decimal.DigitsValue(ds');
    var d := c as int - '0' as int;
    var full := Decimal.DigitsValue(ds);
    assert full == 10 * m + d;
    var m1 := ToInt32(10 * ToInt32(m) + d);
    assert Body(input, pos + k - 1, tt, sign, ToInt32(m), ToInt32(sign * m), text + ds')
           == Body(input, pos + k, TInt, sign, m1, ToInt32(sign * m1), (text + ds') + [c]) by {
      DigitStep(input, pos + k - 1, tt, sign, ToInt32(m), ToInt32(sign * m), text + ds');
    }
    assert m1 == ToInt32(full) && ToInt32(sign * m1) == ToInt32(sign * full) by {
      WrapDigit(m, d, sign);
    }
    SameArgs(input, pos + k, sign, m1, ToInt32(sign * m1), (text + ds') + [c],
             ToInt32(full), ToInt32(sign * full), text + ds);
  }

  /** Appending a digit to a wrapped magnitude wraps like appending it to
      the exact one, and so does the signed value. */
  lemma WrapDigit(m: int, d: int, sign: int)
    ensures ToInt32(10 * ToInt32(m) + d) == ToInt32(10 * m + d)
    ensures ToInt32(sign * ToInt32(10 * ToInt32(m) + d)) == ToInt32(sign * (10 * m + d))
  {
    WrapAffine(m, 10, d);
    WrapAffine(10 * m + d, sign, 0);
  }

  lemma SameArgs(input: string, q: nat, sign: int, m1: int, v1: int, t1: string, m2: int, v2: int, t2: string)
    requires q <= |input| && m1 == m2 && v1 == v2 && t1 == t2
    ensures Body(input, q, TInt, sign, m1, v1, t1) == Body(input, q, TInt, sign, m2, v2, t2)
  {
  }

  /** Wrapping an operand before a * x + b does not change the wrapped
      result. */
  lemma WrapAffine(x: int, a: int, b: int)
    ensures ToInt32(a * ToInt32(x) + b) == ToInt32(a * x + b)
  {
    var k := (ToInt32(x) - x) / 0x1_0000_0000;
    assert ToInt32(x) == x + k * 0x1_0000_0000;
    assert a * ToInt32(x) == a * x + (a * k) * 0x1_0000_0000;
    ToInt32Congruent(a * ToInt32(x) + b, a * x + b, a * k);
  }

  /** Body on one digit. */
  lemma DigitStep(input: string, q: nat, tt: TokType, sign: int, mag: int, value: int, text: string)
    requires q < |input| && IsDigit(input[q]) && (tt == TNone || tt == TInt)
    requires |text| < TOKEN_MAX - 1
    ensures !(tt == TNone && IsSpace(input[q]))
    ensures var m := ToInt32(10 * mag + (input[q] as int - '0' as int));
            Body(input, q, tt, sign, mag, value, text)
            == Body(input, q + 1, TInt, sign, m, ToInt32(sign * m), text + [input[q]])
  {
  }

  /** The integer a sign and digit string denote. */
  function IntValue(neg: bool, ds: string): int
    requires AllDigits(ds)
  {
    var m: int := Decimal.DigitsValue(ds);
    if neg then -m else m
  }

  /** Blanks from 0 to start, an optional '-' at start, digits up to end,
      then a blank or the end of input: token_next reads that integer. */
  lemma ReadsIntegerAt(input: string, start: nat, neg: bool, end: nat, lines: nat)
    requires var p := if neg then start + 1 else start;
             p < end <= |input| && AllDigits(input[p..end])
    requires forall k :: 0 <= k < start ==> IsSpace(input[k]) && input[k] != '\n'
    requires neg ==> input[start] == '-'
    requires end - start < TOKEN_MAX - 1
    requires end == |input| || IsSpace(input[end])
    ensures var p := if neg then start + 1 else start;
            var r := TokenNext(input, 0, lines);
            r.ttype == TInt && r.value == ToInt32(IntValue(neg, input[p..end])) && r.text == input[start..end]
            && r.lines == lines
            && r.pos == end + (if end < |input| && input[end] != '\n' then 1 else 0)
  {
    var p := if neg then start + 1 else start;
    assert !IsSpace(input[start]) by {
      if !neg {
        assert input[start] == input[p..end][0];
      }
    }
    SkipBlanks(input, 0, start, lines);
    if neg {
      BodyReadsNegative(input, start, end);
    } else {
      BodyReadsNatural(input, start, end);
    }
  }

  lemma BodyReadsNatural(input: string, start: nat, end: nat)
    requires start < end <= |input| && AllDigits(input[start..end])
    requires end - start < TOKEN_MAX - 1
    requires end == |input| || IsSpace(input[end])
    ensures Body(input, start, TNone, 1, 0, 0, "")
            == Scan(TInt, ToInt32(IntValue(false, input[start..end])), input[start..end],
                    end + (if end < |input| && input[end] != '\n' then 1 else 0), 0)
  {
    var ds := input[start..end];
    var m := Decimal.DigitsValue(ds);
    DigitRun(input, start, end - start, TNone, 1, "");
    assert "" + ds == ds;
    TokenEnd(input, end, TInt, 1, ToInt32(m), ToInt32(1 * m), ds);
  }

  lemma BodyReadsNegative(input: string, start: nat, end: nat)
    requires start + 1 < end <= |input| && AllDigits(input[start + 1..end])
    requires input[start] == '-'
    requires end - start < TOKEN_MAX - 1
    requires end == |input| || IsSpace(input[end])
    ensures Body(input, start, TNone, 1, 0, 0, "")
            == Scan(TInt, ToInt32(IntValue(true, input[start + 1..end])), input[start..end],
                    end + (if end < |input| && input[end] != '\n' then 1 else 0), 0)
  {
    var ds := input[start + 1..end];
    var m: int := Decimal.DigitsValue(ds);
    MinusStep(input, start);
    DigitRun(input, start + 1, end - start - 1, TInt, -1, "-");
    assert input[start + 1..start + 1 + (end - start - 1)] == ds;
    assert "-" + ds == input[start..end];
    assert IntValue(true, ds) == -1 * m;
    TokenEnd(input, end, TInt, -1, ToInt32(m), ToInt32(-1 * m), input[start..end]);
  }

  /** A leading '-' starts an integer token with a negative sign. */
  lemma MinusStep(input: string, start: nat)
    requires start < |input| && input[start] == '-'
    ensures Body(input, start, TNone, 1, 0, 0, "") == Body(input, start + 1, TInt, -1, 0, 0, "-")
  {
    assert "" + [input[start]] == "-";
  }

  /** A blank or the end of input ends a token that is not too long. */
  lemma TokenEnd(input: string, pos: nat, ttype: TokType, sign: int, mag: int, value: int, text: string)
    requires pos <= |input|
    requires pos == |input| || IsSpace(input[pos])
    requires ttype != TNone
    requires |text| < TOKEN_MAX - 1
    ensures Body(input, pos, ttype, sign, mag, value, text)
            == Scan(ttype, value, text, if pos < |input| && input[pos] != '\n' then pos + 1 else pos, 0)
  {
    if pos < |input| {
      var c := input[pos];
      assert c != '-' && !IsDigit(c);
    }
  }

  /** Blanks, an optional '-', at least one digit, then a blank or the end
      of input: token_next returns that integer, with the sign and digits
      as its text.  The token must be shorter than TOKEN_MAX-1. */
  lemma ReadsInteger(blanks: string, neg: bool, ds: string, rest: string, lines: nat)
    requires forall k :: 0 <= k < |blanks| ==> IsSpace(blanks[k]) && blanks[k] != '\n'
    requires |ds| >= 1 && AllDigits(ds)
    requires (if neg then 1 else 0) + |ds| < TOKEN_MAX - 1
    requires rest == [] || IsSpace(rest[0])
    ensures var sgn := if neg then "-" else "";
            var input := blanks + sgn + ds + rest;
            var r := TokenNext(input, 0, lines);
            r.ttype == TInt && r.value == ToInt32(IntValue(neg, ds)) && r.text == sgn + ds && r.lines == lines
            && r.pos == |blanks + sgn + ds| + (if rest != [] && rest[0] != '\n' then 1 else 0)
  {
    var sgn := if neg then "-" else "";
    var input := blanks + sgn + ds + rest;
    var start := |blanks|;
    var p := start + |sgn|;
    var end := p + |ds|;
    assert input[p..end] == ds;
    assert input[start..end] == sgn + ds;
    assert forall k :: 0 <= k < start ==> input[k] == blanks[k];
    if neg {
      assert input[start] == '-';
    }
    if rest != [] {
      assert input[end] == rest[0];
    }
    ReadsIntegerAt(input, start, neg, end, lines);
  }

  /** Blanks other than newlines before position q are skipped. */
  lemma {:induction false} SkipBlanks(input: string, pos: nat, q: nat, lines: nat)
    requires pos <= q < |input|
    requires forall k :: pos <= k < q ==> IsSpace(input[k]) && input[k] != '\n'
    requires !IsSpace(input[q])
    ensures TokenNext(input, pos, lines) == var b := Body(input, q, TNone, 1, 0, 0, "");
                                            Scan(b.ttype, b.value, b.text, b.pos, lines)
    decreases q - pos
  {
    if pos < q {
      SkipBlanks(input, pos + 1, q, lines);
    }
  }

  /** What the generator prints for an int, read back by token_next: every
      32-bit value comes back exactly. */
  lemma ReadsPrintedInt(v: int, rest: string, lines: nat)
    requires INT_MIN <= v <= INT_MAX
    requires rest == [] || IsSpace(rest[0])
    ensures var text := (if v < 0 then "-" else "") + Decimal.NatToString(if v < 0 then -v else v);
            var r := TokenNext(text + rest, 0, lines);
            r.ttype == TInt && r.value == v && r.text == text
  {
    var m := if v < 0 then -v else v;
    var ds := Decimal.NatToString(m);
    Decimal.ValueOfNatToString(m);
    Decimal.Pow10Ten();
    Decimal.NatToStringLength(m, 10);
    ReadsInteger("", v < 0, ds, rest, lines);
    assert "" + (if v < 0 then "-" else "") + ds + rest == (if v < 0 then "-" else "") + ds + rest;
  }

  /** The decimal text of any number short enough for token_last reads as
      that number wrapped to 32 bits. */
  lemma ReadsNat(n: nat, lines: nat)
    requires |Decimal.NatToString(n)| < TOKEN_MAX - 1
    ensures var r := TokenNext(Decimal.NatToString(n), 0, lines);
            r.ttype == TInt && r.value == ToInt32(n)
  {
    var ds := Decimal.NatToString(n);
    Decimal.ValueOfNatToString(n);
    ReadsInteger("", false, ds, "", lines);
    assert "" + "" + ds + "" == ds;
  }

  /** Digits beyond the int range wrap: 4294967297 (2^32 + 1) reads as 1. */
  lemma ReadsWrapped(n: nat, lines: nat)
    requires n == 0x1_0000_0001
    ensures var r := TokenNext(Decimal.NatToString(n), 0, lines);
            r.ttype == TInt && r.value == 1
  {
    assert Decimal.Pow10(11) == 100_000_000_000;
    Decimal.NatToStringLength(n, 11);
    ReadsNat(n, lines);
    assert ToInt32(n) == 1;
  }

  /** A lone '-' reads as the integer 0. */
  lemma LoneMinusIsZero(rest: string, lines: nat)
    requires rest == [] || IsSpace(rest[0])
    ensures var r := TokenNext("-" + rest, 0, lines);
            r.ttype == TInt && r.value == 0
  {
    var input := "-" + rest;
    assert input[0] == '-' && !IsSpace('-');
    assert TokenNext(input, 0, lines).ttype == Body(input, 0, TNone, 1, 0, 0, "").ttype;
    assert Body(input, 0, TNone, 1, 0, 0, "") == Body(input, 1, TInt, -1, 0, 0, "-");
    if rest != [] {
      assert input[1] == rest[0];
    }
  }

  /** A token of TOKEN_MAX-1 or more non-blank characters is unknown. */
  lemma {:induction false} LongTokenUnknown(input: string, pos: nat, ttype: TokType, sign: int, mag: int, value: int, text: string, k: nat)
    requires pos + k <= |input|
    requires forall i :: pos <= i < pos + k ==> !IsSpace(input[i])
    requires |text| + k >= TOKEN_MAX - 1
    requires pos == |input| || !(ttype == TNone && IsSpace(input[pos]))
    ensures Body(input, pos, ttype, sign, mag, value, text).ttype == TUnknown
    decreases k
  {
    if |text| < TOKEN_MAX - 1 {
      var c := input[pos];
      var t := text + [c];
      if c == '-' {
        if ttype == TNone {
          LongTokenUnknown(input, pos + 1, TInt, -sign, mag, value, t, k - 1);
        }
      } else if IsDigit(c) {
        if ttype == TNone || ttype == TInt {
          var m := ToInt32(10 * mag + (c as int - '0' as int));
          LongTokenUnknown(input, pos + 1, TInt, sign, m, ToInt32(sign * m), t, k - 1);
        }
      } else if c == '*' {
        if ttype == TNone {
          LongTokenUnknown(input, pos + 1, TStar, sign, mag, value, t, k - 1);
        }
      } else if ttype == TNone || ttype == TString {
        LongTokenUnknown(input, pos + 1, TString, sign, mag, value, t, k - 1);
      }
    }
  }
}
