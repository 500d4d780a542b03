/**
 * Properties of the JSON decoder of module `Json`: what white space,
 * literal words, numbers and strings it accepts and rejects, stated
 * against reference definitions of the grammar of RFC 8259 rather than
 * against the decoder's own steps.
 */
module JsonProps {
  import opened Wrappers
  import opened Json

  /* ---------------------------------------------------------------- */
  /* White space and the top level                                     */
  /* ---------------------------------------------------------------- */

  /** Every character from `a` up to `b` is white space. */
  predicate AllSpace(text: string, a: nat, b: nat)
    requires a <= b <= |text|
  {
    forall k :: a <= k < b ==> IsSpace(text[k])
  }

  /**
   * `SkipSpace` passes exactly the run of white space at `cur`: all of
   * it is white space, and it stops at the end or at a character that is
   * not.
   */
  lemma {:induction false} SkipSpaceSpans(text: string, cur: nat)
    requires cur <= |text|
    ensures AllSpace(text, cur, SkipSpace(text, cur))
    ensures SkipSpace(text, cur) == |text| || !IsSpace(text[SkipSpace(text, cur)])
    decreases |text| - cur
  {
    if cur < |text| && IsSpace(text[cur]) {
      SkipSpaceSpans(text, cur + 1);
    }
  }

  /** Conversely, a run of white space followed by the end or by another character is what `SkipSpace` passes. */
  lemma {:induction false} SkipSpaceOver(text: string, cur: nat, b: nat)
    requires cur <= b <= |text|
    requires AllSpace(text, cur, b)
    requires b == |text| || !IsSpace(text[b])
    ensures SkipSpace(text, cur) == b
    decreases b - cur
  {
    if cur < b {
      SkipSpaceOver(text, cur + 1, b);
    }
  }

  /** Empty input, or input of white space only, is an unexpected end of input. */
  lemma BlankRejected(text: string, convert: Convert)
    requires AllSpace(text, 0, |text|)
    ensures Json.Decode(text, convert) == Err(UnexpectedEnd)
  {
    SkipSpaceOver(text, 0, |text|);
  }

  /**
   * The whole text is accepted exactly when, after leading white space,
   * a value is decoded and nothing but white space follows it; the value
   * is then the one decoded.
   */
  lemma DecodeAccepts(text: string, convert: Convert)
    ensures var a := SkipSpace(text, 0);
            Json.Decode(text, convert).Ok? <==>
              a < |text| && ValueAt(text, a, convert).Ok?
              && AllSpace(text, ValueAt(text, a, convert).value.1, |text|)
    ensures Json.Decode(text, convert).Ok? ==>
              Json.Decode(text, convert).value == ValueAt(text, SkipSpace(text, 0), convert).value.0
  {
    var a := SkipSpace(text, 0);
    if a < |text| && ValueAt(text, a, convert).Ok? {
      var p := ValueAt(text, a, convert).value.1;
      SkipSpaceSpans(text, p);
      if AllSpace(text, p, |text|) {
        SkipSpaceOver(text, p, |text|);
      }
    }
  }

  /**
   * A character other than white space after the value is reported as an
   * unexpected token: the first such character.
   */
  lemma TrailingRejected(text: string, convert: Convert, k: nat)
    requires SkipSpace(text, 0) < |text| && ValueAt(text, SkipSpace(text, 0), convert).Ok?
    requires var p := ValueAt(text, SkipSpace(text, 0), convert).value.1;
             p <= k < |text| && AllSpace(text, p, k) && !IsSpace(text[k])
    ensures Json.Decode(text, convert) == Err(UnexpectedToken(text[k]))
  {
    var p := ValueAt(text, SkipSpace(text, 0), convert).value.1;
    SkipSpaceOver(text, p, k);
  }

  /* ---------------------------------------------------------------- */
  /* Literal words                                                     */
  /* ---------------------------------------------------------------- */

  /** The rest of `word` from its `i`-th character stands in the text at `cur`. */
  predicate Spelled(text: string, cur: nat, word: string, i: nat)
    requires cur <= |text| && i <= |word|
  {
    cur + |word| - i <= |text| && text[cur..cur + |word| - i] == word[i..]
  }

  /** `true`, `false` and `null` are accepted exactly when they are spelled out in full. */
  lemma {:induction false} WordSpelled(text: string, cur: nat, word: string, i: nat)
    requires cur <= |text| && i <= |word|
    ensures WordFrom(text, cur, word, i).Ok? <==> Spelled(text, cur, word, i)
    decreases |word| - i
  {
    if i < |word| {
      if cur < |text| && text[cur] == word[i] {
        WordSpelled(text, cur + 1, word, i + 1);
        if Spelled(text, cur + 1, word, i + 1) {
          assert text[cur..cur + |word| - i] == [text[cur]] + text[cur + 1..cur + |word| - i];
          assert word[i..] == [word[i]] + word[i + 1..];
        }
        if Spelled(text, cur, word, i) {
          assert text[cur + 1..cur + |word| - i] == text[cur..cur + |word| - i][1..];
          assert word[i + 1..] == word[i..][1..];
        }
      } else if cur + |word| - i <= |text| {
        assert text[cur..cur + |word| - i][0] == text[cur];
        assert word[i..][0] == word[i];
      }
    }
  }

  /* ---------------------------------------------------------------- */
  /* Numbers                                                           */
  /* ---------------------------------------------------------------- */

  /** An exponent: `e` or `E`, an optional sign, digits. */
  datatype Exponent = Exponent(mark: char, sign: string, digits: string)

  /** A number of RFC 8259, section 6, by its parts. */
  datatype NumberLex = NumberLex(negative: bool, integer: string, fraction: Option<string>, exponent: Option<Exponent>)

  predicate AllDigits(s: string)
  {
    forall k :: 0 <= k < |s| ==> IsDigit(s[k])
  }

  /** The grammar: an integer part without a superfluous leading zero, a fraction and an exponent with at least one digit. */
  predicate WellFormed(n: NumberLex)
  {
    && |n.integer| > 0 && AllDigits(n.integer)
    && (|n.integer| > 1 ==> n.integer[0] != '0')
    && (n.fraction.Some? ==> |n.fraction.value| > 0 && AllDigits(n.fraction.value))
    && (n.exponent.Some? ==> ExponentForm(n.exponent.value))
  }

  /** An exponent: a mark, an optional sign and at least one digit. */
  predicate ExponentForm(x: Exponent)
  {
    && (x.mark == 'e' || x.mark == 'E')
    && (x.sign == "" || x.sign == "+" || x.sign == "-")
    && |x.digits| > 0 && AllDigits(x.digits)
  }

  function Sign(n: NumberLex): string
  {
    if n.negative then "-" else ""
  }

  function RenderExponent(x: Option<Exponent>): string
  {
    if x.Some? then [x.value.mark] + x.value.sign + x.value.digits else ""
  }

  function RenderFraction(f: Option<string>): string
  {
    if f.Some? then "." + f.value else ""
  }

  /** The text of a number. */
  function Render(n: NumberLex): string
  {
    Sign(n) + n.integer + RenderFraction(n.fraction) + RenderExponent(n.exponent)
  }

  /**
   * The character after a number's text does not make the decoder read on:
   * it is not a digit, nor a `.` where no fraction was given, nor an
   * exponent mark where no exponent was given.
   */
  predicate Ends(n: NumberLex, next: Option<char>)
  {
    next.Some? ==>
      && !IsDigit(next.value)
      && (n.fraction.None? && n.exponent.None? ==> next.value != '.')
      && (n.exponent.None? ==> next.value != 'e' && next.value != 'E')
  }

  /** A run of digits from `a` to `b` that ends at `b` is what `DigitsEnd` passes. */
  lemma {:induction false} DigitsOver(text: string, a: nat, b: nat)
    requires a <= b <= |text|
    requires forall k :: a <= k < b ==> IsDigit(text[k])
    requires !DigitAt(text, b)
    ensures DigitsEnd(text, a) == b
    decreases b - a
  {
    if a < b {
      DigitsOver(text, a + 1, b);
    }
  }

  /** `DigitsEnd` passes digits only, and stops where there is none. */
  lemma {:induction false} DigitsSpan(text: string, a: nat)
    requires a <= |text|
    ensures forall k :: a <= k < DigitsEnd(text, a) ==> IsDigit(text[k])
    ensures !DigitAt(text, DigitsEnd(text, a))
    decreases |text| - a
  {
    if DigitAt(text, a) {
      DigitsSpan(text, a + 1);
    }
  }

  /** Digits standing in the text from `a` to `b`, and no digit at `b`: `DigitsEnd` passes exactly them. */
  lemma DigitRun(text: string, a: nat, b: nat, digits: string)
    requires a <= b <= |text| && text[a..b] == digits && AllDigits(digits)
    requires !DigitAt(text, b)
    ensures DigitsEnd(text, a) == b
  {
    assert forall k :: a <= k < b ==> text[k] == digits[k - a];
    DigitsOver(text, a, b);
  }

  /** The run of digits `DigitsEnd` passes, as a string of digits. */
  lemma DigitsTaken(text: string, a: nat)
    requires a <= |text|
    ensures AllDigits(text[a..DigitsEnd(text, a)]) && !DigitAt(text, DigitsEnd(text, a))
  {
    DigitsSpan(text, a);
    var b := DigitsEnd(text, a);
    assert forall k :: 0 <= k < b - a ==> text[a..b][k] == text[a + k];
  }

  /** The exponent part from `at` to `next`, as the decoder's `ExponentAt` reads it. */
  lemma ExponentComplete(text: string, at: nat, x: Option<Exponent>, next: nat)
    requires at <= next <= |text|
    requires x.Some? ==> ExponentForm(x.value)
    requires text[at..next] == RenderExponent(x)
    requires !DigitAt(text, next)
    requires x.None? ==> Peek(text, at) != Some('e') && Peek(text, at) != Some('E')
    ensures ExponentAt(text, at) == Ok(next)
  {
    if x.Some? {
      var e := x.value;
      SplitSlice(text, at, next, [e.mark] + e.sign, e.digits);
      SplitSlice(text, at, at + 1 + |e.sign|, [e.mark], e.sign);
      assert text[at] == e.mark;
      var d := at + 1 + |e.sign|;
      DigitRun(text, d, next, e.digits);
      assert text[d] == e.digits[0];
      if e.sign != "" {
        assert text[at + 1] == e.sign[0];
      }
    } else {
      assert next == at;
    }
  }

  /** The fraction part from `at` to `next`, as the decoder's `FractionAt` reads it. */
  lemma FractionComplete(text: string, at: nat, f: Option<string>, next: nat)
    requires at <= next <= |text|
    requires f.Some? ==> |f.value| > 0 && AllDigits(f.value)
    requires text[at..next] == RenderFraction(f)
    requires !DigitAt(text, next)
    requires f.None? ==> Peek(text, at) != Some('.')
    ensures FractionAt(text, at) == Ok(next)
  {
    if f.Some? {
      SplitSlice(text, at, next, ".", f.value);
      assert text[at] == '.';
      DigitRun(text, at + 1, next, f.value);
      assert text[at + 1] == f.value[0];
    } else {
      assert next == at;
    }
  }

  /** The sign and integer part from `cur` to `f`, as the decoder's first steps read them. */
  lemma IntegerComplete(text: string, cur: nat, n: NumberLex, f: nat)
    requires WellFormed(n)
    requires cur <= f <= |text| && text[cur..f] == Sign(n) + n.integer
    requires !DigitAt(text, f)
    ensures cur < |text| && (text[cur] == '-' || IsDigit(text[cur]))
    ensures var i := IntegerStart(text, cur + 1, text[cur]);
            i.Ok? && DigitsEnd(text, i.value) == f
  {
    var i := cur + |Sign(n)|;
    SplitSlice(text, cur, f, Sign(n), n.integer);
    DigitRun(text, i, f, n.integer);
    assert text[i] == n.integer[0];
    if n.negative {
      assert text[cur] == '-';
    }
  }

  /** The text of a number splits where its fraction and its exponent start. */
  lemma NumberParts(text: string, cur: nat, n: NumberLex) returns (f: nat, e: nat)
    requires cur + |Render(n)| <= |text| && text[cur..cur + |Render(n)|] == Render(n)
    ensures cur <= f <= e <= cur + |Render(n)|
    ensures text[cur..f] == Sign(n) + n.integer
    ensures text[f..e] == RenderFraction(n.fraction)
    ensures text[e..cur + |Render(n)|] == RenderExponent(n.exponent)
  {
    var head, frac, exp := Sign(n) + n.integer, RenderFraction(n.fraction), RenderExponent(n.exponent);
    assert Render(n) == head + (frac + exp);
    SplitThree(text, cur, head, frac, exp);
    f := cur + |head|;
    e := f + |frac|;
  }

  /** A slice that is `u + (v + w)` splits into a slice for each of the three. */
  lemma SplitThree(text: string, cur: nat, u: string, v: string, w: string)
    requires cur + |u + (v + w)| <= |text| && text[cur..cur + |u + (v + w)|] == u + (v + w)
    ensures text[cur..cur + |u|] == u && text[cur + |u|..cur + |u| + |v|] == v
    ensures text[cur + |u| + |v|..cur + |u + (v + w)|] == w
  {
    var end := cur + |u + (v + w)|;
    SplitSlice(text, cur, end, u, v + w);
    SplitSlice(text, cur + |u|, end, v, w);
  }

  /**
   * Where the fraction and the exponent of a number start, the decoder
   * sees no further digit, and no `.` or exponent mark where the number
   * has none.
   */
  lemma NumberBoundaries(text: string, n: NumberLex, f: nat, e: nat, end: nat)
    requires WellFormed(n)
    requires f <= e <= end <= |text|
    requires text[f..e] == RenderFraction(n.fraction) && text[e..end] == RenderExponent(n.exponent)
    requires Ends(n, Peek(text, end))
    ensures !DigitAt(text, f) && (n.fraction.None? ==> Peek(text, f) != Some('.'))
    ensures !DigitAt(text, e) && (n.exponent.None? ==> Peek(text, e) != Some('e') && Peek(text, e) != Some('E'))
  {
    if e < end {
      assert text[e] == RenderExponent(n.exponent)[0] == n.exponent.value.mark;
    }
    if f < e {
      assert text[f] == RenderFraction(n.fraction)[0] == '.';
    } else if f < end {
      assert text[f] == RenderExponent(n.exponent)[0] == n.exponent.value.mark;
    }
  }

  /**
   * Every number of the grammar is decoded as its own text, when the
   * character after it does not continue it.
   */
  lemma NumberComplete(text: string, cur: nat, n: NumberLex)
    requires WellFormed(n)
    requires cur + |Render(n)| <= |text| && text[cur..cur + |Render(n)|] == Render(n)
    requires Ends(n, Peek(text, cur + |Render(n)|))
    ensures NumberAt(text, cur) == Ok((Render(n), cur + |Render(n)|))
  {
    var f, e := NumberParts(text, cur, n);
    NumberBoundaries(text, n, f, e, cur + |Render(n)|);
    IntegerComplete(text, cur, n, f);
    FractionComplete(text, f, n.fraction, e);
    ExponentComplete(text, e, n.exponent, cur + |Render(n)|);
  }

  /**
   * The digits of an accepted integer part: they start at `i`, right after
   * the sign if there is one, run to where the decoder stops, and have no
   * superfluous leading zero.
   */
  lemma IntegerExtent(text: string, cur: nat) returns (i: nat)
    requires cur < |text| && (text[cur] == '-' || IsDigit(text[cur]))
    requires IntegerStart(text, cur + 1, text[cur]).Ok?
    ensures i == if text[cur] == '-' then cur + 1 else cur
    ensures var f := DigitsEnd(text, IntegerStart(text, cur + 1, text[cur]).value);
            && i < f && AllDigits(text[i..f]) && !DigitAt(text, f)
            && (f > i + 1 ==> text[i] != '0')
  {
    var c := text[cur];
    var s := IntegerStart(text, cur + 1, c).value;
    i := if c == '-' then cur + 1 else cur;
    assert DigitAt(text, i);
    assert DigitsEnd(text, i) == DigitsEnd(text, i + 1);
    if text[i] == '0' {
      assert s == i + 1 && !DigitAt(text, s);
    } else if c == '-' {
      assert s == i;
    } else {
      assert s == i + 1;
    }
    DigitsTaken(text, i);
  }

  /** The sign and integer part the decoder accepts at `cur`, ending at `f`. */
  lemma IntegerSound(text: string, cur: nat) returns (negative: bool, integer: string, f: nat)
    requires cur < |text| && (text[cur] == '-' || IsDigit(text[cur]))
    requires IntegerStart(text, cur + 1, text[cur]).Ok?
    ensures f == DigitsEnd(text, IntegerStart(text, cur + 1, text[cur]).value)
    ensures var n := NumberLex(negative, integer, None, None);
            WellFormed(n) && text[cur..f] == Sign(n) + integer && !DigitAt(text, f)
  {
    f := DigitsEnd(text, IntegerStart(text, cur + 1, text[cur]).value);
    var i := IntegerExtent(text, cur);
    negative := text[cur] == '-';
    integer := text[i..f];
    if negative {
      assert text[cur..f] == "-" + integer;
    }
    assert integer[0] == text[i];
  }

  /** The fraction the decoder accepts at `f`, ending at `g`. */
  lemma FractionSound(text: string, f: nat) returns (fraction: Option<string>, g: nat)
    requires f <= |text| && FractionAt(text, f).Ok?
    ensures g == FractionAt(text, f).value
    ensures (fraction.Some? ==> |fraction.value| > 0 && AllDigits(fraction.value))
    ensures text[f..g] == RenderFraction(fraction) && !DigitAt(text, g)
    ensures fraction.None? <==> Peek(text, f) != Some('.')
    requires !DigitAt(text, f)
  {
    g := FractionAt(text, f).value;
    if Peek(text, f) == Some('.') {
      DigitsTaken(text, f + 2);
      assert DigitsEnd(text, f + 1) == g;
      DigitsTaken(text, f + 1);
      fraction := Some(text[f + 1..g]);
      assert text[f..g] == "." + text[f + 1..g];
    } else {
      fraction := None;
    }
  }

  /** The exponent the decoder accepts at `g`, ending at `h`. */
  lemma ExponentSound(text: string, g: nat) returns (exponent: Option<Exponent>, h: nat)
    requires g <= |text| && ExponentAt(text, g).Ok?
    requires !DigitAt(text, g)
    ensures h == ExponentAt(text, g).value
    ensures (exponent.Some? ==> ExponentForm(exponent.value))
    ensures text[g..h] == RenderExponent(exponent) && !DigitAt(text, h)
    ensures exponent.None? <==> Peek(text, g) != Some('e') && Peek(text, g) != Some('E')
  {
    h := ExponentAt(text, g).value;
    if Peek(text, g) == Some('e') || Peek(text, g) == Some('E') {
      var sign := if IsDigit(text[g + 1]) then "" else [text[g + 1]];
      var d := g + 1 + |sign|;
      DigitsTaken(text, d + 1);
      assert DigitsEnd(text, d) == h;
      DigitsTaken(text, d);
      exponent := Some(Exponent(text[g], sign, text[d..h]));
      assert text[g..h] == [text[g]] + sign + text[d..h];
    } else {
      exponent := None;
    }
  }

  /**
   * Every number the decoder accepts is a number of the grammar, its
   * lexeme is that number's text, and the character after it does not
   * continue it.
   */
  lemma NumberSound(text: string, cur: nat) returns (n: NumberLex)
    requires cur <= |text| && NumberAt(text, cur).Ok?
    ensures WellFormed(n) && Render(n) == NumberAt(text, cur).value.0
    ensures Ends(n, Peek(text, NumberAt(text, cur).value.1))
  {
    var negative, integer, f := IntegerSound(text, cur);
    var fraction, g := FractionSound(text, f);
    var exponent, h := ExponentSound(text, g);
    n := NumberLex(negative, integer, fraction, exponent);
    assert NumberAt(text, cur).value.1 == h;
    Joined(text, cur, f, g);
    Joined(text, cur, g, h);
  }

  /* ---------------------------------------------------------------- */
  /* Strings                                                           */
  /* ---------------------------------------------------------------- */

  /**
   * A character a JSON string can carry: any but the control characters
   * that have no one-letter escape (those need `\u`).
   */
  predicate Quotable(c: char)
  {
    !IsControl(c) || c as int == 8 || c as int == 12 || c == '\n' || c == '\r' || c == '\t'
  }

  /** Every character of `s` is quotable. */
  predicate AllQuotable(s: string)
  {
    s == [] || (Quotable(s[0]) && AllQuotable(s[1..]))
  }

  /**
   * The letter of the one-letter escape for `c`, per section 7 of RFC 8259,
   * if it has one.
   */
  function EscapeLetter(c: char): Option<char>
  {
    if c == '"' || c == '\\' then Some(c)
    else if c as int == 8 then Some('b')
    else if c as int == 12 then Some('f')
    else if c == '\n' then Some('n')
    else if c == '\r' then Some('r')
    else if c == '\t' then Some('t')
    else None
  }

  /** The escaped form of one character: a backslash and its letter, or the character itself. */
  function EscapeChar(c: char): string
  {
    match EscapeLetter(c)
    case Some(e) => ['\\', e]
    case None => [c]
  }

  /** The escaped form of a string, without its quotes. */
  function Escape(s: string): string
  {
    if s == [] then [] else EscapeChar(s[0]) + Escape(s[1..])
  }

  /** A one-letter escape stands for the character it was written for. */
  lemma UnescapeInverts(c: char)
    requires Quotable(c) && |EscapeChar(c)| == 2
    ensures EscapeChar(c)[0] == '\\' && Unescape(EscapeChar(c)[1]) == Some(c)
  {
  }

  /** A slice that is the concatenation `u + v` splits into a slice for `u` and one for `v`. */
  lemma SplitSlice(text: string, a: nat, b: nat, u: string, v: string)
    requires a <= b <= |text| && text[a..b] == u + v
    ensures a + |u| <= b && text[a..a + |u|] == u && text[a + |u|..b] == v
  {
    assert text[a..a + |u|] == text[a..b][..|u|];
    assert text[a + |u|..b] == text[a..b][|u|..];
  }

  /** `text` holds `w` at `a`, character by character. */
  predicate At(text: string, a: nat, w: string)
  {
    a + |w| <= |text| && forall k :: 0 <= k < |w| ==> text[a + k] == w[k]
  }

  /** A slice equal to `w` holds `w` character by character. */
  lemma SliceAt(text: string, a: nat, w: string)
    requires a + |w| <= |text| && text[a..a + |w|] == w
    ensures At(text, a, w)
  {
    forall k | 0 <= k < |w|
      ensures text[a + k] == w[k]
    {
      assert text[a..a + |w|][k] == text[a + k];
    }
  }

  /** Where `text` holds `u + v`, it holds `v` right after `u`. */
  lemma AtSuffix(text: string, a: nat, u: string, v: string)
    requires At(text, a, u + v)
    ensures At(text, a + |u|, v)
  {
    forall k | 0 <= k < |v|
      ensures text[a + |u| + k] == v[k]
    {
      assert text[a + (|u| + k)] == (u + v)[|u| + k];
    }
  }

  /** `text` holds the escaped form of `c` at `cur`, and something follows it. */
  predicate CharAt(text: string, cur: nat, c: char)
  {
    match EscapeLetter(c)
    case Some(e) => cur + 2 < |text| && text[cur] == '\\' && text[cur + 1] == e
    case None => cur + 1 < |text| && text[cur] == c
  }

  /**
   * `text` holds the escaped form of `s` at `cur`, followed by the closing
   * quote, one escaped character after another.
   */
  predicate EscapedAt(text: string, cur: nat, s: string)
    decreases |s|
  {
    if s == [] then cur < |text| && text[cur] == '"'
    else CharAt(text, cur, s[0]) && EscapedAt(text, cur + |EscapeChar(s[0])|, s[1..])
  }

  /** An escaped text followed by the quote is escaped character by character. */
  lemma {:induction false} EscapedFrom(text: string, cur: nat, s: string)
    requires At(text, cur, Escape(s) + "\"")
    ensures EscapedAt(text, cur, s)
    decreases |s|
  {
    var w := Escape(s) + "\"";
    assert text[cur + 0] == w[0];
    if s != [] {
      var x, r := EscapeChar(s[0]), Escape(s[1..]) + "\"";
      assert w == x + r;
      assert text[cur + 1] == w[1];
      AtSuffix(text, cur, x, r);
      EscapedFrom(text, cur + |x|, s[1..]);
    }
  }

  /**
   * One quotable character `c`: the string loop passes its escaped form,
   * appends `c` itself, and goes on after it.
   */
  lemma StringStep(text: string, cur: nat, c: char, out: string, convert: Convert)
    requires Quotable(c) && CharAt(text, cur, c)
    ensures cur + |EscapeChar(c)| < |text|
    ensures StringLoop(text, cur, Some(text[cur]), out, convert)
              == StringLoop(text, cur + |EscapeChar(c)|, Some(text[cur + |EscapeChar(c)|]), out + [c], convert)
  {
    if EscapeLetter(c).Some? {
      UnescapeInverts(c);
      assert EscapeAt(text, cur, convert) == Ok(([c], cur + 2, Peek(text, cur + 2)));
    }
  }

  /** At the closing quote the string loop stops and passes the quote. */
  lemma StringClose(text: string, cur: nat, out: string, convert: Convert)
    requires cur < |text| && text[cur] == '"'
    ensures StringLoop(text, cur, Some(text[cur]), out, convert) == Ok((out, cur + 1))
  {
  }

  /** The empty escaped text: the loop stops at the closing quote with `out` as it was. */
  lemma StringEmpty(text: string, cur: nat, s: string, out: string, end: nat, convert: Convert)
    requires s == [] && cur < |text| && EscapedAt(text, cur, s) && end == cur + |Escape(s)|
    ensures StringLoop(text, cur, Some(text[cur]), out, convert) == Ok((out + s, end + 1))
  {
    assert out + s == out;
    StringClose(text, cur, out, convert);
  }

  /**
   * A non-empty quotable string escaped at `cur`: its first character is
   * quotable and escaped at `cur`, and the rest is quotable and escaped
   * right after it.
   */
  lemma EscapedFirst(text: string, cur: nat, s: string)
    requires s != [] && AllQuotable(s) && EscapedAt(text, cur, s)
    ensures Quotable(s[0]) && CharAt(text, cur, s[0])
    ensures AllQuotable(s[1..]) && EscapedAt(text, cur + |EscapeChar(s[0])|, s[1..])
    ensures |Escape(s)| == |EscapeChar(s[0])| + |Escape(s[1..])|
    ensures forall out: string {:trigger out + s} :: (out + [s[0]]) + s[1..] == out + s
  {
    assert Escape(s) == EscapeChar(s[0]) + Escape(s[1..]);
    forall out: string
      ensures (out + [s[0]]) + s[1..] == out + s
    {
      assert [s[0]] + s[1..] == s;
    }
  }

  /**
   * From the start of an escaped text followed by the closing quote, which
   * is at `end`, the string loop decodes exactly the original characters
   * and leaves the cursor after the quote.
   */
  lemma {:induction false} StringLoopEscaped(text: string, cur: nat, s: string, out: string, end: nat, convert: Convert)
    requires AllQuotable(s) && cur < |text| && EscapedAt(text, cur, s) && end == cur + |Escape(s)|
    ensures StringLoop(text, cur, Some(text[cur]), out, convert) == Ok((out + s, end + 1))
    decreases |s|
  {
    if s == [] {
      StringEmpty(text, cur, s, out, end, convert);
    } else {
      EscapedFirst(text, cur, s);
      StringStep(text, cur, s[0], out, convert);
      StringLoopEscaped(text, cur + |EscapeChar(s[0])|, s[1..], out + [s[0]], end, convert);
    }
  }

  /** A string literal opens with its quote and runs the string loop from the character after it. */
  lemma StringOpen(text: string, cur: nat, convert: Convert)
    requires cur + 1 < |text| && text[cur] == '"'
    ensures StringAt(text, cur, convert) == StringLoop(text, cur + 1, Some(text[cur + 1]), [], convert)
  {
  }

  /** A quoted text opens with its quote, and the text and the closing quote follow it. */
  lemma OpenQuote(text: string, cur: nat, e: string)
    requires cur + |e| + 2 <= |text|
    requires text[cur..cur + |e| + 2] == "\"" + e + "\""
    ensures text[cur] == '"' && At(text, cur + 1, e + "\"")
  {
    var w := e + "\"";
    assert "\"" + e + "\"" == "\"" + w;
    SliceAt(text, cur, "\"" + w);
    assert text[cur + 0] == ("\"" + w)[0];
    AtSuffix(text, cur, "\"", w);
  }

  /** A quoted escaped text opens with its quote, and the text is escaped after it. */
  lemma QuotedEscaped(text: string, cur: nat, s: string)
    requires cur + |Escape(s)| + 2 <= |text|
    requires text[cur..cur + |Escape(s)| + 2] == "\"" + Escape(s) + "\""
    ensures cur + 1 < |text| && text[cur] == '"' && EscapedAt(text, cur + 1, s)
  {
    OpenQuote(text, cur, Escape(s));
    EscapedFrom(text, cur + 1, s);
  }

  /** A string literal whose characters are escaped after its opening quote decodes to them. */
  lemma StringLiteral(text: string, cur: nat, s: string, convert: Convert)
    requires AllQuotable(s)
    requires cur + 1 < |text| && text[cur] == '"' && EscapedAt(text, cur + 1, s)
    ensures StringAt(text, cur, convert) == Ok((s, cur + |Escape(s)| + 2))
  {
    StringOpen(text, cur, convert);
    StringLoopEscaped(text, cur + 1, s, [], cur + 1 + |Escape(s)|, convert);
    assert [] + s == s;
  }

  /** A quoted escaped string decodes to the original characters (escapes other than `\u`). */
  lemma StringRoundTrip(text: string, cur: nat, s: string, convert: Convert)
    requires AllQuotable(s)
    requires cur + |Escape(s)| + 2 <= |text|
    requires text[cur..cur + |Escape(s)| + 2] == "\"" + Escape(s) + "\""
    ensures StringAt(text, cur, convert) == Ok((s, cur + |Escape(s)| + 2))
  {
    QuotedEscaped(text, cur, s);
    StringLiteral(text, cur, s, convert);
  }

  /** A character the string loop takes as it is: neither quote, backslash nor control character. */
  predicate Plain(c: char)
  {
    c != '"' && c != '\\' && !IsControl(c)
  }

  /**
   * A control character met before the string closes is rejected, whatever
   * follows it.
   */
  lemma {:induction false} ControlRejected(text: string, cur: nat, k: nat, out: string, convert: Convert)
    requires cur <= k < |text|
    requires forall j :: cur <= j < k ==> Plain(text[j])
    requires IsControl(text[k])
    ensures StringLoop(text, cur, Some(text[cur]), out, convert) == Err(ControlNotEscaped)
    decreases k - cur
  {
    if cur < k {
      ControlRejected(text, cur + 1, k, out + [text[cur]], convert);
    }
  }

  /** A backslash followed by anything but `" \ / b f n r t u` is an unexpected token at that character. */
  lemma UnknownEscapeRejected(text: string, cur: nat, convert: Convert)
    requires cur + 1 < |text| && text[cur] == '\\'
    requires text[cur + 1] !in "\"\\/bfnrtu"
    ensures EscapeAt(text, cur, convert) == Err(UnexpectedToken(text[cur + 1]))
  {
  }

  /**
   * A `\u` escape is decoded from four hex digits, but the loop then tests
   * the last of the digits again instead of the character after them.
   */
  lemma UnicodeEscapeKeepsDigit(text: string, cur: nat, convert: Convert)
    requires cur + 6 <= |text| && text[cur..cur + 2] == "\\u"
    requires forall k :: cur + 2 <= k < cur + 6 ==> IsHex(text[k])
    requires convert(CodeUnit(text[cur + 2..cur + 6])).Some?
    ensures EscapeAt(text, cur, convert)
              == Ok((convert(CodeUnit(text[cur + 2..cur + 6])).value, cur + 6, Some(text[cur + 5])))
  {
    assert text[cur] == '\\' && text[cur + 1] == 'u';
    var digits := text[cur + 2..cur + 6];
    var d0, d1, d2, d3 := text[cur + 2], text[cur + 3], text[cur + 4], text[cur + 5];
    assert [d0, d1, d2, d3] == digits;
    assert IsHex(d0) && IsHex(d1) && IsHex(d2) && IsHex(d3);
    assert [d0, d1, d2] + [d3] == digits && [d0, d1] + [d2] == [d0, d1, d2] && [d0] + [d1] == [d0, d1] && [] + [d0] == [d0];
    assert HexFrom(text, cur + 6, 4, [d0, d1, d2, d3]) == Ok((digits, cur + 6));
    assert HexFrom(text, cur + 5, 3, [d0, d1, d2]) == Ok((digits, cur + 6));
    assert HexFrom(text, cur + 4, 2, [d0, d1]) == Ok((digits, cur + 6));
    assert HexFrom(text, cur + 3, 1, [d0]) == Ok((digits, cur + 6));
    assert HexFrom(text, cur + 2, 0, []) == Ok((digits, cur + 6));
  }

  /* ---------------------------------------------------------------- */
  /* Objects and arrays                                                */
  /* ---------------------------------------------------------------- */

  /** A comma may not be followed by the bracket that closes the object or array. */
  lemma TrailingCommaRejected(text: string, cur: nat, close: char, g: nat)
    requires cur <= |text|
    requires var e := SkipSpace(text, cur); e < |text| && text[e] == ','
    requires g == SkipSpace(text, SkipSpace(text, cur) + 1)
    requires g < |text| && text[g] == close
    ensures Json.AfterItem(text, cur, close) == Err(UnexpectedToken(close))
  {
  }

  /**
   * A member must start with a string key followed, after white space, by
   * `:`. Anything else where the key should be is an unexpected token there;
   * a key that does not decode fails with the key's own error; and after the
   * key, anything but `:` is an unexpected token, or the unexpected end.
   */
  lemma MemberRejected(text: string, cur: nat, acc: map<string, Value>, convert: Convert)
    requires cur < |text|
    ensures var a := SkipSpace(text, cur);
      a < |text| && text[a] != '}' && text[a] != '"' ==>
        MembersLoop(text, cur, acc, convert) == Err(UnexpectedToken(text[a]))
    ensures var a := SkipSpace(text, cur);
      a < |text| && text[a] == '"' && StringAt(text, a, convert).Err? ==>
        MembersLoop(text, cur, acc, convert) == Err(StringAt(text, a, convert).error)
    ensures var a := SkipSpace(text, cur);
      a < |text| && text[a] == '"' && StringAt(text, a, convert).Ok? ==>
        var b := SkipSpace(text, StringAt(text, a, convert).value.1);
        && (b == |text| ==> MembersLoop(text, cur, acc, convert) == Err(UnexpectedEnd))
        && (b < |text| && text[b] != ':' ==> MembersLoop(text, cur, acc, convert) == Err(UnexpectedToken(text[b])))
  {
  }

  /** Storing one member and then the rest is overriding with both at once. */
  lemma UpdateThenOverride(acc: map<string, Value>, k: string, v: Value, rest: map<string, Value>)
    ensures acc[k := v] + rest == acc + (map[k := v] + rest)
  {
  }

  /**
   * The member loop with members `acc` already decoded succeeds exactly
   * when it succeeds from an empty object, at the same position, and then
   * holds `acc` overridden by the members it decoded: a key decoded later
   * keeps its last value, whatever came before.
   */
  lemma {:induction false} MembersLoopOverrides(text: string, cur: nat, acc: map<string, Value>, convert: Convert)
    requires cur <= |text|
    ensures var r := MembersLoop(text, cur, acc, convert);
      var r0 := MembersLoop(text, cur, map[], convert);
      && (r.Ok? <==> r0.Ok?)
      && (r.Err? ==> r == r0)
      && (r.Ok? ==> r.value.1 == r0.value.1 && r.value.0 == acc + r0.value.0)
    decreases |text| - cur
  {
    if cur < |text| {
      var a := Filter(text, cur, true);
      if a.Ok? && text[a.value] == '"' {
        var m := MemberAt(text, a.value, convert);
        if m.Ok? {
          var after := AfterItem(text, m.value.2, '}');
          var k, v := m.value.0, m.value.1;
          if after.Ok? {
            if after.value.0 {
              MembersLoopOverrides(text, after.value.1, acc[k := v], convert);
              MembersLoopOverrides(text, after.value.1, map[k := v], convert);
              var rest := MembersLoop(text, after.value.1, map[], convert);
              if rest.Ok? {
                UpdateThenOverride(acc, k, v, rest.value.0);
              }
            } else {
              UpdateThenOverride(acc, k, v, map[]);
            }
          }
        }
      } else if a.Ok? && text[a.value] == '}' {
        assert acc + map[] == acc;
      }
    }
  }

  /** Appending one element and then the rest is appending both at once. */
  lemma AppendThenRest(acc: seq<Value>, v: Value, rest: seq<Value>)
    ensures (acc + [v]) + rest == acc + (([] + [v]) + rest)
  {
  }

  /**
   * The element loop with elements `acc` already decoded succeeds exactly
   * when it succeeds from an empty array, at the same position, and then
   * holds `acc` followed by the elements it decoded, in order.
   */
  lemma {:induction false} ElementsLoopAppends(text: string, cur: nat, acc: seq<Value>, convert: Convert)
    requires cur <= |text|
    ensures var r := ElementsLoop(text, cur, acc, convert);
      var r0 := ElementsLoop(text, cur, [], convert);
      && (r.Ok? <==> r0.Ok?)
      && (r.Err? ==> r == r0)
      && (r.Ok? ==> r.value.1 == r0.value.1 && r.value.0 == acc + r0.value.0)
    decreases |text| - cur
  {
    if cur < |text| {
      var a := Filter(text, cur, true);
      if a.Ok? && text[a.value] != ']' {
        var item := ValueAt(text, a.value, convert);
        if item.Ok? {
          var after := AfterItem(text, item.value.1, ']');
          var v := item.value.0;
          if after.Ok? {
            if after.value.0 {
              ElementsLoopAppends(text, after.value.1, acc + [v], convert);
              ElementsLoopAppends(text, after.value.1, [] + [v], convert);
              var rest := ElementsLoop(text, after.value.1, [], convert);
              if rest.Ok? {
                AppendThenRest(acc, v, rest.value.0);
              }
            } else {
              AppendThenRest(acc, v, []);
            }
          }
        }
      } else if a.Ok? {
        assert acc + [] == acc;
      }
    }
  }
}
