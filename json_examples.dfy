/**
 * Whole documents run through `Json.Decode`: the rejections and the
 * repeated-key rule of `decode(json::object&)` and `decode(json::array&)`,
 * and what the `\u` escape does as written.
 */
module JsonExamples {
  import opened Wrappers
  import opened Json
  import opened JsonProps

  /** An object whose key `a` appears twice. */
  const Repeated: string := "{\"a\":1,\"a\":2}"

  /** A member `"a":d` followed by a character that ends the number. */
  lemma MemberOf(text: string, at: nat, digit: char, convert: Convert)
    requires at + 5 < |text| && text[at] == '"' && text[at + 1] == 'a' && text[at + 2] == '"'
    requires text[at + 3] == ':' && text[at + 4] == digit && IsDigit(digit)
    requires !IsDigit(text[at + 5]) && text[at + 5] != '.' && text[at + 5] != 'e' && text[at + 5] != 'E'
    ensures MemberAt(text, at, convert) == Ok(("a", Number([digit]), at + 5))
  {
    assert Escape("a") == "a" && AllQuotable("a");
    StringLiteral(text, at, "a", convert);
    var n := NumberLex(false, [digit], None, None);
    assert Render(n) == [digit] && text[at + 4..at + 5] == [digit];
    NumberComplete(text, at + 4, n);
    assert Filter(text, at + 3, true) == Ok(at + 3) && Filter(text, at + 4, true) == Ok(at + 4);
  }

  /** Filtering stops at once at a character that is not white space. */
  lemma FilterAt(text: string, cur: nat)
    requires cur < |text| && !IsSpace(text[cur])
    ensures Filter(text, cur, true) == Ok(cur)
  {
  }

  /** A comma and then a character that is neither white space nor `close`: another item follows there. */
  lemma AfterComma(text: string, p: nat, close: char)
    requires p + 1 < |text| && text[p] == ',' && !IsSpace(text[p + 1]) && text[p + 1] != close
    ensures AfterItem(text, p, close) == Ok((true, p + 1))
  {
    FilterAt(text, p);
    FilterAt(text, p + 1);
  }

  /** The closing bracket itself: the items end there. */
  lemma AfterClose(text: string, p: nat, close: char)
    requires p < |text| && text[p] == close && !IsSpace(close) && close != ','
    ensures AfterItem(text, p, close) == Ok((false, p))
  {
    FilterAt(text, p);
  }

  /** A comma and then the closing bracket: the bracket is an unexpected token. */
  lemma AfterTrailing(text: string, p: nat, close: char)
    requires p + 1 < |text| && text[p] == ',' && text[p + 1] == close && !IsSpace(close)
    ensures AfterItem(text, p, close) == Err(UnexpectedToken(close))
  {
    FilterAt(text, p);
    FilterAt(text, p + 1);
  }

  /** A member followed by a comma and the next key: the loop goes on at that key with the member added. */
  lemma MemberThenMore(text: string, cur: nat, acc: map<string, Value>, convert: Convert, key: string, v: Value, p: nat)
    requires cur < |text| && text[cur] == '"' && MemberAt(text, cur, convert) == Ok((key, v, p))
    requires p + 1 < |text| && AfterItem(text, p, '}') == Ok((true, p + 1))
    ensures MembersLoop(text, cur, acc, convert) == MembersLoop(text, p + 1, acc[key := v], convert)
  {
    FilterAt(text, cur);
  }

  /** A member followed by the closing brace: the loop ends after the brace with the member added. */
  lemma MemberThenClose(text: string, cur: nat, acc: map<string, Value>, convert: Convert, key: string, v: Value, p: nat)
    requires cur < |text| && text[cur] == '"' && MemberAt(text, cur, convert) == Ok((key, v, p))
    requires p < |text| && text[p] == '}'
    ensures MembersLoop(text, cur, acc, convert) == Ok((acc[key := v], p + 1))
  {
    FilterAt(text, cur);
    AfterClose(text, p, '}');
  }

  /** A member followed by a comma and then the closing brace: the brace is an unexpected token. */
  lemma MemberThenTrailing(text: string, cur: nat, acc: map<string, Value>, convert: Convert, key: string, v: Value, p: nat)
    requires cur < |text| && text[cur] == '"' && MemberAt(text, cur, convert) == Ok((key, v, p))
    requires p + 1 < |text| && text[p] == ',' && text[p + 1] == '}'
    ensures MembersLoop(text, cur, acc, convert) == Err(UnexpectedToken('}'))
  {
    FilterAt(text, cur);
    AfterTrailing(text, p, '}');
  }

  /** A document that is one object, its brace first: it decodes as the member loop after the brace does. */
  lemma ObjectDocument(text: string, convert: Convert, r: Result<(map<string, Value>, nat), SyntaxError>)
    requires 0 < |text| && text[0] == '{' && MembersLoop(text, 1, map[], convert) == r
    requires r.Ok? ==> r.value.1 == |text|
    ensures Json.Decode(text, convert) == if r.Ok? then Ok(Object(r.value.0)) else Err(r.error)
  {
    FilterAt(text, 0);
    assert ObjectAt(text, 0, convert) == r;
    if r.Ok? {
      assert ValueAt(text, 0, convert) == Ok((Object(r.value.0), |text|));
    } else {
      assert ValueAt(text, 0, convert) == Err(r.error);
    }
  }

  /** `text` is `Repeated`, told character by character. */
  predicate RepeatedText(text: string)
  {
    && |text| == 13 && text[0] == '{'
    && text[1] == '"' && text[2] == 'a' && text[3] == '"' && text[4] == ':' && text[5] == '1' && text[6] == ','
    && text[7] == '"' && text[8] == 'a' && text[9] == '"' && text[10] == ':' && text[11] == '2' && text[12] == '}'
  }

  /** The first member of `Repeated`: `a` is 1, and the loop goes on at the second key. */
  lemma FirstRound(text: string, convert: Convert)
    requires RepeatedText(text)
    ensures MembersLoop(text, 1, map[], convert) == MembersLoop(text, 7, map["a" := Number("1")], convert)
  {
    MemberOf(text, 1, '1', convert);
    AfterComma(text, 1 + 5, '}');
    MemberThenMore(text, 1, map[], convert, "a", Number(['1']), 1 + 5);
  }

  /** The second member of `Repeated`: the value of `a` is overwritten, and the brace closes. */
  lemma SecondRound(text: string, convert: Convert)
    requires RepeatedText(text)
    ensures MembersLoop(text, 7, map["a" := Number("1")], convert) == Ok((map["a" := Number("2")], 13))
  {
    MemberOf(text, 7, '2', convert);
    MemberThenClose(text, 7, map["a" := Number("1")], convert, "a", Number(['2']), 7 + 5);
    assert map["a" := Number("1")]["a" := Number("2")] == map["a" := Number("2")];
  }

  /** A repeated key keeps the value of its last occurrence. */
  lemma LastKeyWins(convert: Convert)
    ensures Json.Decode(Repeated, convert) == Ok(Object(map["a" := Number("2")]))
  {
    assert RepeatedText(Repeated);
    FirstRound(Repeated, convert);
    SecondRound(Repeated, convert);
    ObjectDocument(Repeated, convert, Ok((map["a" := Number("2")], 13)));
  }

  /** A comma directly before the closing brace is an unexpected token. */
  lemma TrailingCommaInObject(convert: Convert)
    ensures Json.Decode("{\"a\":1,}", convert) == Err(UnexpectedToken('}'))
  {
    var t := "{\"a\":1,}";
    MemberOf(t, 1, '1', convert);
    MemberThenTrailing(t, 1, map[], convert, "a", Number("1"), 6);
    ObjectDocument(t, convert, Err(UnexpectedToken('}')));
  }

  /** A comma directly before the closing bracket is an unexpected token. */
  lemma TrailingCommaInArray(convert: Convert)
    ensures Json.Decode("[1,]", convert) == Err(UnexpectedToken(']'))
  {
  }

  /**
   * As written, the string `"\u0041"` is not decoded: after the escape the
   * loop appends the last hex digit `1` and passes over the closing quote,
   * and then meets the end of input.
   */
  lemma UnicodeEscapeAsWritten(convert: Convert)
    requires convert(0x41) == Some("A")
    ensures Json.Decode("\"\\u0041\"", convert) == Err(UnexpectedEnd)
  {
  }
}
