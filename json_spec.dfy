/**
 * The decoder of `chen::json` (include/chen/data/json.hpp) as functions of
 * the text and a cursor position. Each function follows one `decode`
 * overload step by step and returns the decoded value together with the
 * position the cursor is left at, or the syntax error it throws.
 *
 * The text is a sequence of characters standing for the bytes of a
 * `std::string`. A number keeps its lexeme: the conversion to `double`
 * is not part of this model. The UTF-16 to UTF-8 conversion of a `\u`
 * escape is the parameter `convert`, `None` standing for its failure.
 */
module Json {
  import opened Wrappers

  /** A decoded JSON value; `Number` keeps the text of the number. */
  datatype Value =
    | Object(members: map<string, Value>)
    | Array(items: seq<Value>)
    | Number(lexeme: string)
    | String(text: string)
    | True
    | False
    | Null

  /** The `error_syntax` exceptions the decoder throws, by message. */
  datatype SyntaxError =
    | UnexpectedEnd                 // "unexpected end of input"
    | UnexpectedToken(token: char)  // "unexpected token '%c'"
    | ControlNotEscaped             // "control character is not escaped"
    | InvalidUnicode(digits: string) // "invalid unicode char \u%s"

  /** `chen::utf8::convert` of a UTF-16 code unit: its UTF-8 bytes, or `None` when it throws. */
  type Convert = nat -> Option<string>

  /** A decoded result without the cursor position. */
  function Drop<T>(r: Result<(T, nat), SyntaxError>): Result<T, SyntaxError>
  {
    if r.Ok? then Ok(r.value.0) else Err(r.error)
  }

  /** A cursor move without the new position. */
  function Done(r: Result<nat, SyntaxError>): Result<(), SyntaxError>
  {
    if r.Ok? then Ok(()) else Err(r.error)
  }

  /** The text from `a` to `b` followed by the text from `b` to `c` is the text from `a` to `c`. */
  lemma Joined(text: string, a: nat, b: nat, c: nat)
    requires a <= b <= c <= |text|
    ensures text[a..b] + text[b..c] == text[a..c]
  {
  }

  /** Text collected from `a` to `b` and then from `b` to `c` is the text from `a` to `c`. */
  lemma Collected(str: string, text: string, a: nat, b: nat, c: nat)
    requires a <= b <= c <= |text|
    ensures (str + text[a..b]) + text[b..c] == str + text[a..c]
  {
    assert text[a..b] + text[b..c] == text[a..c];
  }

  /** Two characters passed one after the other are the two characters of the text at `a`. */
  lemma PassedTwo(str: string, text: string, a: nat, x: char, y: char)
    requires a + 2 <= |text| && text[a] == x && text[a + 1] == y
    ensures (str + [x]) + [y] == str + text[a..a + 2]
  {
    assert text[a..a + 2] == [x, y];
  }

  /** `exception(cur, end)`: the error for the character at `cur`. */
  function Unexpected(text: string, cur: nat): SyntaxError
    requires cur <= |text|
  {
    if cur == |text| then UnexpectedEnd else UnexpectedToken(text[cur])
  }

  /** `advance(cur, end, false)`: the character at `cur`, `None` at the end (the `-1` of the source). */
  function Peek(text: string, cur: nat): Option<char>
    requires cur <= |text|
  {
    if cur == |text| then None else Some(text[cur])
  }

  /** `advance(cur, end, true)`: the character at `cur`; the end of input is an error. */
  function Need(text: string, cur: nat): (r: Result<char, SyntaxError>)
    requires cur <= |text|
    ensures r.Ok? ==> cur < |text| && r.value == text[cur]
  {
    if cur == |text| then Err(UnexpectedEnd) else Ok(text[cur])
  }

  /** `forward(cur, end)`: the cursor one character on; moving past the end is an error. */
  function Forward(text: string, cur: nat): (r: Result<nat, SyntaxError>)
    requires cur <= |text|
    ensures r.Ok? ==> r.value == cur + 1 <= |text|
  {
    if cur == |text| then Err(UnexpectedEnd) else Ok(cur + 1)
  }

  /** `std::isspace` in the C locale: space, tab, newline, vertical tab, form feed, carriage return. */
  predicate IsSpace(c: char)
  {
    c == ' ' || c == '\t' || c == '\n' || c as int == 11 || c as int == 12 || c == '\r'
  }

  /** `std::isdigit`. */
  predicate IsDigit(c: char)
  {
    '0' <= c <= '9'
  }

  predicate DigitAt(text: string, cur: nat)
    requires cur <= |text|
  {
    cur < |text| && IsDigit(text[cur])
  }

  /** A character a string may not hold unescaped (the source tests `0 <= ch <= 31`). */
  predicate IsControl(c: char)
  {
    c as int <= 31
  }

  predicate IsHex(c: char)
  {
    '0' <= c <= '9' || 'a' <= c <= 'f' || 'A' <= c <= 'F'
  }

  function HexValue(c: char): nat
  {
    if '0' <= c <= '9' then c as int - '0' as int
    else if 'a' <= c <= 'f' then c as int - 'a' as int + 10
    else if 'A' <= c <= 'F' then c as int - 'A' as int + 10
    else 0
  }

  /** `std::strtol(unicode, nullptr, 16)` of four hex digits. */
  function CodeUnit(digits: string): nat
    requires |digits| == 4
  {
    HexValue(digits[0]) * 4096 + HexValue(digits[1]) * 256 + HexValue(digits[2]) * 16 + HexValue(digits[3])
  }

  /** The first position at or after `cur` that is not white space. */
  function SkipSpace(text: string, cur: nat): (r: nat)
    requires cur <= |text|
    ensures cur <= r <= |text|
    decreases |text| - cur
  {
    if cur < |text| && IsSpace(text[cur]) then SkipSpace(text, cur + 1) else cur
  }

  /** `filter(cur, end, require)`: skips white space; with `require`, reaching the end is an error. */
  function Filter(text: string, cur: nat, require: bool): (r: Result<nat, SyntaxError>)
    requires cur <= |text|
    ensures r.Ok? ==> cur <= r.value <= |text| && (require ==> r.value < |text|)
  {
    var a := SkipSpace(text, cur);
    if require && a == |text| then Err(UnexpectedEnd) else Ok(a)
  }

  /** The end of the run of digits starting at `cur`. */
  function DigitsEnd(text: string, cur: nat): (r: nat)
    requires cur <= |text|
    ensures cur <= r <= |text|
    decreases |text| - cur
  {
    if DigitAt(text, cur) then DigitsEnd(text, cur + 1) else cur
  }

  /**
   * `decode(bool)` and `decode(nullptr)`: the characters of `word` one by
   * one, from its `i`-th on; a mismatch is an error at that character.
   */
  function WordFrom(text: string, cur: nat, word: string, i: nat): (r: Result<nat, SyntaxError>)
    requires cur <= |text| && i <= |word|
    ensures r.Ok? ==> r.value == cur + |word| - i <= |text|
    decreases |word| - i
  {
    if i == |word| then Ok(cur)
    else if cur == |text| || text[cur] != word[i] then Err(Unexpected(text, cur))
    else WordFrom(text, cur + 1, word, i + 1)
  }

  /** The optional fraction of a number at `cur`: a `.` and at least one digit. */
  function FractionAt(text: string, cur: nat): (r: Result<nat, SyntaxError>)
    requires cur <= |text|
    ensures r.Ok? ==> cur <= r.value <= |text|
  {
    if Peek(text, cur) != Some('.') then Ok(cur)
    else
      var d :- Need(text, cur + 1);
      if !IsDigit(d) then Err(Unexpected(text, cur + 1))
      else Ok(DigitsEnd(text, cur + 2))
  }

  /** The optional exponent of a number at `cur`: `e` or `E`, an optional sign, at least one digit. */
  function ExponentAt(text: string, cur: nat): (r: Result<nat, SyntaxError>)
    requires cur <= |text|
    ensures r.Ok? ==> cur <= r.value <= |text|
  {
    if Peek(text, cur) != Some('e') && Peek(text, cur) != Some('E') then Ok(cur)
    else
      var s :- Need(text, cur + 1);
      if s != '+' && s != '-' && !IsDigit(s) then Err(Unexpected(text, cur + 1))
      else ExponentDigitsAt(text, cur + 2, s)
  }

  /** The digits of an exponent once its sign or first digit `s` was passed: at least one in all. */
  function ExponentDigitsAt(text: string, cur: nat, s: char): (r: Result<nat, SyntaxError>)
    requires cur <= |text|
    ensures r.Ok? ==> cur <= r.value <= |text|
  {
    if IsDigit(s) then Ok(DigitsEnd(text, cur))
    else
      var d :- Need(text, cur);
      if !IsDigit(d) then Err(Unexpected(text, cur))
      else Ok(DigitsEnd(text, cur + 1))
  }

  /**
   * Where the integer digits of a number start once its first character
   * `c` was passed (the cursor at `cur`): after `-0` nothing more may
   * follow, and a leading `0` may not be followed by another digit.
   */
  function IntegerStart(text: string, cur: nat, c: char): (r: Result<nat, SyntaxError>)
    requires cur <= |text|
    ensures r.Ok? ==> cur <= r.value <= |text|
  {
    if c == '-' then
      var d :- Need(text, cur);
      if d == '0' then (if DigitAt(text, cur + 1) then Err(Unexpected(text, cur + 1)) else Ok(cur + 1))
      else if !IsDigit(d) then Err(Unexpected(text, cur))
      else Ok(cur)
    else if c == '0' && DigitAt(text, cur) then Err(Unexpected(text, cur))
    else Ok(cur)
  }

  /** `decode(double)`: the lexeme of the number at `cur`. */
  function NumberAt(text: string, cur: nat): (r: Result<(string, nat), SyntaxError>)
    requires cur <= |text|
    ensures r.Ok? ==> cur < r.value.1 <= |text| && r.value.0 == text[cur..r.value.1]
  {
    var c :- Need(text, cur);
    if c != '-' && !IsDigit(c) then Err(Unexpected(text, cur))
    else
      var i :- IntegerStart(text, cur + 1, c);
      var f :- FractionAt(text, DigitsEnd(text, i));
      var e :- ExponentAt(text, f);
      Ok((text[cur..e], e))
  }

  /** The character a one-letter escape stands for, for the escapes other than `\u`. */
  function Unescape(e: char): Option<char>
  {
    if e == '"' || e == '\\' || e == '/' then Some(e)
    else if e == 'b' then Some(8 as char)
    else if e == 'f' then Some(12 as char)
    else if e == 'n' then Some('\n')
    else if e == 'r' then Some('\r')
    else if e == 't' then Some('\t')
    else None
  }

  /**
   * The four-digit loop of a `\u` escape from its `i`-th digit on: each
   * character is read and passed before it is checked, so a bad digit is
   * reported at the character after it.
   */
  function HexFrom(text: string, cur: nat, i: nat, digits: string): (r: Result<(string, nat), SyntaxError>)
    requires cur <= |text| && i <= 4 && |digits| == i
    ensures r.Ok? ==> |r.value.0| == 4 && r.value.1 == cur + 4 - i <= |text|
    decreases 4 - i
  {
    if i == 4 then Ok((digits, cur))
    else
      var ch :- Need(text, cur);
      if IsHex(ch) then HexFrom(text, cur + 1, i + 1, digits + [ch])
      else Err(Unexpected(text, cur + 1))
  }

  /**
   * An escape sequence at the backslash `cur`: the text it stands for,
   * where the cursor is left, and the character the string loop tests
   * next. A one-letter escape leaves `ch` on the character after it; a `\u`
   * escape leaves `ch` holding its last hex digit.
   */
  function EscapeAt(text: string, cur: nat, convert: Convert): (r: Result<(string, nat, Option<char>), SyntaxError>)
    requires cur <= |text|
    ensures r.Ok? ==> cur < r.value.1 <= |text|
  {
    var p :- Forward(text, cur);
    var e :- Need(text, p);
    if Unescape(e).Some? then Ok(([Unescape(e).value], p + 1, Peek(text, p + 1)))
    else if e == 'u' then
      var h :- HexFrom(text, p + 1, 0, []);
      var bytes := convert(CodeUnit(h.0));
      if bytes.None? then Err(InvalidUnicode(h.0))
      else Ok((bytes.value, h.1, Some(h.0[3])))
    else Err(Unexpected(text, p))
  }

  /**
   * The `while (ch != '"')` loop of `decode(std::string)`, from a cursor
   * `cur`, the character `ch` the loop is about to test and the text `out`
   * decoded so far. After a `\u` escape `ch` still holds the last hex digit,
   * which the loop then appends, passing over the character at the cursor.
   */
  function StringLoop(text: string, cur: nat, ch: Option<char>, out: string, convert: Convert)
    : (r: Result<(string, nat), SyntaxError>)
    requires cur <= |text|
    ensures r.Ok? ==> cur < r.value.1 <= |text|
    decreases |text| - cur
  {
    if ch == Some('"') then
      var _ :- Need(text, cur);
      Ok((out, cur + 1))
    else if ch.None? then Err(UnexpectedEnd)
    else if IsControl(ch.value) then Err(ControlNotEscaped)
    else if ch.value == '\\' then
      var x :- EscapeAt(text, cur, convert);
      StringLoop(text, x.1, x.2, out + x.0, convert)
    else
      var p :- Forward(text, cur);
      var n :- Need(text, p);
      StringLoop(text, p, Some(n), out + [ch.value], convert)
  }

  /** `decode(std::string)`: a string literal at `cur`. */
  function StringAt(text: string, cur: nat, convert: Convert): (r: Result<(string, nat), SyntaxError>)
    requires cur <= |text|
    ensures r.Ok? ==> cur < r.value.1 <= |text|
  {
    var c :- Need(text, cur);
    if c != '"' then Err(Unexpected(text, cur))
    else
      var ch :- Need(text, cur + 1);
      StringLoop(text, cur + 1, Some(ch), [], convert)
  }

  /** `decode(json&)`: dispatches on the first character of the value at `cur`. */
  function ValueAt(text: string, cur: nat, convert: Convert): (r: Result<(Value, nat), SyntaxError>)
    requires cur <= |text|
    ensures r.Ok? ==> cur < r.value.1 <= |text|
    decreases |text| - cur, 2
  {
    var c :- Need(text, cur);
    if c == '{' then
      var o :- ObjectAt(text, cur, convert);
      Ok((Object(o.0), o.1))
    else if c == '[' then
      var a :- ArrayAt(text, cur, convert);
      Ok((Array(a.0), a.1))
    else if c == '"' then
      var s :- StringAt(text, cur, convert);
      Ok((String(s.0), s.1))
    else if c == 't' then
      var e :- WordFrom(text, cur, "true", 0);
      Ok((True, e))
    else if c == 'f' then
      var e :- WordFrom(text, cur, "false", 0);
      Ok((False, e))
    else if c == 'n' then
      var e :- WordFrom(text, cur, "null", 0);
      Ok((Null, e))
    else if IsDigit(c) || c == '-' then
      var n :- NumberAt(text, cur);
      Ok((Number(n.0), n.1))
    else Err(Unexpected(text, cur))
  }

  /** `decode(json::object&)`: a `{`, then the member loop. */
  function ObjectAt(text: string, cur: nat, convert: Convert): (r: Result<(map<string, Value>, nat), SyntaxError>)
    requires cur <= |text|
    ensures r.Ok? ==> cur < r.value.1 <= |text|
    decreases |text| - cur, 1
  {
    var c :- Need(text, cur);
    if c != '{' then Err(Unexpected(text, cur))
    else MembersLoop(text, cur + 1, map[], convert)
  }

  /**
   * One member of an object at the `"` of its key: the key, `:` and the
   * value, white space allowed around the `:`.
   */
  function MemberAt(text: string, cur: nat, convert: Convert): (r: Result<(string, Value, nat), SyntaxError>)
    requires cur <= |text|
    ensures r.Ok? ==> cur < r.value.2 <= |text|
    decreases |text| - cur, 0
  {
    var key :- StringAt(text, cur, convert);
    var b :- Filter(text, key.1, true);
    if text[b] != ':' then Err(Unexpected(text, b))
    else
      var d :- Filter(text, b + 1, true);
      var item :- ValueAt(text, d, convert);
      Ok((key.0, item.0, item.1))
  }

  /**
   * What follows a member or an element, after white space: a `,` that may
   * not be followed by the `close` bracket (`(true, p)`, `p` at the next
   * item), or the `close` bracket itself (`(false, p)`, `p` at the bracket).
   */
  function AfterItem(text: string, cur: nat, close: char): (r: Result<(bool, nat), SyntaxError>)
    requires cur <= |text|
    ensures r.Ok? ==> cur <= r.value.1 < |text|
    ensures r.Ok? && r.value.0 ==> cur < r.value.1 && text[r.value.1] != close
    ensures r.Ok? && !r.value.0 ==> text[r.value.1] == close
  {
    var e :- Filter(text, cur, true);
    if text[e] == ',' then
      var g :- Filter(text, e + 1, true);
      if text[g] == close then Err(Unexpected(text, g)) else Ok((true, g))
    else if text[e] == close then Ok((false, e))
    else Err(Unexpected(text, e))
  }

  /**
   * The `while (cur != end)` loop of `decode(json::object&)` from `cur`
   * with the members `acc` decoded so far; a repeated key overwrites the
   * earlier value.
   */
  function MembersLoop(text: string, cur: nat, acc: map<string, Value>, convert: Convert)
    : (r: Result<(map<string, Value>, nat), SyntaxError>)
    requires cur <= |text|
    ensures r.Ok? ==> cur < r.value.1 <= |text|
    decreases |text| - cur, 3
  {
    if cur == |text| then Err(UnexpectedEnd)
    else
      var a :- Filter(text, cur, true);
      if text[a] == '}' then Ok((acc, a + 1))
      else if text[a] != '"' then Err(Unexpected(text, a))
      else
        var m :- MemberAt(text, a, convert);
        var next := acc[m.0 := m.1];
        var after :- AfterItem(text, m.2, '}');
        if after.0 then MembersLoop(text, after.1, next, convert)
        else Ok((next, after.1 + 1))
  }

  /** `decode(json::array&)`: a `[`, then the element loop. */
  function ArrayAt(text: string, cur: nat, convert: Convert): (r: Result<(seq<Value>, nat), SyntaxError>)
    requires cur <= |text|
    ensures r.Ok? ==> cur < r.value.1 <= |text|
    decreases |text| - cur, 1
  {
    var c :- Need(text, cur);
    if c != '[' then Err(Unexpected(text, cur))
    else ElementsLoop(text, cur + 1, [], convert)
  }

  /**
   * The `while (cur != end)` loop of `decode(json::array&)` from `cur` with
   * the elements `acc` decoded so far.
   */
  function ElementsLoop(text: string, cur: nat, acc: seq<Value>, convert: Convert)
    : (r: Result<(seq<Value>, nat), SyntaxError>)
    requires cur <= |text|
    ensures r.Ok? ==> cur < r.value.1 <= |text|
    decreases |text| - cur, 3
  {
    if cur == |text| then Err(UnexpectedEnd)
    else
      var a :- Filter(text, cur, true);
      if text[a] == ']' then Ok((acc, a + 1))
      else
        var item :- ValueAt(text, a, convert);
        var next := acc + [item.0];
        var after :- AfterItem(text, item.1, ']');
        if after.0 then ElementsLoop(text, after.1, next, convert)
        else Ok((next, after.1 + 1))
  }

  /**
   * `json::decode(cur, end)`: white space, one value, white space, and
   * nothing else.
   */
  function Decode(text: string, convert: Convert): Result<Value, SyntaxError>
  {
    var a :- Filter(text, 0, true);
    var v :- ValueAt(text, a, convert);
    var b := SkipSpace(text, v.1);
    if b != |text| then Err(Unexpected(text, b)) else Ok(v.0)
  }
}
