/**
 * The decoding side of `chen::json` as the source runs it: the iterator
 * `cur` passed by reference is the field `cur` of a reader over the text,
 * moved on by `Forward` and `Filter` inside the loops of each `decode`
 * overload. Every method is proved to compute what the function of the
 * same overload in `Json` describes.
 */
module JsonDecoder {
  import opened Wrappers
  import opened Json

  class Reader {
    /** The input, `[begin, end)`. */
    const text: string
    /** `chen::utf8::convert`. */
    const convert: Convert
    /** The position of the iterator `cur`. */
    var cur: nat

    ghost predicate Valid()
      reads this`cur
    {
      cur <= |text|
    }

    constructor (text: string, convert: Convert)
      ensures Valid() && this.text == text && this.convert == convert && cur == 0
    {
      this.text := text;
      this.convert := convert;
      cur := 0;
    }

    /** `filter(cur, end, require)`. */
    method Filter(require: bool) returns (r: Result<(), SyntaxError>)
      requires Valid()
      modifies this`cur
      ensures Valid()
      ensures var f := Json.Filter(text, old(cur), require);
              r == Done(f) && (f.Ok? ==> cur == f.value)
    {
      while cur != |text| && IsSpace(text[cur])
        invariant cur <= |text|
        invariant SkipSpace(text, cur) == SkipSpace(text, old(cur))
        decreases |text| - cur
      {
        cur := cur + 1;
      }
      if require && cur == |text| {
        return Err(Unexpected(text, cur));
      }
      r := Ok(());
    }

    /** `forward(cur, end)`: moves on and hands back the new current character (`None` at the end). */
    method Forward() returns (r: Result<Option<char>, SyntaxError>)
      requires Valid()
      modifies this`cur
      ensures Valid()
      ensures var f := Json.Forward(text, old(cur));
              && (f.Ok? ==> cur == f.value && r == Ok(Peek(text, cur)))
              && (f.Err? ==> r == Err(f.error) && cur == old(cur))
    {
      if cur == |text| {
        return Err(Unexpected(text, cur));
      }
      cur := cur + 1;
      r := Ok(Peek(text, cur));
    }

    /** The loop shared by `decode(bool)` and `decode(nullptr)`: `word`, character by character. */
    method DecodeWord(word: string) returns (r: Result<(), SyntaxError>)
      requires Valid()
      modifies this`cur
      ensures Valid()
      ensures var w := WordFrom(text, old(cur), word, 0);
              r == Done(w) && (w.Ok? ==> cur == w.value)
    {
      for i := 0 to |word|
        invariant cur == old(cur) + i <= |text|
        invariant WordFrom(text, cur, word, i) == WordFrom(text, old(cur), word, 0)
      {
        var ch :- Need(text, cur);
        if ch != word[i] {
          return Err(Unexpected(text, cur));
        }
        var moved := Forward();
      }
      r := Ok(());
    }

    /** `decode(bool v)`. */
    method DecodeBool(v: bool) returns (r: Result<(), SyntaxError>)
      requires Valid()
      modifies this`cur
      ensures Valid()
      ensures var w := WordFrom(text, old(cur), if v then "true" else "false", 0);
              r == Done(w) && (w.Ok? ==> cur == w.value)
    {
      r := DecodeWord(if v then "true" else "false");
    }

    /** `decode(nullptr)`. */
    method DecodeNull() returns (r: Result<(), SyntaxError>)
      requires Valid()
      modifies this`cur
      ensures Valid()
      ensures var w := WordFrom(text, old(cur), "null", 0);
              r == Done(w) && (w.Ok? ==> cur == w.value)
    {
      r := DecodeWord("null");
    }

    /** A `while (std::isdigit(...)) { str += ch; forward(); }` loop of `decode(double)`. */
    method CollectDigits(str: string) returns (out: string)
      requires Valid()
      modifies this`cur
      ensures Valid()
      ensures cur == DigitsEnd(text, old(cur))
      ensures out == str + text[old(cur)..cur]
    {
      out := str;
      while DigitAt(text, cur)
        invariant old(cur) <= cur <= |text|
        invariant DigitsEnd(text, cur) == DigitsEnd(text, old(cur))
        invariant out == str + text[old(cur)..cur]
        decreases |text| - cur
      {
        out := out + [text[cur]];
        cur := cur + 1;
      }
    }

    /** The "collect decimal parts" step of `decode(double)`. */
    method DecodeFraction(str: string) returns (r: Result<string, SyntaxError>)
      requires Valid()
      modifies this`cur
      ensures Valid()
      ensures var f := FractionAt(text, old(cur));
              && (f.Ok? ==> r == Ok(str + text[old(cur)..f.value]) && cur == f.value)
              && (f.Err? ==> r == Err(f.error))
    {
      assert str + text[cur..cur] == str;
      r := Ok(str);
      if Peek(text, cur) == Some('.') {
        ghost var start := cur;
        var out := str + ['.'];
        var moved := Forward();
        assert cur == start + 1;
        var d :- Need(text, cur);
        if !IsDigit(d) {
          return Err(Unexpected(text, cur));
        }
        out := out + [d];
        moved := Forward();
        assert cur == start + 2;
        PassedTwo(str, text, start, '.', d);
        ghost var mid := cur;
        out := CollectDigits(out);
        Collected(str, text, old(cur), mid, cur);
        r := Ok(out);
      }
    }

    /** The "'e' or 'E'" step of `decode(double)`. */
    method DecodeExponent(str: string) returns (r: Result<string, SyntaxError>)
      requires Valid()
      modifies this`cur
      ensures Valid()
      ensures var e := ExponentAt(text, old(cur));
              && (e.Ok? ==> r == Ok(str + text[old(cur)..e.value]) && cur == e.value)
              && (e.Err? ==> r == Err(e.error))
    {
      assert str + text[cur..cur] == str;
      r := Ok(str);
      var ch := Peek(text, cur);
      if ch == Some('e') || ch == Some('E') {
        ghost var start := cur;
        var out := str + [ch.value];
        assert cur < |text| && ch.value == text[cur];
        var moved := Forward();
        assert cur == start + 1;
        var s :- Need(text, cur);
        if s != '+' && s != '-' && !IsDigit(s) {
          return Err(Unexpected(text, cur));
        }
        out := out + [s];
        moved := Forward();
        assert cur == start + 2;
        PassedTwo(str, text, start, ch.value, s);
        ghost var mid := cur;
        out :- ExponentDigits(out, s);
        Collected(str, text, old(cur), mid, cur);
        r := Ok(out);
      }
    }

    /** The "first" and "last" digits of an exponent, after its sign or first digit `s`. */
    method ExponentDigits(str: string, s: char) returns (r: Result<string, SyntaxError>)
      requires Valid()
      modifies this`cur
      ensures Valid()
      ensures var e := ExponentDigitsAt(text, old(cur), s);
              && (e.Ok? ==> r == Ok(str + text[old(cur)..e.value]) && cur == e.value)
              && (e.Err? ==> r == Err(e.error))
    {
      var out := str;
      assert out == str + text[old(cur)..cur];
      if !IsDigit(s) {
        var d :- Need(text, cur);
        if !IsDigit(d) {
          return Err(Unexpected(text, cur));
        }
        out := out + [d];
        var moved := Forward();
        assert out == str + text[old(cur)..cur];
      }
      ghost var mid := cur;
      out := CollectDigits(out);
      Collected(str, text, old(cur), mid, cur);
      r := Ok(out);
    }

    /**
     * The part of `decode(double)` after the first character `c` was
     * passed and up to the integer digits: `-0` may not be followed by a
     * digit, `-` must be followed by one, nor may a leading `0`.
     */
    method IntegerLead(str: string, c: char) returns (r: Result<string, SyntaxError>)
      requires Valid()
      modifies this`cur
      ensures Valid()
      ensures var i := IntegerStart(text, old(cur), c);
              && (i.Ok? ==> r == Ok(str + text[old(cur)..i.value]) && cur == i.value)
              && (i.Err? ==> r == Err(i.error))
    {
      var out := str;
      assert out == str + text[old(cur)..cur];
      if c == '-' {
        var d :- Need(text, cur);
        if d == '0' {
          out := out + [d];
          var moved := Forward();
          if DigitAt(text, cur) {
            return Err(Unexpected(text, cur));
          }
        } else if !IsDigit(d) {
          return Err(Unexpected(text, cur));
        }
      } else if c == '0' && DigitAt(text, cur) {
        return Err(Unexpected(text, cur));
      }
      assert out == str + text[old(cur)..cur];
      r := Ok(out);
    }

    /**
     * `decode(double)` up to the text of the number: the sign and integer
     * part, the fraction, the exponent, each character appended to `str`
     * as the cursor passes it.
     */
    method DecodeNumber() returns (r: Result<string, SyntaxError>)
      requires Valid()
      modifies this`cur
      ensures Valid()
      ensures var n := NumberAt(text, old(cur));
              r == Drop(n) && (n.Ok? ==> cur == n.value.1)
    {
      var c :- Need(text, cur);
      if c != '-' && !IsDigit(c) {
        return Err(Unexpected(text, cur));
      }
      var str := [c];
      var moved := Forward();
      assert str == text[old(cur)..cur];
      ghost var p := cur;
      str :- IntegerLead(str, c);
      Joined(text, old(cur), p, cur);
      ghost var i := cur;
      str := CollectDigits(str);
      Joined(text, old(cur), i, cur);
      ghost var d := cur;
      str :- DecodeFraction(str);
      Joined(text, old(cur), d, cur);
      ghost var f := cur;
      str :- DecodeExponent(str);
      Joined(text, old(cur), f, cur);
      r := Ok(str);
    }

    /** The four-digit `for` loop of a `\u` escape; a digit is checked after the cursor has passed it. */
    method UnicodeDigits() returns (r: Result<string, SyntaxError>)
      requires Valid()
      modifies this`cur
      ensures Valid()
      ensures var h := HexFrom(text, old(cur), 0, []);
              r == Drop(h) && (h.Ok? ==> cur == h.value.1)
    {
      var unicode: string := [];
      for i := 0 to 4
        invariant cur == old(cur) + i <= |text| && |unicode| == i
        invariant HexFrom(text, cur, i, unicode) == HexFrom(text, old(cur), 0, [])
      {
        var ch :- Need(text, cur);
        var moved := Forward();
        if !IsHex(ch) {
          return Err(Unexpected(text, cur));
        }
        unicode := unicode + [ch];
      }
      r := Ok(unicode);
    }

    /** The `case` analysis after a backslash inside a string. */
    method DecodeEscape() returns (r: Result<(string, Option<char>), SyntaxError>)
      requires Valid()
      modifies this`cur
      ensures Valid()
      ensures var x := EscapeAt(text, old(cur), convert);
              && (x.Ok? ==> r == Ok((x.value.0, x.value.2)) && cur == x.value.1)
              && (x.Err? ==> r == Err(x.error))
    {
      var moved := Forward();
      var e :- Need(text, cur);
      if Unescape(e).Some? {
        moved := Forward();
        return Ok(([Unescape(e).value], moved.value));
      } else if e == 'u' {
        moved := Forward();
        var digits :- UnicodeDigits();
        var bytes := convert(CodeUnit(digits));
        if bytes.None? {
          return Err(InvalidUnicode(digits));
        }
        // `ch` still holds the last digit the `for` loop read
        return Ok((bytes.value, Some(digits[3])));
      } else {
        return Err(Unexpected(text, cur));
      }
    }

    /**
     * `decode(std::string)`: the opening quote, then characters up to the
     * closing quote, unescaping as they come. After a `\u` escape `ch` is
     * left holding the last hex digit, as in the source.
     */
    method DecodeString() returns (r: Result<string, SyntaxError>)
      requires Valid()
      modifies this`cur
      ensures Valid()
      ensures var s := StringAt(text, old(cur), convert);
              r == Drop(s) && (s.Ok? ==> cur == s.value.1)
    {
      var c :- Need(text, cur);
      if c != '"' {
        return Err(Unexpected(text, cur));
      }
      var moved := Forward();
      var first :- Need(text, cur);
      var ch: Option<char> := Some(first);
      var out: string := [];
      while ch != Some('"')
        invariant Valid()
        invariant StringLoop(text, cur, ch, out, convert) == StringLoop(text, old(cur) + 1, Some(first), [], convert)
        decreases |text| - cur
      {
        if ch.None? {
          // the `-1` that `forward` hands back at the end: appending it and moving on throws
          return Err(UnexpectedEnd);
        }
        if IsControl(ch.value) {
          return Err(ControlNotEscaped);
        }
        if ch.value == '\\' {
          var x :- DecodeEscape();
          out := out + x.0;
          ch := x.1;
        } else {
          out := out + [ch.value];
          var skip :- Forward();
          var n :- Need(text, cur);
          ch := Some(n);
        }
      }
      var last :- Need(text, cur);
      moved := Forward();
      r := Ok(out);
    }

    /** `decode(json&)`: picks the overload by the first character. */
    method DecodeValue() returns (r: Result<Value, SyntaxError>)
      requires Valid()
      modifies this`cur
      ensures Valid()
      ensures var v := ValueAt(text, old(cur), convert);
              r == Drop(v) && (v.Ok? ==> cur == v.value.1)
      decreases |text| - cur, 2
    {
      var c :- Need(text, cur);
      if c == '{' {
        var o :- DecodeObject();
        r := Ok(Object(o));
      } else if c == '[' {
        var a :- DecodeArray();
        r := Ok(Array(a));
      } else if c == '"' {
        var s :- DecodeString();
        r := Ok(String(s));
      } else if c == 't' {
        var w :- DecodeBool(true);
        r := Ok(True);
      } else if c == 'f' {
        var w :- DecodeBool(false);
        r := Ok(False);
      } else if c == 'n' {
        var w :- DecodeNull();
        r := Ok(Null);
      } else if IsDigit(c) || c == '-' {
        var d :- DecodeNumber();
        r := Ok(Number(d));
      } else {
        r := Err(Unexpected(text, cur));
      }
    }

    /** One `"key" : value` member, from the `"` of the key. */
    method DecodeMember() returns (r: Result<(string, Value), SyntaxError>)
      requires Valid()
      modifies this`cur
      ensures Valid()
      ensures var m := MemberAt(text, old(cur), convert);
              && (m.Ok? ==> r == Ok((m.value.0, m.value.1)) && cur == m.value.2)
              && (m.Err? ==> r == Err(m.error))
      decreases |text| - cur, 0
    {
      var key :- DecodeString();
      var f :- Filter(true);
      if text[cur] != ':' {
        return Err(Unexpected(text, cur));
      }
      var moved := Forward();
      f :- Filter(true);
      var item :- DecodeValue();
      r := Ok((key, item));
    }

    /**
     * The "find comma or ending" step after a member or an element: `true`
     * when a `,` leads to another one, `false` with the cursor left on the
     * `close` bracket.
     */
    method AfterItem(close: char) returns (r: Result<bool, SyntaxError>)
      requires Valid()
      modifies this`cur
      ensures Valid()
      ensures var a := Json.AfterItem(text, old(cur), close);
              && (a.Ok? ==> r == Ok(a.value.0) && cur == a.value.1)
              && (a.Err? ==> r == Err(a.error))
    {
      var f :- Filter(true);
      if text[cur] == ',' {
        var moved := Forward();
        f :- Filter(true);
        if text[cur] == close {
          return Err(Unexpected(text, cur));
        }
        r := Ok(true);
      } else if text[cur] == close {
        r := Ok(false);
      } else {
        r := Err(Unexpected(text, cur));
      }
    }

    /** `decode(json::object&)`. */
    method DecodeObject() returns (r: Result<map<string, Value>, SyntaxError>)
      requires Valid()
      modifies this`cur
      ensures Valid()
      ensures var o := ObjectAt(text, old(cur), convert);
              r == Drop(o) && (o.Ok? ==> cur == o.value.1)
      decreases |text| - cur, 1
    {
      var c :- Need(text, cur);
      if c != '{' {
        return Err(Unexpected(text, cur));
      }
      var moved := Forward();
      var out: map<string, Value> := map[];
      while cur != |text|
        invariant old(cur) < cur <= |text|
        invariant MembersLoop(text, cur, out, convert) == MembersLoop(text, old(cur) + 1, map[], convert)
        decreases |text| - cur
      {
        var f :- Filter(true);
        if text[cur] == '}' {
          break;
        }
        if text[cur] != '"' {
          return Err(Unexpected(text, cur));
        }
        var member :- DecodeMember();
        out := out[member.0 := member.1];
        var more :- AfterItem('}');
        if !more {
          break;
        }
      }
      if cur == |text| {
        return Err(Unexpected(text, cur));
      }
      moved := Forward();
      r := Ok(out);
    }

    /** `decode(json::array&)`. */
    method DecodeArray() returns (r: Result<seq<Value>, SyntaxError>)
      requires Valid()
      modifies this`cur
      ensures Valid()
      ensures var a := ArrayAt(text, old(cur), convert);
              r == Drop(a) && (a.Ok? ==> cur == a.value.1)
      decreases |text| - cur, 1
    {
      var c :- Need(text, cur);
      if c != '[' {
        return Err(Unexpected(text, cur));
      }
      var moved := Forward();
      var out: seq<Value> := [];
      while cur != |text|
        invariant old(cur) < cur <= |text|
        invariant ElementsLoop(text, cur, out, convert) == ElementsLoop(text, old(cur) + 1, [], convert)
        decreases |text| - cur
      {
        var f :- Filter(true);
        if text[cur] == ']' {
          break;
        }
        var item :- DecodeValue();
        out := out + [item];
        var more :- AfterItem(']');
        if !more {
          break;
        }
      }
      if cur == |text| {
        return Err(Unexpected(text, cur));
      }
      moved := Forward();
      r := Ok(out);
    }
  }

  /** `json::decode(begin, end)`: white space, one value, white space, and the end of the text. */
  method Decode(text: string, convert: Convert) returns (r: Result<Value, SyntaxError>)
    ensures r == Json.Decode(text, convert)
  {
    var reader := new Reader(text, convert);
    var f :- reader.Filter(true);
    var item :- reader.DecodeValue();
    var trail := reader.Filter(false);
    if reader.cur != |text| {
      return Err(Unexpected(text, reader.cur));
    }
    r := Ok(item);
  }
}
