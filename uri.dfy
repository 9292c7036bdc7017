/** `decodeURIComponent`: the Decode operation of the ECMAScript language
    specification (ECMA-262, the URI handling functions) with an empty
    reserved set, so that every `%XY` escape is decoded. Escapes of bytes at
    or above 0x80 must form one well-formed UTF-8 sequence per code point;
    any malformed escape makes the whole call fail (`None`, the URIError). */
module Uri {
  import opened Js

  predicate IsHexDigit(c: char)
  {
    ('0' <= c <= '9') || ('a' <= c <= 'f') || ('A' <= c <= 'F')
  }

  function HexValue(c: char): (v: nat)
    requires IsHexDigit(c)
    ensures v < 16
  {
    if '0' <= c <= '9' then c as int - '0' as int
    else if 'a' <= c <= 'f' then c as int - 'a' as int + 10
    else c as int - 'A' as int + 10
  }

  /** The byte of a `%XY` escape at the front of `s`. */
  function EscapedByte(s: string): (r: Option<nat>)
    ensures r.Some? ==> r.value < 256 && |s| >= 3 && s[0] == '%'
  {
    if |s| >= 3 && s[0] == '%' && IsHexDigit(s[1]) && IsHexDigit(s[2])
    then Some(16 * HexValue(s[1]) + HexValue(s[2]))
    else None
  }

  /** The length of the UTF-8 sequence a lead byte at or above 0x80 starts
      (the number of its leading one bits), or 0 when it cannot start one. */
  function SequenceLength(b: nat): (n: nat)
    ensures n == 0 || 2 <= n <= 4
  {
    if 0xC0 <= b < 0xE0 then 2
    else if 0xE0 <= b < 0xF0 then 3
    else if 0xF0 <= b < 0xF8 then 4
    else 0
  }

  /** Reads `count` escapes of continuation bytes (0x80 to 0xBF). */
  function Continuations(s: string, count: nat): (r: Option<seq<nat>>)
    ensures r.Some? ==> |r.value| == count && |s| >= 3 * count
    ensures r.Some? ==> forall k :: 0 <= k < count ==> 0x80 <= r.value[k] < 0xC0
    decreases count
  {
    if count == 0 then Some([])
    else match EscapedByte(s)
      case None => None
      case Some(b) =>
        if !(0x80 <= b < 0xC0) then None
        else match Continuations(s[3..], count - 1)
          case None => None
          case Some(rest) => Some([b] + rest)
  }

  /** The code point a lead byte and its continuation bytes spell, or `None`
      for an overlong form, a surrogate or a value above U+10FFFF. */
  function CodePoint(lead: nat, cont: seq<nat>): (r: Option<char>)
    requires 2 <= SequenceLength(lead) && |cont| == SequenceLength(lead) - 1
    requires forall k :: 0 <= k < |cont| ==> 0x80 <= cont[k] < 0xC0
    ensures r.Some? ==> 0x80 <= r.value as int
  {
    var n := SequenceLength(lead);
    if n == 2 then
      var cp := (lead - 0xC0) * 0x40 + (cont[0] - 0x80);
      if 0x80 <= cp then Some(cp as char) else None
    else if n == 3 then
      var cp := (lead - 0xE0) * 0x1000 + (cont[0] - 0x80) * 0x40 + (cont[1] - 0x80);
      if 0x800 <= cp && !(0xD800 <= cp < 0xE000) then Some(cp as char) else None
    else
      var cp := (lead - 0xF0) * 0x40000 + (cont[0] - 0x80) * 0x1000 + (cont[1] - 0x80) * 0x40 + (cont[2] - 0x80);
      if 0x10000 <= cp < 0x110000 then Some(cp as char) else None
  }

  function Prepend(c: char, rest: Option<string>): Option<string>
  {
    if rest.Some? then Some([c] + rest.value) else None
  }

  /** `decodeURIComponent(s)`; `None` where it throws a URIError. */
  function Decode(s: string): (r: Option<string>)
    ensures r.Some? ==> |r.value| <= |s|
    ensures r.Some? ==> (r.value == [] <==> s == [])
    decreases |s|
  {
    if s == [] then Some([])
    else if s[0] != '%' then Prepend(s[0], Decode(s[1..]))
    else match EscapedByte(s)
      case None => None
      case Some(b) =>
        if b < 0x80 then Prepend(b as char, Decode(s[3..]))
        else
          var n := SequenceLength(b);
          if n == 0 then None
          else match Continuations(s[3..], n - 1)
            case None => None
            case Some(cont) =>
              match CodePoint(b, cont)
              case None => None
              case Some(c) => Prepend(c, Decode(s[3 + 3 * (n - 1)..]))
  }

  /** A string without `%` decodes to itself. */
  lemma {:induction false} DecodeWithoutPercent(s: string)
    requires '%' !in s
    ensures Decode(s) == Some(s)
  {
    if s != [] {
      assert '%' !in s[1..];
      DecodeWithoutPercent(s[1..]);
      assert s == [s[0]] + s[1..];
    }
  }

  /** A prefix without `%` is copied and decoding goes on after it. */
  lemma {:induction false} DecodePlainPrefix(x: string, y: string)
    requires '%' !in x
    ensures Decode(x + y) == if Decode(y).Some? then Some(x + Decode(y).value) else None
  {
    if x != [] {
      var xy := x + y;
      assert xy[0] == x[0] && xy[1..] == x[1..] + y;
      assert x[0] != '%' && '%' !in x[1..];
      assert Decode(xy) == Prepend(x[0], Decode(x[1..] + y));
      DecodePlainPrefix(x[1..], y);
      if Decode(y).Some? {
        var d := Decode(y).value;
        assert Decode(x[1..] + y) == Some(x[1..] + d);
        assert [x[0]] + (x[1..] + d) == x + d;
      }
    } else {
      assert x + y == y;
      if Decode(y).Some? {
        assert x + Decode(y).value == Decode(y).value;
      }
    }
  }

  /** `%2F` decodes to a slash. */
  lemma EscapedSlash(y: string)
    requires '%' !in y
    ensures Decode("%2F" + y) == Some("/" + y)
  {
    var e := "%2F" + y;
    assert e[0] == '%' && e[1] == '2' && e[2] == 'F' && e[3..] == y;
    assert EscapedByte(e) == Some(47);
    DecodeWithoutPercent(y);
  }

  /** A `%` at index `i` that is not followed by two hexadecimal digits. */
  predicate BadEscapeAt(s: string, i: nat)
  {
    i < |s| && s[i] == '%' && !(i + 2 < |s| && IsHexDigit(s[i + 1]) && IsHexDigit(s[i + 2]))
  }

  /** Continuation escapes cannot be read across a bad escape. */
  lemma {:induction false} ContinuationsStopAtBadEscape(s: string, count: nat, i: nat)
    requires i < 3 * count && BadEscapeAt(s, i)
    ensures Continuations(s, count) == None
    decreases count
  {
    if EscapedByte(s).Some? {
      assert s[1] != '%' && s[2] != '%';
      var b := EscapedByte(s).value;
      if 0x80 <= b < 0xC0 {
        assert BadEscapeAt(s[3..], i - 3);
        ContinuationsStopAtBadEscape(s[3..], count - 1, i - 3);
      }
    }
  }

  /** A `%` anywhere in the input that is not followed by two hexadecimal
      digits makes the whole decoding fail: the decoder reaches it either
      as the start of an escape or while it reads continuation bytes. */
  lemma {:induction false} MalformedEscapeFails(s: string, i: nat)
    requires BadEscapeAt(s, i)
    ensures Decode(s) == None
    decreases |s|
  {
    if s[0] != '%' {
      assert i > 0;
      assert BadEscapeAt(s[1..], i - 1);
      MalformedEscapeFails(s[1..], i - 1);
    } else if EscapedByte(s).Some? {
      assert s[1] != '%' && s[2] != '%';
      var b := EscapedByte(s).value;
      var n := SequenceLength(b);
      if b < 0x80 {
        assert BadEscapeAt(s[3..], i - 3);
        MalformedEscapeFails(s[3..], i - 3);
      } else if n != 0 {
        if i - 3 < 3 * (n - 1) {
          assert BadEscapeAt(s[3..], i - 3);
          ContinuationsStopAtBadEscape(s[3..], n - 1, i - 3);
        } else if Continuations(s[3..], n - 1).Some? {
          var j := 3 + 3 * (n - 1);
          assert BadEscapeAt(s[j..], i - j);
          MalformedEscapeFails(s[j..], i - j);
        }
      }
    }
  }

  /** An escaped continuation byte (0x80 to 0xBF) cannot start a character. */
  lemma LoneContinuationFails(s: string)
    requires EscapedByte(s).Some? && 0x80 <= EscapedByte(s).value < 0xC0
    ensures Decode(s) == None
  {
  }

  /** A lead byte whose continuation bytes are cut off by the end of the
      input makes decoding fail. */
  lemma TruncatedSequenceFails(s: string)
    requires EscapedByte(s).Some? && SequenceLength(EscapedByte(s).value) >= 2
    requires |s| < 3 * SequenceLength(EscapedByte(s).value)
    ensures Decode(s) == None
  {
  }

  // ---------------------------------------------------------------------
  // Percent-encoding of ASCII text, the inverse on that domain
  // ---------------------------------------------------------------------

  /** The characters `encodeURIComponent` leaves alone. */
  predicate IsUnreserved(c: char)
  {
    ('A' <= c <= 'Z') || ('a' <= c <= 'z') || ('0' <= c <= '9')
    || c == '-' || c == '_' || c == '.' || c == '!' || c == '~' || c == '*' || c == '\'' || c == '(' || c == ')'
  }

  function HexDigit(v: nat): (c: char)
    requires v < 16
    ensures IsHexDigit(c) && HexValue(c) == v
  {
    if v < 10 then (v + '0' as int) as char else (v - 10 + 'A' as int) as char
  }

  /** `encodeURIComponent` restricted to ASCII text. */
  function EncodeAscii(s: string): (r: string)
    requires forall i :: 0 <= i < |s| ==> s[i] as int < 0x80
  {
    if s == [] then []
    else if IsUnreserved(s[0]) then [s[0]] + EncodeAscii(s[1..])
    else ['%', HexDigit(s[0] as int / 16), HexDigit(s[0] as int % 16)] + EncodeAscii(s[1..])
  }

  /** The escape `encodeURIComponent` writes for an ASCII character reads
      back as that character's code. */
  lemma EscapedAsciiByte(c: char, e: string)
    requires c as int < 0x80
    requires |e| >= 3 && e[..3] == ['%', HexDigit(c as int / 16), HexDigit(c as int % 16)]
    ensures EscapedByte(e) == Some(c as int)
  {
    assert e[0] == '%' && e[1] == HexDigit(c as int / 16) && e[2] == HexDigit(c as int % 16);
  }

  /** Decoding undoes percent-encoding of ASCII text. */
  lemma {:induction false} DecodeEncodeAscii(s: string)
    requires forall i :: 0 <= i < |s| ==> s[i] as int < 0x80
    ensures Decode(EncodeAscii(s)) == Some(s)
  {
    if s != [] {
      DecodeEncodeAscii(s[1..]);
      var e := EncodeAscii(s);
      assert s == [s[0]] + s[1..];
      if IsUnreserved(s[0]) {
        assert e[0] == s[0] && e[1..] == EncodeAscii(s[1..]);
      } else {
        assert e[3..] == EncodeAscii(s[1..]);
        EscapedAsciiByte(s[0], e);
      }
    }
  }
}
