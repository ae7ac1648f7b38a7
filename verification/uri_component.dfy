/** `encodeURIComponent` and `decodeURIComponent`: percent-encoding as in
    section 2.1 of RFC 3986 over the UTF-8 bytes of each character, leaving
    the section 2.3 unreserved characters and `! * ' ( )` as they are.
    Dafny's `char` is a Unicode scalar value, so a string here never holds
    the lone surrogate on which `encodeURIComponent` throws. */
module UriComponent {
  import opened Options
  import opened SeqLemmas

  type Byte = b: int | 0 <= b < 256

  /** The characters `encodeURIComponent` leaves unescaped. */
  predicate IsUnreserved(c: char) {
    ('A' <= c <= 'Z') || ('a' <= c <= 'z') || ('0' <= c <= '9') || c in "-_.!~*'()"
  }

  /** An upper-case hexadecimal digit, as the encoder writes them. */
  function HexDigit(d: int): (c: char)
    requires 0 <= d < 16
    ensures IsUnreserved(c)
  {
    if d < 10 then ('0' as int + d) as char else ('A' as int + d - 10) as char
  }

  /** The value of a hexadecimal digit of either case. */
  function HexValue(c: char): (r: Option<int>)
    ensures r.Some? ==> 0 <= r.value < 16
  {
    if '0' <= c <= '9' then Some(c as int - '0' as int)
    else if 'A' <= c <= 'F' then Some(c as int - 'A' as int + 10)
    else if 'a' <= c <= 'f' then Some(c as int - 'a' as int + 10)
    else None
  }

  lemma HexValueOfDigit(d: int)
    requires 0 <= d < 16
    ensures HexValue(HexDigit(d)) == Some(d)
  {
  }

  // ---------------------------------------------------------------------------
  // Encoding
  // ---------------------------------------------------------------------------

  /** The UTF-8 encoding of one scalar value: the value's bits, six at a
      time from the low end, behind a lead byte that announces the length. */
  function Utf8(c: char): (bs: seq<Byte>)
    ensures 1 <= |bs| <= 4
  {
    var v := c as int;
    var w := v / 64;
    var x := w / 64;
    if v < 0x80 then [v]
    else if v < 0x800 then [0xC0 + w, 0x80 + v % 64]
    else if v < 0x10000 then [0xE0 + x, 0x80 + w % 64, 0x80 + v % 64]
    else [0xF0 + x / 64, 0x80 + x % 64, 0x80 + w % 64, 0x80 + v % 64]
  }

  /** Each byte written as `%XX`. */
  function Percent(bs: seq<Byte>): (r: string)
    ensures |r| == 3 * |bs|
  {
    if |bs| == 0 then ""
    else ['%', HexDigit(bs[0] / 16), HexDigit(bs[0] % 16)] + Percent(bs[1..])
  }

  function EncodeChar(c: char): string {
    if IsUnreserved(c) then [c] else Percent(Utf8(c))
  }

  /** A string of unreserved characters and `%XX` escapes with hexadecimal
      digits `X`, and nothing else. */
  predicate IsEscaped(t: string) {
    if |t| == 0 then true
    else if IsUnreserved(t[0]) then IsEscaped(t[1..])
    else
      && |t| >= 3 && t[0] == '%'
      && HexValue(t[1]).Some? && HexValue(t[2]).Some?
      && IsEscaped(t[3..])
  }

  /** `encodeURIComponent(s)`: text of unreserved characters comes out as it
      went in. */
  function Encode(s: string): (r: string)
    ensures IsEscaped(r)
    ensures (forall i :: 0 <= i < |s| ==> IsUnreserved(s[i])) ==> r == s
  {
    if |s| == 0 then ""
    else
      var rest := Encode(s[1..]);
      EscapedPrefix(s[0], rest);
      assert s == [s[0]] + s[1..];
      EncodeChar(s[0]) + rest
  }

  /** One character: an unreserved one stays, any other becomes the `%XX`
      escapes of its UTF-8 bytes. */
  lemma EncodeSingle(c: char)
    ensures Encode([c]) == if IsUnreserved(c) then [c] else Percent(Utf8(c))
  {
    assert [c][1..] == [];
  }

  /** Encoding works character by character: it distributes over
      concatenation, so with `EncodeSingle` it fixes every output. */
  lemma {:induction false} EncodeAppend(a: string, b: string)
    ensures Encode(a + b) == Encode(a) + Encode(b)
  {
    if |a| == 0 {
      assert a + b == b;
    } else {
      EncodeAppend(a[1..], b);
      ConsAppend(a, b);
      EncodeCons(a[0], a[1..] + b);
      EncodeCons(a[0], a[1..]);
      Associative(EncodeChar(a[0]), Encode(a[1..]), Encode(b));
    }
  }

  lemma EncodeCons(c: char, t: string)
    ensures Encode([c] + t) == EncodeChar(c) + Encode(t)
  {
    assert ([c] + t)[0] == c && ([c] + t)[1..] == t;
  }

  /** The escape of a character outside ASCII: `é` is two UTF-8 bytes. */
  lemma EncodeAccent()
    ensures Encode("\U{00E9}") == "%C3%A9"
  {
    EncodeSingle('\U{00E9}');
    assert '\U{00E9}' as int == 233 && 233 / 64 == 3 && 233 % 64 == 41;
    assert Utf8('\U{00E9}') == [0xC3, 0xA9];
    assert 0xC3 / 16 == 12 && 0xC3 % 16 == 3 && 0xA9 / 16 == 10 && 0xA9 % 16 == 9;
    PercentPair(0xC3, 0xA9);
  }

  lemma PercentPair(x: Byte, y: Byte)
    ensures Percent([x, y]) == ['%', HexDigit(x / 16), HexDigit(x % 16), '%', HexDigit(y / 16), HexDigit(y % 16)]
  {
    assert [x, y][1..] == [y];
    assert [y][1..] == [];
  }

  lemma {:induction false} EscapedPercent(bs: seq<Byte>, t: string)
    requires IsEscaped(t)
    ensures IsEscaped(Percent(bs) + t)
  {
    if |bs| > 0 {
      EscapedPercent(bs[1..], t);
      PercentShape(bs, t);
      HexValueOfDigit(bs[0] / 16);
      HexValueOfDigit(bs[0] % 16);
    } else {
      assert Percent(bs) + t == t;
    }
  }

  /** The first escape of `Percent(bs) + t` and what follows it. */
  lemma PercentShape(bs: seq<Byte>, t: string)
    requires |bs| > 0
    ensures var s := Percent(bs) + t;
      && s[0] == '%' && !IsUnreserved('%')
      && s[1] == HexDigit(bs[0] / 16) && s[2] == HexDigit(bs[0] % 16)
      && s[3..] == Percent(bs[1..]) + t
  {
    ThreeThen(['%', HexDigit(bs[0] / 16), HexDigit(bs[0] % 16)], Percent(bs[1..]), t);
    assert '%' !in "-_.!~*'()";
  }

  lemma ThreeThen(p: string, q: string, t: string)
    requires |p| == 3
    ensures (p + q + t)[..3] == p && (p + q + t)[3..] == q + t
  {
  }

  lemma EscapedPrefix(c: char, t: string)
    requires IsEscaped(t)
    ensures IsEscaped(EncodeChar(c) + t)
  {
    if IsUnreserved(c) {
      assert ([c] + t)[1..] == t;
    } else {
      EscapedPercent(Utf8(c), t);
    }
  }

  /** An escaped key holds no `/`, so it is a single path segment. */
  lemma {:induction false} EscapedHasNoSlash(t: string)
    requires IsEscaped(t)
    ensures '/' !in t
  {
    if |t| > 0 {
      if IsUnreserved(t[0]) {
        EscapedHasNoSlash(t[1..]);
        assert t == [t[0]] + t[1..];
      } else {
        EscapedHasNoSlash(t[3..]);
        assert t == t[..3] + t[3..];
        assert HexValue('/').None?;
      }
    }
  }

  // ---------------------------------------------------------------------------
  // Decoding
  // ---------------------------------------------------------------------------

  /** The number of bytes a UTF-8 sequence starting with `b` has, or 0 when
      `b` cannot start one (a continuation byte, or five or more leading 1 bits). */
  function SequenceLength(b: Byte): nat {
    if b < 0x80 then 1
    else if b < 0xC0 then 0
    else if b < 0xE0 then 2
    else if b < 0xF0 then 3
    else if b < 0xF8 then 4
    else 0
  }

  predicate IsContinuation(b: Byte) {
    0x80 <= b < 0xC0
  }

  /** The value the payload bits of a sequence spell. */
  function PayloadValue(bs: seq<Byte>): int
    requires 1 <= |bs| <= 4 && |bs| == SequenceLength(bs[0])
  {
    var lead: int := bs[0];
    if |bs| == 1 then lead
    else if |bs| == 2 then (lead - 0xC0) * 64 + Payload(bs[1])
    else if |bs| == 3 then ((lead - 0xE0) * 64 + Payload(bs[1])) * 64 + Payload(bs[2])
    else (((lead - 0xF0) * 64 + Payload(bs[1])) * 64 + Payload(bs[2])) * 64 + Payload(bs[3])
  }

  /** The six payload bits of a continuation byte. */
  function Payload(b: Byte): int {
    b as int - 0x80
  }

  /** The least value a sequence of `n` bytes may encode (shorter forms are overlong). */
  function MinValue(n: nat): int {
    if n <= 1 then 0 else if n == 2 then 0x80 else if n == 3 then 0x800 else 0x10000
  }

  /** The scalar value a well-formed UTF-8 sequence encodes; `None` for an
      ill-formed one (bad continuation, overlong, surrogate, beyond U+10FFFF). */
  function Utf8Decode(bs: seq<Byte>): Option<char>
    requires 1 <= |bs| && |bs| == SequenceLength(bs[0])
  {
    if exists k :: 1 <= k < |bs| && !IsContinuation(bs[k]) then None
    else
      var v := PayloadValue(bs);
      if v < MinValue(|bs|) || (0xD800 <= v < 0xE000) || v > 0x10FFFF then None
      else Some(v as char)
  }

  /** A `%XX` escape at the start of `s`. */
  function ReadOctet(s: string): (r: Option<Byte>)
    ensures r.Some? ==> |s| >= 3 && s[0] == '%'
  {
    if |s| >= 3 && s[0] == '%' then
      match (HexValue(s[1]), HexValue(s[2]))
      case (Some(hi), Some(lo)) => Some(16 * hi + lo)
      case _ => None
    else None
  }

  /** `n` consecutive `%XX` escapes at the start of `s`. */
  function ReadOctets(s: string, n: nat): (r: Option<seq<Byte>>)
    ensures r.Some? ==> |r.value| == n && |s| >= 3 * n
    ensures r.Some? && n > 0 ==> ReadOctet(s) == Some(r.value[0])
  {
    if n == 0 then Some([])
    else
      var b :- ReadOctet(s);
      var rest :- ReadOctets(s[3..], n - 1);
      Some([b] + rest)
  }

  /** `decodeURIComponent(s)`, with the URIError it throws written as `None`:
      an escape must be `%` and two hexadecimal digits, and escapes of bytes
      0x80 and above must together form one well-formed UTF-8 sequence. */
  function Decode(s: string): Option<string>
    decreases |s|
  {
    if |s| == 0 then Some("")
    else if s[0] != '%' then
      var rest :- Decode(s[1..]);
      Some([s[0]] + rest)
    else
      var b :- ReadOctet(s);
      var n := SequenceLength(b);
      if n == 0 then None
      else
        var bs :- ReadOctets(s, n);
        var c :- Utf8Decode(bs);
        var rest :- Decode(s[3 * n..]);
        Some([c] + rest)
  }

  // ---------------------------------------------------------------------------
  // Round trip
  // ---------------------------------------------------------------------------

  lemma Utf8RoundTrip(c: char)
    ensures SequenceLength(Utf8(c)[0]) == |Utf8(c)|
    ensures Utf8Decode(Utf8(c)) == Some(c)
  {
    var v := c as int;
    var w := v / 64;
    var x := w / 64;
    var bs := Utf8(c);
    assert v == w * 64 + v % 64;
    assert w == x * 64 + w % 64;
    if v < 0x80 {
    } else if v < 0x800 {
      assert PayloadValue(bs) == v;
    } else if v < 0x10000 {
      assert PayloadValue(bs) == v;
    } else {
      assert x == (x / 64) * 64 + x % 64;
      assert x / 64 < 5;
      assert PayloadValue(bs) == v;
    }
  }

  lemma {:induction false} ReadPercent(bs: seq<Byte>, t: string)
    ensures ReadOctets(Percent(bs) + t, |bs|) == Some(bs)
  {
    if |bs| > 0 {
      var s := Percent(bs) + t;
      PercentShape(bs, t);
      HexValueOfDigit(bs[0] / 16);
      HexValueOfDigit(bs[0] % 16);
      assert ReadOctet(s) == Some(bs[0]);
      ReadPercent(bs[1..], t);
      assert [bs[0]] + bs[1..] == bs;
    }
  }

  /** Decoding an encoded character consumes exactly its encoding. */
  lemma DecodeEncodedChar(c: char, t: string)
    ensures Decode(EncodeChar(c) + t) ==
      if Decode(t).Some? then Some([c] + Decode(t).value) else None
  {
    var s := EncodeChar(c) + t;
    if IsUnreserved(c) {
      assert s[0] == c && s[1..] == t;
    } else {
      var bs := Utf8(c);
      ReadPercent(bs, t);
      Utf8RoundTrip(c);
      assert s[3 * |bs|..] == t;
      assert ReadOctet(s) == Some(bs[0]);
    }
  }

  /** `decodeURIComponent(encodeURIComponent(s)) == s`. */
  lemma {:induction false} DecodeEncode(s: string)
    ensures Decode(Encode(s)) == Some(s)
  {
    if |s| > 0 {
      DecodeEncode(s[1..]);
      DecodeEncodedChar(s[0], Encode(s[1..]));
      assert [s[0]] + s[1..] == s;
    }
  }

  /** Distinct names get distinct keys. */
  lemma EncodeInjective(a: string, b: string)
    ensures Encode(a) == Encode(b) ==> a == b
  {
    DecodeEncode(a);
    DecodeEncode(b);
  }
}
