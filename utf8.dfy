/**
  The round trip `s.encode("utf-8", "ignore").decode("utf-8")` that the
  normaliser applies to every field: a UTF-8 encoder that skips what it
  cannot encode, and the strict UTF-8 decoder (RFC 3629, section 3).
 */
module Utf8 {
  import opened Unicode
  import opened Wrappers

  newtype Byte = x: int | 0 <= x < 256

  type Bytes = seq<Byte>

  /** A byte of the form `10xxxxxx`. */
  predicate IsContinuation(b: Byte) {
    0x80 <= b < 0xC0
  }

  /** The UTF-8 encoding of a code point that is not a surrogate. */
  function EncodePoint(c: CodePoint): (b: Bytes)
    requires !IsSurrogate(c)
    ensures 1 <= |b| <= 4
  {
    var x := c as int;
    if x < 0x80 then
      [x as Byte]
    else if x < 0x800 then
      [(0xC0 + x / 64) as Byte, (0x80 + x % 64) as Byte]
    else if x < 0x1_0000 then
      [(0xE0 + x / 4096) as Byte, (0x80 + x / 64 % 64) as Byte, (0x80 + x % 64) as Byte]
    else
      [(0xF0 + x / 262144) as Byte, (0x80 + x / 4096 % 64) as Byte,
       (0x80 + x / 64 % 64) as Byte, (0x80 + x % 64) as Byte]
  }

  /** `s.encode("utf-8", "ignore")`: each code point encoded in turn, each
      lone surrogate skipped without an error. Every kept code point takes
      between one and four bytes. */
  function EncodeIgnore(s: Text): (r: Bytes)
    ensures |DropSurrogates(s)| <= |r| <= 4 * |DropSurrogates(s)|
  {
    if s == [] then []
    else (if IsSurrogate(s[0]) then [] else EncodePoint(s[0])) + EncodeIgnore(s[1..])
  }

  /** The code point at the front of `b` and the number of bytes it takes,
      or None where the strict decoder reports an error: a stray
      continuation byte, a truncated sequence, an overlong form, an encoded
      surrogate or a value above U+10FFFF. */
  function DecodePoint(b: Bytes): (r: Option<(CodePoint, nat)>)
    requires |b| > 0
    ensures r.Some? ==> 1 <= r.value.1 <= 4 && r.value.1 <= |b| && !IsSurrogate(r.value.0)
  {
    var b0 := b[0] as int;
    if b0 < 0x80 then
      Some((b0 as CodePoint, 1))
    else if 0xC2 <= b0 < 0xE0 then
      if |b| >= 2 && IsContinuation(b[1]) then
        Some((((b0 - 0xC0) * 64 + (b[1] as int - 0x80)) as CodePoint, 2))
      else None
    else if 0xE0 <= b0 < 0xF0 then
      if |b| >= 3 && IsContinuation(b[1]) && IsContinuation(b[2]) then
        var x := (b0 - 0xE0) * 4096 + (b[1] as int - 0x80) * 64 + (b[2] as int - 0x80);
        if x < 0x800 || 0xD800 <= x <= 0xDFFF then None else Some((x as CodePoint, 3))
      else None
    else if 0xF0 <= b0 < 0xF5 then
      if |b| >= 4 && IsContinuation(b[1]) && IsContinuation(b[2]) && IsContinuation(b[3]) then
        var x := (b0 - 0xF0) * 262144 + (b[1] as int - 0x80) * 4096 +
                 (b[2] as int - 0x80) * 64 + (b[3] as int - 0x80);
        if x < 0x1_0000 || x >= 0x11_0000 then None else Some((x as CodePoint, 4))
      else None
    else
      None
  }

  /** `b.decode("utf-8")` with the default strict error handling: the
      decoded text, or None where Python raises `UnicodeDecodeError`. */
  function Decode(b: Bytes): (r: Option<Text>)
    ensures r.Some? ==> NoSurrogates(r.value)
    decreases |b|
  {
    if b == [] then Some([])
    else match DecodePoint(b)
      case None => None
      case Some((c, n)) =>
        match Decode(b[n..])
        case None => None
        case Some(t) => Some([c] + t)
  }

  /** Decoding reads back exactly the code point that was encoded, and
      stops where its encoding ends. */
  lemma DecodeEncodePoint(c: CodePoint, rest: Bytes)
    requires !IsSurrogate(c)
    ensures DecodePoint(EncodePoint(c) + rest) == Some((c, |EncodePoint(c)|))
  {
    var x := c as int;
    var b := EncodePoint(c) + rest;
    assert x == x / 64 * 64 + x % 64;
    assert x / 64 == x / 4096 * 64 + x / 64 % 64;
    assert x / 4096 == x / 262144 * 64 + x / 4096 % 64;
    if x < 0x80 {
    } else if x < 0x800 {
      assert b[0] as int - 0xC0 == x / 64 && b[1] as int - 0x80 == x % 64;
    } else if x < 0x1_0000 {
      assert b[0] as int - 0xE0 == x / 4096;
      assert b[1] as int - 0x80 == x / 64 % 64 && b[2] as int - 0x80 == x % 64;
    } else {
      assert b[0] as int - 0xF0 == x / 262144;
      assert b[1] as int - 0x80 == x / 4096 % 64;
      assert b[2] as int - 0x80 == x / 64 % 64 && b[3] as int - 0x80 == x % 64;
    }
  }

  /** The encoder's output always decodes, to the input without its lone
      surrogates. */
  lemma {:induction false} DecodeEncodeIgnore(s: Text)
    ensures Decode(EncodeIgnore(s)) == Some(DropSurrogates(s))
  {
    if s != [] {
      var rest := EncodeIgnore(s[1..]);
      DecodeEncodeIgnore(s[1..]);
      if IsSurrogate(s[0]) {
        assert EncodeIgnore(s) == rest;
        assert Keep(s[0]) == [];
        assert DropSurrogates(s) == DropSurrogates(s[1..]);
        assert Decode(EncodeIgnore(s)) == Decode(rest);
      } else {
        var e := EncodePoint(s[0]);
        assert EncodeIgnore(s) == e + rest;
        DecodeEncodePoint(s[0], rest);
        assert (e + rest)[|e|..] == rest;
      }
    }
  }

  /** `s.encode("utf-8", "ignore").decode("utf-8")`: the decoding never
      fails, and the result is `s` with its lone surrogates dropped. */
  method Sanitize(s: Text) returns (r: Text)
    ensures r == DropSurrogates(s)
  {
    var encoded := EncodeIgnore(s);
    var decoded := Decode(encoded);
    DecodeEncodeIgnore(s);
    r := decoded.value;
  }
}
