/** The byte-level conversions the protocol relies on, written out as Python
    defines them: `int.to_bytes` / `int.from_bytes` (unsigned and two's
    complement, big-endian), the shortest unsigned encoding used for header
    integers, ASCII and UTF-8 encoding of strings. */
module ByteCodec {
  import opened Common

  type uint8 = x: int | 0 <= x < 256
  type bytes = seq<uint8>

  /** 256 to the power n: the number of distinct values n bytes can hold. */
  function Pow256(n: nat): (r: nat)
    ensures r >= 1
  {
    if n == 0 then 1 else 256 * Pow256(n - 1)
  }

  lemma Pow256Monotonic(a: nat, b: nat)
    requires a <= b
    ensures Pow256(a) <= Pow256(b)
  {
    if a < b {
      Pow256Monotonic(a, b - 1);
    }
  }

  lemma ConcatAssoc(a: bytes, b: bytes, c: bytes)
    ensures (a + b) + c == a + (b + c)
  {
  }

  /** `int.from_bytes(bs, "big")`: the unsigned big-endian value of `bs`. */
  function FromBigEndian(bs: bytes): (r: nat)
    ensures r < Pow256(|bs|)
  {
    if bs == [] then 0 else FromBigEndian(bs[..|bs| - 1]) * 256 + bs[|bs| - 1]
  }

  /** `n.to_bytes(width, "big")` for a value that fits: `width` base-256
      digits, the most significant first. */
  function ToBigEndian(n: nat, width: nat): (r: bytes)
    requires n < Pow256(width)
    ensures |r| == width
    ensures FromBigEndian(r) == n
  {
    if width == 0 then []
    else
      var r := ToBigEndian(n / 256, width - 1) + [n % 256];
      assert r[..|r| - 1] == ToBigEndian(n / 256, width - 1);
      r
  }

  /** Writing a byte string's value back at its own width gives the string:
      the big-endian encoding of a given width is onto. */
  lemma {:induction false} BigEndianOfValue(bs: bytes)
    ensures ToBigEndian(FromBigEndian(bs), |bs|) == bs
  {
    if bs != [] {
      var init, last := bs[..|bs| - 1], bs[|bs| - 1];
      BigEndianOfValue(init);
      var v := FromBigEndian(bs);
      assert v == FromBigEndian(init) * 256 + last;
      assert v / 256 == FromBigEndian(init) && v % 256 == last;
      assert ToBigEndian(v, |bs|) == ToBigEndian(v / 256, |bs| - 1) + [v % 256];
      assert bs == init + [last];
    }
  }

  /** Two values that encode identically at the same width are equal. */
  lemma BigEndianInjective(a: nat, b: nat, width: nat)
    requires a < Pow256(width) && b < Pow256(width)
    requires ToBigEndian(a, width) == ToBigEndian(b, width)
    ensures a == b
  {
  }

  /** `n.to_bytes(width, "big")`, raising OverflowError when `n` is negative
      or needs more than `width` bytes. */
  function IntToBytes(n: int, width: nat): (r: Result<bytes>)
    ensures r.Ok? ==> |r.value| == width && FromBigEndian(r.value) == n
    ensures r.Err? ==> r.error == OverflowError && (n < 0 || n >= Pow256(width))
  {
    if 0 <= n < Pow256(width) then Ok(ToBigEndian(n, width)) else Err(OverflowError)
  }

  /** The values `width` bytes hold in two's complement (Python also accepts
      0 at width 0). */
  predicate SignedFits(n: int, width: nat) {
    -(Pow256(width) / 2) <= n < Pow256(width) / 2 || n == 0
  }

  /** `int.from_bytes(bs, "big", signed=True)`. */
  function FromSignedBigEndian(bs: bytes): (r: int)
    ensures SignedFits(r, |bs|)
  {
    var u := FromBigEndian(bs);
    HighBit(bs);
    if |bs| > 0 && bs[0] >= 128 then u - Pow256(|bs|) else u
  }

  /** The first byte of a non-empty string has its high bit set exactly when
      the unsigned value is in the upper half of the range. */
  lemma {:induction false} HighBit(bs: bytes)
    ensures |bs| > 0 ==> Pow256(|bs|) / 2 == 128 * Pow256(|bs| - 1)
    ensures |bs| > 0 ==> (bs[0] >= 128 <==> FromBigEndian(bs) >= Pow256(|bs|) / 2)
  {
    if |bs| > 1 {
      var init := bs[..|bs| - 1];
      HighBit(init);
      assert init[0] == bs[0];
      assert Pow256(|bs| - 1) == 256 * Pow256(|bs| - 2);
    }
  }

  /** `n.to_bytes(width, "big", signed=True)` for a value that fits. */
  function ToSignedBigEndian(n: int, width: nat): (r: bytes)
    requires SignedFits(n, width)
    ensures |r| == width
    ensures FromSignedBigEndian(r) == n
  {
    var r := ToBigEndian(if n < 0 then n + Pow256(width) else n, width);
    HighBit(r);
    r
  }

  /** `n.to_bytes(width, "big", signed=True)`, raising OverflowError when `n`
      does not fit. */
  function IntToSignedBytes(n: int, width: nat): (r: Result<bytes>)
    ensures r.Ok? <==> SignedFits(n, width)
    ensures r.Ok? ==> |r.value| == width && FromSignedBigEndian(r.value) == n
    ensures r.Err? ==> r.error == OverflowError
  {
    if SignedFits(n, width) then Ok(ToSignedBigEndian(n, width)) else Err(OverflowError)
  }

  /** The number of bytes of the shortest big-endian encoding of `n`. */
  function ByteLength(n: nat): (k: nat)
    ensures n < Pow256(k)
    ensures k == 0 || Pow256(k - 1) <= n
  {
    if n == 0 then 0 else 1 + ByteLength(n / 256)
  }

  /** `int_to_minimal_unsigned(n)`: the shortest unsigned big-endian encoding
      of `n` (empty for 0). Its Python definition is not part of this model;
      this is the behaviour assumed of it, including OverflowError for a
      negative value, as `int.to_bytes` raises. */
  function IntToMinimalUnsigned(n: int): (r: Result<bytes>)
    ensures r.Ok? <==> n >= 0
    ensures r.Ok? ==> FromBigEndian(r.value) == n
    ensures r.Ok? ==> |r.value| == 0 || r.value[0] != 0
  {
    if n < 0 then Err(OverflowError)
    else
      var k := ByteLength(n);
      LeadingByteNonZero(n);
      Ok(ToBigEndian(n, k))
  }

  lemma LeadingByteNonZero(n: nat)
    ensures var r := ToBigEndian(n, ByteLength(n)); |r| == 0 || r[0] != 0
  {
    var k := ByteLength(n);
    var r := ToBigEndian(n, k);
    if k > 0 && r[0] == 0 {
      DropLeadingZero(r);
    }
  }

  /** A leading zero byte does not change the unsigned value. */
  lemma {:induction false} DropLeadingZero(bs: bytes)
    requires |bs| > 0 && bs[0] == 0
    ensures FromBigEndian(bs) == FromBigEndian(bs[1..])
  {
    if |bs| > 1 {
      var init := bs[..|bs| - 1];
      DropLeadingZero(init);
      assert bs[1..][..|bs| - 2] == init[1..];
    }
  }

  /** The shortest encoding of a value below 256^width is at most `width`
      bytes long, so a parser that accepts `width` bytes accepts it. */
  lemma MinimalUnsignedFits(n: nat, width: nat)
    requires n < Pow256(width)
    ensures |IntToMinimalUnsigned(n).value| <= width
  {
    var k := ByteLength(n);
    if k > width {
      Pow256Monotonic(width, k - 1);
    }
  }

  predicate IsAscii(s: string) {
    forall i :: 0 <= i < |s| ==> s[i] as int < 128
  }

  /** `s.encode("ascii")`. */
  function EncodeAscii(s: string): (r: Result<bytes>)
    ensures r.Ok? <==> IsAscii(s)
    ensures r.Err? ==> r.error == UnicodeEncodeError
    ensures r.Ok? ==> |r.value| == |s| && forall i :: 0 <= i < |s| ==> r.value[i] == s[i] as int
  {
    if s == [] then Ok([])
    else
      var init := s[..|s| - 1];
      assert forall i :: 0 <= i < |init| ==> init[i] == s[i];
      match EncodeAscii(init)
      case Err(e) => Err(e)
      case Ok(encoded) =>
        if s[|s| - 1] as int < 128 then Ok(encoded + [s[|s| - 1] as int]) else Err(UnicodeEncodeError)
  }

  /** `bs.decode("ascii")`; the UnicodeDecodeError it raises is a ValueError. */
  function DecodeAscii(bs: bytes): (r: Result<string>)
    ensures r.Ok? <==> forall i :: 0 <= i < |bs| ==> bs[i] < 128
    ensures r.Ok? ==> |r.value| == |bs| && forall i :: 0 <= i < |bs| ==> r.value[i] as int == bs[i]
    ensures r.Err? ==> r.error == ValueError
  {
    if bs == [] then Ok([])
    else
      var init := bs[..|bs| - 1];
      assert forall i :: 0 <= i < |init| ==> init[i] == bs[i];
      match DecodeAscii(init)
      case Err(e) => Err(e)
      case Ok(text) =>
        if bs[|bs| - 1] < 128 then Ok(text + [bs[|bs| - 1] as char]) else Err(ValueError)
  }

  /** Decoding the ASCII encoding of a name gives the name back. */
  lemma AsciiRoundTrip(s: string)
    requires IsAscii(s)
    ensures DecodeAscii(EncodeAscii(s).value) == Ok(s)
  {
    var b := EncodeAscii(s).value;
    var d := DecodeAscii(b).value;
    assert forall i :: 0 <= i < |s| ==> d[i] as int == s[i] as int;
    assert d == s;
  }

  /** Conversely, bytes that decode as ASCII are the encoding of the text
      they decode to. */
  lemma AsciiDecodeRoundTrip(bs: bytes)
    requires DecodeAscii(bs).Ok?
    ensures IsAscii(DecodeAscii(bs).value) && EncodeAscii(DecodeAscii(bs).value) == Ok(bs)
  {
    var s := DecodeAscii(bs).value;
    assert IsAscii(s);
    var e := EncodeAscii(s).value;
    assert forall i :: 0 <= i < |bs| ==> e[i] == bs[i];
    assert e == bs;
  }

  /** The byte that starts the UTF-8 encoding of a character announces how
      many bytes the encoding has. */
  function Utf8Length(lead: uint8): nat {
    if lead < 0x80 then 1 else if lead < 0xE0 then 2 else if lead < 0xF0 then 3 else 4
  }

  /** The code point that the UTF-8 bytes of one character stand for. */
  function Utf8Value(bs: bytes): int
    requires 1 <= |bs| <= 4
  {
    var b0: int, b1: int := bs[0], if |bs| > 1 then bs[1] else 0;
    if |bs| == 1 then b0
    else if |bs| == 2 then (b0 - 0xC0) * 64 + (b1 - 0x80)
    else if |bs| == 3 then (b0 - 0xE0) * 4096 + (b1 - 0x80) * 64 + (bs[2] as int - 0x80)
    else (b0 - 0xF0) * 262144 + (b1 - 0x80) * 4096 + (bs[2] as int - 0x80) * 64 + (bs[3] as int - 0x80)
  }

  function Utf8Two(n: int): (r: bytes)
    requires 0x80 <= n < 0x800
    ensures |r| == 2 && Utf8Length(r[0]) == 2 && Utf8Value(r) == n
  {
    [0xC0 + n / 64, 0x80 + n % 64]
  }

  function Utf8Three(n: int): (r: bytes)
    requires 0x800 <= n < 0x10000
    ensures |r| == 3 && Utf8Length(r[0]) == 3 && Utf8Value(r) == n
  {
    var hi, mid, lo := n / 4096, (n / 64) % 64, n % 64;
    assert n / 64 == hi * 64 + mid;
    [0xE0 + hi, 0x80 + mid, 0x80 + lo]
  }

  function Utf8Four(n: int): (r: bytes)
    requires 0x10000 <= n <= 0x10FFFF
    ensures |r| == 4 && Utf8Length(r[0]) == 4 && Utf8Value(r) == n
  {
    var top, hi, mid, lo := n / 262144, (n / 4096) % 64, (n / 64) % 64, n % 64;
    assert n / 4096 == top * 64 + hi;
    assert n / 64 == (n / 4096) * 64 + mid;
    [0xF0 + top, 0x80 + hi, 0x80 + mid, 0x80 + lo]
  }

  /** The UTF-8 encoding of one character (`str.encode("utf-8")` of a string
      of length one). */
  function Utf8Char(c: char): (r: bytes)
    ensures 1 <= |r| <= 4
    ensures Utf8Length(r[0]) == |r|
    ensures Utf8Value(r) == c as int
  {
    var n := c as int;
    if n < 0x80 then [n]
    else if n < 0x800 then Utf8Two(n)
    else if n < 0x10000 then Utf8Three(n)
    else Utf8Four(n)
  }

  /** `s.encode("utf-8")`. */
  function Utf8(s: string): (r: bytes)
    ensures |r| >= |s|
  {
    if s == [] then [] else Utf8Char(s[0]) + Utf8(s[1..])
  }

  /** UTF-8 is a prefix code: the encoding of a string determines the
      string. */
  lemma {:induction false} Utf8Injective(s: string, t: string)
    requires Utf8(s) == Utf8(t)
    ensures s == t
  {
    if s != [] && t != [] {
      var a, b := Utf8Char(s[0]), Utf8Char(t[0]);
      assert Utf8(s) == a + Utf8(s[1..]);
      assert Utf8(t) == b + Utf8(t[1..]);
      assert a[0] == Utf8(s)[0] == b[0];
      assert |a| == |b|;
      assert a == Utf8(s)[..|a|] == b;
      assert s[0] as int == t[0] as int;
      assert Utf8(s[1..]) == Utf8(s)[|a|..] == Utf8(t[1..]);
      Utf8Injective(s[1..], t[1..]);
    }
  }
}
