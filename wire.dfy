/**
 * Byte-level vocabulary shared by every part of the relay: octets, the
 * 4-byte big-endian length prefix that frames every message on a stream
 * socket, and the strict UTF-8 check that Python's `bytes.decode('utf-8')`
 * applies before a user name or sender id is used.
 */
module Wire {

  /** One element of a Python `bytes` value. */
  type byte = x: int | 0 <= x < 256

  datatype Option<T> = None | Some(value: T)

  function Min(a: nat, b: nat): nat { if a < b then a else b }

  /** `n.to_bytes(4, 'big')` raises OverflowError from this value on. */
  const UINT32_LIMIT: nat := 0x1_0000_0000

  function Pow256(k: nat): (p: nat)
    ensures p >= 1
  {
    if k == 0 then 1 else 256 * Pow256(k - 1)
  }

  /** `int.from_bytes(s, 'big')`; Python accepts a byte string of any length here. */
  function FromBigEndian(s: seq<byte>): (n: nat)
    ensures n < Pow256(|s|)
  {
    if s == [] then 0 else FromBigEndian(s[..|s| - 1]) * 256 + s[|s| - 1]
  }

  lemma FromBigEndianOfFour(a: byte, b: byte, c: byte, d: byte)
    ensures FromBigEndian([a, b, c, d]) == a * 0x100_0000 + b * 0x1_0000 + c * 0x100 + d
  {
    assert [a, b, c, d][..3] == [a, b, c];
    assert [a, b, c][..2] == [a, b];
    assert [a, b][..1] == [a];
    assert [a][..0] == [];
    assert FromBigEndian([a]) == a;
    assert FromBigEndian([a, b]) == a * 256 + b;
    assert FromBigEndian([a, b, c]) == (a * 256 + b) * 256 + c;
  }

  /** `n.to_bytes(4, 'big')` for a length that fits in 32 bits. */
  function BigEndian4(n: nat): (r: seq<byte>)
    requires n < UINT32_LIMIT
    ensures |r| == 4 && FromBigEndian(r) == n
  {
    var r := [n / 0x100_0000, (n / 0x1_0000) % 256, (n / 0x100) % 256, n % 256];
    FromBigEndianOfFour(r[0], r[1], r[2], r[3]);
    r
  }

  /**
   * A length-prefixed message, `len(data).to_bytes(4, 'big') + data`, or None
   * where `to_bytes` raises because the length does not fit in 32 bits.
   */
  function Frame(data: seq<byte>): (r: Option<seq<byte>>)
    ensures r.Some? <==> |data| < UINT32_LIMIT
    ensures r.Some? ==> |r.value| == 4 + |data| && r.value[4..] == data
    ensures r.Some? ==> FromBigEndian(r.value[..4]) == |data|
  {
    if |data| < UINT32_LIMIT then
      var m := BigEndian4(|data|) + data;
      assert m[..4] == BigEndian4(|data|);
      Some(m)
    else None
  }

  /**
   * What a receiver recovers from a stream that holds a whole header and
   * payload: the payload and the bytes after it, or None when the stream is
   * shorter than its header announces.
   */
  function ParseFrame(s: seq<byte>): (r: Option<(seq<byte>, seq<byte>)>)
    ensures r.Some? ==> Frame(r.value.0).Some? && s == Frame(r.value.0).value + r.value.1
  {
    if |s| < 4 then None
    else
      var n := FromBigEndian(s[..4]);
      if |s| - 4 < n then None
      else
        assert n < UINT32_LIMIT by { assert Pow256(4) == UINT32_LIMIT; }
        assert s == s[..4] + s[4..4 + n] + s[4 + n..];
        assert s[..4] == BigEndian4(n) by { BigEndian4Injective(s[..4], n); }
        Some((s[4..4 + n], s[4 + n..]))
  }

  lemma BigEndian4Injective(h: seq<byte>, n: nat)
    requires |h| == 4 && n < UINT32_LIMIT && FromBigEndian(h) == n
    ensures h == BigEndian4(n)
  {
    assert h == [h[0], h[1], h[2], h[3]];
    FromBigEndianOfFour(h[0], h[1], h[2], h[3]);
    var a: int, b: int, c: int, d: int := h[0], h[1], h[2], h[3];
    assert n / 0x100_0000 == a;
    assert n / 0x1_0000 == a * 256 + b;
    assert (a * 256 + b) % 256 == b;
    assert n / 0x100 == a * 0x1_0000 + b * 256 + c;
    assert (a * 0x1_0000 + b * 256 + c) % 256 == c;
    assert n % 256 == d;
  }

  /** The framing round trip: a receiver parses back exactly what was framed. */
  lemma FrameRoundTrip(data: seq<byte>, rest: seq<byte>)
    requires |data| < UINT32_LIMIT
    ensures ParseFrame(Frame(data).value + rest) == Some((data, rest))
  {
    var s := Frame(data).value + rest;
    assert s[..4] == Frame(data).value[..4];
    assert s[4..4 + |data|] == data;
    assert s[4 + |data|..] == rest;
  }

  /** A continuation byte `10xxxxxx`. */
  predicate IsTail(b: byte) { 0x80 <= b <= 0xBF }

  /**
   * The number of bytes of the well-formed UTF-8 sequence at the start of s
   * (the syntax of section 4 of RFC 3629, which Python's strict decoder
   * enforces: no overlong forms, no surrogates, nothing above U+10FFFF), or 0
   * when s does not start with one.
   */
  function LeadWidth(s: seq<byte>): (w: nat)
    ensures w <= |s| && (s != [] && s[0] < 0x80 ==> w == 1)
  {
    if s == [] then 0
    else if s[0] < 0x80 then 1
    else if 0xC2 <= s[0] <= 0xDF then
      if |s| >= 2 && IsTail(s[1]) then 2 else 0
    else if 0xE0 <= s[0] <= 0xEF then
      var lo := if s[0] == 0xE0 then 0xA0 else 0x80;
      var hi := if s[0] == 0xED then 0x9F else 0xBF;
      if |s| >= 3 && lo <= s[1] <= hi && IsTail(s[2]) then 3 else 0
    else if 0xF0 <= s[0] <= 0xF4 then
      var lo := if s[0] == 0xF0 then 0x90 else 0x80;
      var hi := if s[0] == 0xF4 then 0x8F else 0xBF;
      if |s| >= 4 && lo <= s[1] <= hi && IsTail(s[2]) && IsTail(s[3]) then 4 else 0
    else 0
  }

  /** `s.decode('utf-8')` succeeds. */
  predicate IsUtf8(s: seq<byte>)
    decreases |s|
  {
    s == [] || (LeadWidth(s) > 0 && IsUtf8(s[LeadWidth(s)..]))
  }

  predicate IsAscii(s: seq<byte>) { forall i :: 0 <= i < |s| ==> s[i] < 0x80 }

  /** ASCII text (such as the textual UUID a client uses as its id) always decodes. */
  lemma {:induction false} AsciiIsUtf8(s: seq<byte>)
    requires IsAscii(s)
    ensures IsUtf8(s)
    decreases |s|
  {
    if s != [] {
      assert LeadWidth(s) == 1;
      assert IsAscii(s[1..]) by {
        forall i | 0 <= i < |s| - 1 ensures s[1..][i] < 0x80 { assert s[1..][i] == s[i + 1]; }
      }
      AsciiIsUtf8(s[1..]);
    }
  }
}
