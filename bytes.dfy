/**
  Little-endian fixed-width fields inside a byte sequence, as read by Go's
  binary.LittleEndian.Uint16 / Uint32, and the writers that are their inverses.
 */
module Bytes {

  type byte = x: int | 0 <= x < 256

  const TwoTo16: int := 0x1_0000
  const TwoTo32: int := 0x1_0000_0000

  /** The unsigned 16-bit little-endian value stored at s[at], s[at+1]. */
  function LE16(s: seq<byte>, at: nat): (v: nat)
    requires at + 2 <= |s|
    ensures v < TwoTo16
    ensures v % 256 == s[at] && v / 256 == s[at + 1]
  {
    s[at] as nat + 256 * (s[at + 1] as nat)
  }

  /** The unsigned 32-bit little-endian value stored at s[at..at+4]. */
  function LE32(s: seq<byte>, at: nat): (v: nat)
    requires at + 4 <= |s|
    ensures v < TwoTo32
    ensures v % TwoTo16 == LE16(s, at) && v / TwoTo16 == LE16(s, at + 2)
  {
    LE16(s, at) + TwoTo16 * LE16(s, at + 2)
  }

  /** The two bytes of v, least significant first. */
  function Encode16(v: nat): (b: seq<byte>)
    requires v < TwoTo16
    ensures |b| == 2
  {
    [v % 256, v / 256]
  }

  /** The four bytes of v, least significant first. */
  function Encode32(v: nat): (b: seq<byte>)
    requires v < TwoTo32
    ensures |b| == 4
  {
    Encode16(v % TwoTo16) + Encode16(v / TwoTo16)
  }

  /** s with the 16-bit field at `at` replaced by v. */
  function Put16(s: seq<byte>, at: nat, v: nat): (r: seq<byte>)
    requires at + 2 <= |s| && v < TwoTo16
    ensures |r| == |s|
    ensures forall k :: 0 <= k < |s| && !(at <= k < at + 2) ==> r[k] == s[k]
  {
    s[..at] + Encode16(v) + s[at + 2..]
  }

  /** s with the 32-bit field at `at` replaced by v. */
  function Put32(s: seq<byte>, at: nat, v: nat): (r: seq<byte>)
    requires at + 4 <= |s| && v < TwoTo32
    ensures |r| == |s|
    ensures forall k :: 0 <= k < |s| && !(at <= k < at + 4) ==> r[k] == s[k]
  {
    s[..at] + Encode32(v) + s[at + 4..]
  }

  /** Reading back a written 16-bit field gives the value written. */
  lemma LE16Put16(s: seq<byte>, at: nat, v: nat)
    requires at + 2 <= |s| && v < TwoTo16
    ensures LE16(Put16(s, at, v), at) == v
  {
    var r := Put16(s, at, v);
    assert r[at] == v % 256 && r[at + 1] == v / 256;
  }

  /** Reading back a written 32-bit field gives the value written. */
  lemma LE32Put32(s: seq<byte>, at: nat, v: nat)
    requires at + 4 <= |s| && v < TwoTo32
    ensures LE32(Put32(s, at, v), at) == v
  {
    var r := Put32(s, at, v);
    var lo, hi := v % TwoTo16, v / TwoTo16;
    assert r[at] == lo % 256 && r[at + 1] == lo / 256;
    assert r[at + 2] == hi % 256 && r[at + 3] == hi / 256;
    assert LE16(r, at) == lo;
    assert LE16(r, at + 2) == hi;
  }

  /** Writing back the 32-bit field just read leaves the bytes unchanged. */
  lemma Put32LE32(s: seq<byte>, at: nat)
    requires at + 4 <= |s|
    ensures Put32(s, at, LE32(s, at)) == s
  {
    var r := Put32(s, at, LE32(s, at));
    forall k | 0 <= k < |s| ensures r[k] == s[k] {
      if at <= k < at + 4 {
        assert r[at] == s[at] && r[at + 1] == s[at + 1];
        assert r[at + 2] == s[at + 2] && r[at + 3] == s[at + 3];
      }
    }
  }

  /** Writing back the 16-bit field just read leaves the bytes unchanged. */
  lemma Put16LE16(s: seq<byte>, at: nat)
    requires at + 2 <= |s|
    ensures Put16(s, at, LE16(s, at)) == s
  {
    var r := Put16(s, at, LE16(s, at));
    forall k | 0 <= k < |s| ensures r[k] == s[k] {
      if at <= k < at + 2 {
        assert r[at] == s[at] && r[at + 1] == s[at + 1];
      }
    }
  }

  /** A 32-bit field can be read from any sequence that agrees on its four bytes. */
  lemma LE32Frame(s: seq<byte>, t: seq<byte>, at: nat)
    requires at + 4 <= |s| && at + 4 <= |t|
    requires s[at..at + 4] == t[at..at + 4]
    ensures LE32(s, at) == LE32(t, at)
  {
    assert s[at] == s[at..at + 4][0] && t[at] == t[at..at + 4][0];
    assert s[at + 1] == s[at..at + 4][1] && t[at + 1] == t[at..at + 4][1];
    assert s[at + 2] == s[at..at + 4][2] && t[at + 2] == t[at..at + 4][2];
    assert s[at + 3] == s[at..at + 4][3] && t[at + 3] == t[at..at + 4][3];
  }
}
