/** Bytes, fixed-width integers and the big-endian forms the wire formats use. */
module Bytes {

  type byte = b: int | 0 <= b < 0x100
  type bytes = seq<byte>
  type uint16 = x: int | 0 <= x < 0x1_0000
  type uint32 = x: int | 0 <= x < 0x1_0000_0000
  type uint64 = x: int | 0 <= x < 0x1_0000_0000_0000_0000

  const MAX_INT64 := 0x7FFF_FFFF_FFFF_FFFF

  type int64 = x: int | -0x8000_0000_0000_0000 <= x <= MAX_INT64

  function Min(x: int, y: int): int {
    if x <= y then x else y
  }

  /** 256 to the power `width`. */
  function Range(width: nat): (r: nat)
    ensures r > 0
  {
    if width == 0 then 1 else Range(width - 1) * 0x100
  }

  /** The `width` low-order bytes of `x`, most significant first. */
  function BigEndian(x: nat, width: nat): (r: bytes)
    ensures |r| == width
  {
    if width == 0 then [] else BigEndian(x / 0x100, width - 1) + [x % 0x100]
  }

  function FromBigEndian(s: bytes): nat {
    if s == [] then 0 else FromBigEndian(s[..|s| - 1]) * 0x100 + s[|s| - 1]
  }

  lemma FromBigEndianInRange(s: bytes)
    ensures FromBigEndian(s) < Range(|s|)
  {
  }

  /** Big-endian coding is a bijection between the numbers below 256^width and the byte strings of that width. */
  lemma {:induction false} BigEndianInverse(x: nat, width: nat)
    requires x < Range(width)
    ensures FromBigEndian(BigEndian(x, width)) == x
  {
    if width > 0 {
      BigEndianInverse(x / 0x100, width - 1);
      var r := BigEndian(x, width);
      assert r[..|r| - 1] == BigEndian(x / 0x100, width - 1);
    }
  }

  lemma {:induction false} FromBigEndianInverse(s: bytes)
    ensures BigEndian(FromBigEndian(s), |s|) == s
  {
    if s != [] {
      FromBigEndianInverse(s[..|s| - 1]);
      var last: int := s[|s| - 1];
      assert (FromBigEndian(s[..|s| - 1]) * 0x100 + last) / 0x100 == FromBigEndian(s[..|s| - 1]);
      assert s == s[..|s| - 1] + [s[|s| - 1]];
    }
  }

  lemma Ranges()
    ensures Range(2) == 0x1_0000 && Range(4) == 0x1_0000_0000 && Range(8) == 0x1_0000_0000_0000_0000
  {
    assert Range(4) == Range(3) * 0x100 == Range(2) * 0x1_0000;
    assert Range(8) == Range(7) * 0x100 == Range(6) * 0x1_0000;
    assert Range(6) == Range(5) * 0x100 == Range(4) * 0x1_0000;
  }

  function BE16(x: uint16): (r: bytes)
    ensures |r| == 2
  {
    BigEndian(x, 2)
  }

  function BE32(x: uint32): (r: bytes)
    ensures |r| == 4
  {
    BigEndian(x, 4)
  }

  function BE64(x: uint64): (r: bytes)
    ensures |r| == 8
  {
    BigEndian(x, 8)
  }

  function FromBE16(s: bytes): uint16
    requires |s| == 2
  {
    Ranges();
    FromBigEndianInRange(s);
    FromBigEndian(s)
  }

  function FromBE32(s: bytes): uint32
    requires |s| == 4
  {
    Ranges();
    FromBigEndianInRange(s);
    FromBigEndian(s)
  }

  function FromBE64(s: bytes): uint64
    requires |s| == 8
  {
    Ranges();
    FromBigEndianInRange(s);
    FromBigEndian(s)
  }

  lemma BE16Bijective(x: uint16, s: bytes)
    requires |s| == 2
    ensures FromBE16(BE16(x)) == x
    ensures BE16(FromBE16(s)) == s
  {
    Ranges();
    BigEndianInverse(x, 2);
    FromBigEndianInverse(s);
  }

  lemma BE32Bijective(x: uint32, s: bytes)
    requires |s| == 4
    ensures FromBE32(BE32(x)) == x
    ensures BE32(FromBE32(s)) == s
  {
    Ranges();
    BigEndianInverse(x, 4);
    FromBigEndianInverse(s);
  }

  lemma BE64Bijective(x: uint64, s: bytes)
    requires |s| == 8
    ensures FromBE64(BE64(x)) == x
    ensures BE64(FromBE64(s)) == s
  {
    Ranges();
    BigEndianInverse(x, 8);
    FromBigEndianInverse(s);
  }

  /** In-order concatenation. */
  function Join(parts: seq<bytes>): bytes {
    if parts == [] then [] else parts[0] + Join(parts[1..])
  }

  lemma JoinAppend(xs: seq<bytes>, ys: seq<bytes>)
    ensures Join(xs + ys) == Join(xs) + Join(ys)
  {
    if xs == [] {
      assert xs + ys == ys;
    } else {
      assert (xs + ys)[1..] == xs[1..] + ys;
      JoinAppend(xs[1..], ys);
    }
  }

  lemma JoinSnoc(xs: seq<bytes>, x: bytes)
    ensures Join(xs + [x]) == Join(xs) + x
  {
    JoinAppend(xs, [x]);
    assert Join([x]) == x;
  }

  /** Replacing an empty part by `p` adds |p| to the total length. */
  lemma JoinUpdateLength(parts: seq<bytes>, i: nat, p: bytes)
    requires i < |parts| && parts[i] == []
    ensures |Join(parts[i := p])| == |Join(parts)| + |p|
  {
    if i == 0 {
      assert parts[0 := p][1..] == parts[1..];
    } else {
      assert parts[i := p][1..] == parts[1..][i - 1 := p];
      JoinUpdateLength(parts[1..], i - 1, p);
    }
  }
}
