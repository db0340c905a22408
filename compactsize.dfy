/** Bitcoin's CompactSize variable-length integer and the length-prefixed
    byte strings built on it, as the wallet's `wire.WriteVarBytes` and
    `wire.ReadVarBytes` use them (protocol version 0). A value below 0xfd is
    one byte; otherwise a marker byte 0xfd, 0xfe or 0xff is followed by the
    value as a 2-, 4- or 8-byte little-endian integer. The reader refuses a
    value written in a longer form than it needs. */
module CompactSize {
  import opened Common

  function Pow256(width: nat): (p: nat)
    ensures p > 0
  {
    if width == 0 then 1 else 256 * Pow256(width - 1)
  }

  lemma Pow256Values()
    ensures Pow256(2) == 0x1_0000
    ensures Pow256(4) == 0x1_0000_0000
    ensures Pow256(8) == TwoTo64
  {
    assert Pow256(1) == 256;
    assert Pow256(2) == 0x1_0000;
    assert Pow256(3) == 0x100_0000;
    assert Pow256(4) == 0x1_0000_0000;
    assert Pow256(5) == 0x100_0000_0000;
    assert Pow256(6) == 0x1_0000_0000_0000;
    assert Pow256(7) == 0x100_0000_0000_0000;
  }

  /** `n` as exactly `width` little-endian bytes. */
  function LittleEndian(n: nat, width: nat): (r: Bytes)
    requires n < Pow256(width)
    ensures |r| == width
    decreases width
  {
    if width == 0 then [] else [(n % 256) as byte] + LittleEndian(n / 256, width - 1)
  }

  /** The value of a little-endian byte string. */
  function FromLittleEndian(bs: Bytes): (n: nat)
    ensures n < Pow256(|bs|)
  {
    if bs == [] then 0 else bs[0] as nat + 256 * FromLittleEndian(bs[1..])
  }

  lemma {:induction false} FromToLittleEndian(n: nat, width: nat)
    requires n < Pow256(width)
    ensures FromLittleEndian(LittleEndian(n, width)) == n
    decreases width
  {
    if width > 0 {
      FromToLittleEndian(n / 256, width - 1);
      var r := LittleEndian(n, width);
      assert r[1..] == LittleEndian(n / 256, width - 1);
    }
  }

  lemma {:induction false} ToFromLittleEndian(bs: Bytes)
    ensures LittleEndian(FromLittleEndian(bs), |bs|) == bs
  {
    if bs != [] {
      ToFromLittleEndian(bs[1..]);
      var n := FromLittleEndian(bs);
      assert n % 256 == bs[0] as nat;
      assert n / 256 == FromLittleEndian(bs[1..]);
    }
  }

  /** `wire.WriteVarInt`: the shortest CompactSize form of `n`. */
  function WriteVarInt(n: nat): (r: Bytes)
    requires n < TwoTo64
    ensures 1 <= |r| <= 9
    ensures n < 0xfd <==> |r| == 1
  {
    Pow256Values();
    if n < 0xfd then [n as byte]
    else if n <= 0xffff then [0xfd] + LittleEndian(n, 2)
    else if n <= 0xffff_ffff then [0xfe] + LittleEndian(n, 4)
    else [0xff] + LittleEndian(n, 8)
  }

  /** `wire.ReadVarInt` on a buffer: the value and the unread rest. Fails on
      a short buffer and on a value encoded in a longer form than needed. */
  function ReadVarInt(bs: Bytes): (r: Result<(nat, Bytes)>)
    ensures r.Ok? ==> r.value.0 < TwoTo64 && bs == WriteVarInt(r.value.0) + r.value.1
  {
    if |bs| == 0 then Err(Truncated)
    else if bs[0] < 0xfd then Ok((bs[0] as nat, bs[1..]))
    else
      var width: nat := if bs[0] == 0xfd then 2 else if bs[0] == 0xfe then 4 else 8;
      var least: nat := if bs[0] == 0xfd then 0xfd else if bs[0] == 0xfe then 0x1_0000 else 0x1_0000_0000;
      if |bs| < 1 + width then Err(Truncated)
      else
        var v := FromLittleEndian(bs[1..1 + width]);
        if v < least then Err(NonCanonical)
        else
          ReadVarIntSound(bs, width, v);
          Ok((v, bs[1 + width..]))
  }

  /** A long form that passes the canonical check is what `WriteVarInt`
      writes for its value. */
  lemma ReadVarIntSound(bs: Bytes, width: nat, v: nat)
    requires |bs| >= 1 + width && bs[0] >= 0xfd
    requires width == if bs[0] == 0xfd then 2 else if bs[0] == 0xfe then 4 else 8
    requires v == FromLittleEndian(bs[1..1 + width])
    requires v >= if bs[0] == 0xfd then 0xfd else if bs[0] == 0xfe then 0x1_0000 else 0x1_0000_0000
    ensures v < TwoTo64 && bs == WriteVarInt(v) + bs[1 + width..]
  {
    ToFromLittleEndian(bs[1..1 + width]);
    LongForm(bs[0], width, v);
    SplitHead(bs, 1 + width);
  }

  /** A buffer is its first byte, the next bytes up to `k`, and the rest. */
  lemma SplitHead(bs: Bytes, k: nat)
    requires 1 <= k <= |bs|
    ensures bs == [bs[0]] + bs[1..k] + bs[k..]
  {
    assert bs == bs[..1] + bs[1..k] + bs[k..];
  }

  /** The long form `WriteVarInt` picks for a value at least 0xfd. */
  lemma LongForm(marker: byte, width: nat, v: nat)
    requires marker >= 0xfd
    requires width == if marker == 0xfd then 2 else if marker == 0xfe then 4 else 8
    requires v < Pow256(width)
    requires v >= if marker == 0xfd then 0xfd else if marker == 0xfe then 0x1_0000 else 0x1_0000_0000
    ensures v < TwoTo64 && WriteVarInt(v) == [marker] + LittleEndian(v, width)
  {
    Pow256Values();
  }

  lemma ReadWriteVarInt(n: nat, rest: Bytes)
    requires n < TwoTo64
    ensures ReadVarInt(WriteVarInt(n) + rest) == Ok((n, rest))
  {
    Pow256Values();
    var bs := WriteVarInt(n) + rest;
    if n >= 0xfd {
      var width: nat := if n <= 0xffff then 2 else if n <= 0xffff_ffff then 4 else 8;
      assert bs[1..1 + width] == LittleEndian(n, width);
      FromToLittleEndian(n, width);
      assert bs[1 + width..] == rest;
    }
  }

  /** `wire.WriteVarBytes`: the CompactSize length followed by the bytes. */
  function WriteVarBytes(s: Segment): (r: Bytes)
    ensures |r| > |s|
  {
    WriteVarInt(|s|) + s
  }

  /** `wire.ReadVarBytes` with a size limit: one length-prefixed element and
      the unread rest. A declared length over `maxAllowed` fails before any
      element byte is read; a buffer shorter than the declared length fails. */
  function ReadVarBytes(bs: Bytes, maxAllowed: nat): (r: Result<(Bytes, Bytes)>)
    ensures r.Ok? ==> |r.value.0| <= maxAllowed && |r.value.0| < TwoTo64
    ensures r.Ok? ==> bs == WriteVarBytes(r.value.0) + r.value.1
  {
    match ReadVarInt(bs)
    case Err(e) => Err(e)
    case Ok((count, rest)) =>
      if count > maxAllowed then Err(TooLong)
      else if |rest| < count then Err(Truncated)
      else
        ReadVarBytesSound(bs, count, rest);
        Ok((rest[..count], rest[count..]))
  }

  /** A length prefix followed by at least that many bytes is one element
      as `WriteVarBytes` writes it, then the rest. */
  lemma ReadVarBytesSound(bs: Bytes, count: nat, rest: Bytes)
    requires count < TwoTo64 && count <= |rest|
    requires bs == WriteVarInt(count) + rest
    ensures bs == WriteVarBytes(rest[..count]) + rest[count..]
  {
    var seg: Segment := rest[..count];
    assert rest == seg + rest[count..];
    assert WriteVarBytes(seg) == WriteVarInt(count) + seg;
  }

  /** Reading back what `WriteVarBytes` wrote yields the element and leaves
      whatever followed it. */
  lemma {:induction false} ReadWriteVarBytes(s: Segment, rest: Bytes, maxAllowed: nat)
    requires |s| <= maxAllowed
    ensures ReadVarBytes(WriteVarBytes(s) + rest, maxAllowed) == Ok((s, rest))
  {
    ReadWriteVarInt(|s|, s + rest);
    assert WriteVarBytes(s) + rest == WriteVarInt(|s|) + (s + rest);
    assert (s + rest)[..|s|] == s;
    assert (s + rest)[|s|..] == rest;
  }

  /** An element longer than the limit is refused with `TooLong`. */
  lemma {:induction false} ReadVarBytesTooLong(s: Segment, rest: Bytes, maxAllowed: nat)
    requires |s| > maxAllowed
    ensures ReadVarBytes(WriteVarBytes(s) + rest, maxAllowed) == Err(TooLong)
  {
    ReadWriteVarInt(|s|, s + rest);
    assert WriteVarBytes(s) + rest == WriteVarInt(|s|) + (s + rest);
  }
}
