/** Bytes and big-endian integers. */
module Bytes {
  import opened Errors

  type u16 = n: int | 0 <= n < 0x1_0000
  type u32 = n: int | 0 <= n < 0x1_0000_0000
  type u64 = n: int | 0 <= n < 0x1_0000_0000_0000_0000

  /** Where `u64` wraps around. */
  const U64: nat := 0x1_0000_0000_0000_0000

  const CRLF: seq<byte> := [0x0d, 0x0a]

  /** `u16::to_be_bytes`. */
  function Be16(n: u16): (bs: seq<byte>)
    ensures |bs| == 2 && FromBe16(bs[0], bs[1]) == n
  {
    [n / 0x100, n % 0x100]
  }

  /** `u16::from_be_bytes`. */
  function FromBe16(hi: byte, lo: byte): (n: u16)
    ensures n / 0x100 == hi && n % 0x100 == lo
  {
    hi * 0x100 + lo
  }

  /** The `width` low-order bytes of `n`, most significant first. */
  function BigEndian(n: nat, width: nat): (bs: seq<byte>)
    ensures |bs| == width
  {
    if width == 0 then [] else BigEndian(n / 0x100, width - 1) + [n % 0x100]
  }

  function FromBigEndian(bs: seq<byte>): nat {
    if bs == [] then 0 else FromBigEndian(bs[..|bs| - 1]) * 0x100 + bs[|bs| - 1]
  }

  function Pow256(k: nat): nat {
    if k == 0 then 1 else 0x100 * Pow256(k - 1)
  }

  lemma {:induction false} FromBigEndianBound(bs: seq<byte>)
    ensures FromBigEndian(bs) < Pow256(|bs|)
  {
    if bs != [] {
      FromBigEndianBound(bs[..|bs| - 1]);
    }
  }

  lemma {:induction false} BigEndianDecodes(n: nat, width: nat)
    requires n < Pow256(width)
    ensures FromBigEndian(BigEndian(n, width)) == n
  {
    if width != 0 {
      var bs := BigEndian(n, width);
      BigEndianDecodes(n / 0x100, width - 1);
      assert bs[..width - 1] == BigEndian(n / 0x100, width - 1);
    }
  }

  lemma {:induction false} BigEndianEncodes(bs: seq<byte>)
    ensures BigEndian(FromBigEndian(bs), |bs|) == bs
  {
    if bs != [] {
      BigEndianEncodes(bs[..|bs| - 1]);
    }
  }

  lemma Pow256Of8()
    ensures Pow256(8) == 0x1_0000_0000_0000_0000
  {
    assert Pow256(4) == 0x1_0000_0000;
    assert Pow256(6) == 0x1_0000_0000_0000;
  }

  /** `u64::to_be_bytes` and `u64::from_be_bytes`. */
  function Be64(n: u64): (bs: seq<byte>)
    ensures |bs| == 8 && FromBe64(bs) == n
  {
    Pow256Of8();
    BigEndianDecodes(n, 8);
    BigEndian(n, 8)
  }

  function FromBe64(bs: seq<byte>): u64
    requires |bs| == 8
  {
    Pow256Of8();
    FromBigEndianBound(bs);
    FromBigEndian(bs)
  }

  lemma Be64OfFromBe64(bs: seq<byte>)
    requires |bs| == 8
    ensures Be64(FromBe64(bs)) == bs
  {
    BigEndianEncodes(bs);
  }

  /** `Be64` puts the most significant byte first. */
  lemma Be64Layout(n: u64)
    ensures var bs := Be64(n);
            n == ((((((bs[0] as int * 0x100 + bs[1]) * 0x100 + bs[2]) * 0x100 + bs[3]) * 0x100
                    + bs[4]) * 0x100 + bs[5]) * 0x100 + bs[6]) * 0x100 + bs[7]
  {
    var bs := Be64(n);
    forall k | 1 <= k <= 8
      ensures bs[..k][..k - 1] == bs[..k - 1]
      ensures FromBigEndian(bs[..k]) == FromBigEndian(bs[..k - 1]) * 0x100 + bs[k - 1]
    {
    }
    assert bs[..8] == bs && bs[..0] == [];
    assert FromBigEndian(bs[..1]) == bs[0] as int;
  }

  /** The two bytes are the same, or the two cases of one ASCII letter. */
  predicate SameLetter(a: byte, b: byte) {
    || a == b
    || (0x41 <= a <= 0x5a && b as int == a as int + 0x20)
    || (0x41 <= b <= 0x5a && a as int == b as int + 0x20)
  }

  /** `eq_ignore_ascii_case`, byte by byte. */
  lemma EqIgnoreAsciiCaseByLetters(a: seq<byte>, b: seq<byte>)
    ensures EqIgnoreAsciiCase(a, b) <==> |a| == |b| && forall i :: 0 <= i < |a| ==> SameLetter(a[i], b[i])
  {
    forall x: byte, y: byte
      ensures Lower(x) == Lower(y) <==> SameLetter(x, y)
    {
    }
  }

  /** A wrapping counter holds the total, wrapped. */
  lemma CountersAdd(total: nat, n: nat)
    ensures (total % U64 + n) % U64 == (total + n) % U64
  {
  }

  /** A slice that falls together with a summand. */
  lemma Between(pre: seq<byte>, mid: seq<byte>, post: seq<byte>)
    ensures (pre + mid + post)[|pre|..|pre| + |mid|] == mid
    ensures (pre + mid + post)[|pre|..] == mid + post
  {
  }

  // ---------------------------------------------------------------- ASCII

  /** `u8::is_ascii_hexdigit`. */
  predicate IsHexDigit(b: byte) {
    0x30 <= b <= 0x39 || 0x41 <= b <= 0x46 || 0x61 <= b <= 0x66
  }

  predicate AllHex(bs: seq<byte>) {
    forall i :: 0 <= i < |bs| ==> IsHexDigit(bs[i])
  }

  /** `u8::to_ascii_lowercase`. */
  function Lower(b: byte): byte {
    if 0x41 <= b <= 0x5a then b + 0x20 else b
  }

  /** `[u8]::eq_ignore_ascii_case`. */
  predicate EqIgnoreAsciiCase(a: seq<byte>, b: seq<byte>) {
    |a| == |b| && forall i :: 0 <= i < |a| ==> Lower(a[i]) == Lower(b[i])
  }
}
