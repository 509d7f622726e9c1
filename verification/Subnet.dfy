/** The subnet tests of common.c on parsed addresses: both hold exactly when the leading bits agree. */
module Subnet {
  import opened CText

  // ---- bits, most significant first ----

  predicate Bit(x: bv8, j: nat) {
    match j
    case 0 => x & 0x80 != 0
    case 1 => x & 0x40 != 0
    case 2 => x & 0x20 != 0
    case 3 => x & 0x10 != 0
    case 4 => x & 0x08 != 0
    case 5 => x & 0x04 != 0
    case 6 => x & 0x02 != 0
    case _ => x & 0x01 != 0
  }

  predicate AddressBit(a: seq<bv8>, k: nat)
    requires k < 8 * |a|
  {
    Bit(a[k / 8], k % 8)
  }

  /** The first n bits of two addresses agree. */
  ghost predicate Agree(a: seq<bv8>, b: seq<bv8>, n: nat)
    requires |a| == |b| && n <= 8 * |a|
  {
    forall k :: 0 <= k < n ==> AddressBit(a, k) == AddressBit(b, k)
  }

  /** The first r bits of a byte. */
  function Top(x: bv8, r: nat): bv8
    requires r < 8
  {
    x >> (8 - r)
  }

  /** The first r bits put back in their place. */
  function Back(x: bv8, r: nat): bv8
    requires r < 8
  {
    x << (8 - r)
  }

  function Appended(t: bv8, bit: bool): bv8 {
    (t << 1) | (if bit then 1 else 0)
  }

  function Half(t: bv8): bv8 {
    t >> 1
  }

  predicate Odd(t: bv8) {
    t & 1 != 0
  }

  /** Shifting one place less appends one more bit. */
  lemma OneMoreBit(x: bv8, r: nat)
    requires 0 < r < 8
    ensures Top(x, r) == Appended(Top(x, r - 1), Bit(x, r - 1))
    ensures Half(Top(x, r)) == Top(x, r - 1) && Odd(Top(x, r)) == Bit(x, r - 1)
  {
    match r
    case 1 =>
    case 2 =>
    case 3 =>
    case 4 =>
    case 5 =>
    case 6 =>
    case _ =>
  }

  /** Two bytes agree after a right shift exactly when their first r bits do. */
  lemma {:induction false} ShiftedBytes(x: bv8, y: bv8, r: nat)
    requires r < 8
    ensures Top(x, r) == Top(y, r) <==> forall j :: 0 <= j < r ==> Bit(x, j) == Bit(y, j)
  {
    hide Bit;
    if r == 0 {
      assert Top(x, 0) == 0 && Top(y, 0) == 0;
    } else {
      hide Top, Appended, Half, Odd;
      OneMoreBit(x, r);
      OneMoreBit(y, r);
      ShiftedBytes(x, y, r - 1);
    }
  }

  lemma WholeBytes(x: bv8, y: bv8)
    ensures x == y <==> forall j :: 0 <= j < 8 ==> Bit(x, j) == Bit(y, j)
  {
    ShiftedBytes(x, y, 7);
    assert Bit(x, 7) == (x & 0x01 != 0) && Bit(y, 7) == (y & 0x01 != 0);
    assert x == y <==> (x >> 1) == (y >> 1) && (x & 0x01 != 0) == (y & 0x01 != 0);
  }

  // ---- IPv6 ----

  /** Whole bytes first, then the bits of one more. */
  lemma AgreeByBytes(a: seq<bv8>, b: seq<bv8>, n: nat)
    requires |a| == |b| && n <= 8 * |a|
    ensures Agree(a, b, n) <==>
            (forall i :: 0 <= i < n / 8 ==> a[i] == b[i]) &&
            (n % 8 != 0 ==> forall j :: 0 <= j < n % 8 ==> Bit(a[n / 8], j) == Bit(b[n / 8], j))
  {
    if Agree(a, b, n) {
      forall i | 0 <= i < n / 8 ensures a[i] == b[i] {
        forall j | 0 <= j < 8 ensures Bit(a[i], j) == Bit(b[i], j) {
          assert AddressBit(a, 8 * i + j) == AddressBit(b, 8 * i + j);
        }
        WholeBytes(a[i], b[i]);
      }
      if n % 8 != 0 {
        forall j | 0 <= j < n % 8 ensures Bit(a[n / 8], j) == Bit(b[n / 8], j) {
          assert AddressBit(a, 8 * (n / 8) + j) == AddressBit(b, 8 * (n / 8) + j);
        }
      }
    }
  }

  /** is_ipv6_in_subnet, from the parsed addresses onwards. */
  method IsIpv6InSubnet(ip: seq<bv8>, subnet: seq<bv8>, maskLen: int) returns (ret: int)
    requires |ip| == |subnet| == 16
    ensures ret == if 1 <= maskLen <= 128 && Agree(subnet, ip, maskLen) then RET_OK else RET_ERR
  {
    hide Bit, Agree;
    if maskLen > 128 || maskLen < 1 { return RET_ERR; }
    var byteLen := maskLen / 8;
    var bitLen := 8 - maskLen % 8;
    AgreeByBytes(subnet, ip, maskLen);
    var i := 0;
    while i < byteLen
      invariant i <= byteLen && forall k :: 0 <= k < i ==> subnet[k] == ip[k]
    {
      if subnet[i] != ip[i] { return RET_ERR; }
      i := i + 1;
    }
    if byteLen == 16 { return RET_OK; }
    ShiftedBytes(subnet[i], ip[i], maskLen % 8);
    if (subnet[i] >> bitLen) == (ip[i] >> bitLen) { return RET_OK; }
    return RET_ERR;
  }

  // ---- IPv4 ----

  /** The four bytes of an in_addr as a little-endian processor loads them. */
  function Load(b0: bv8, b1: bv8, b2: bv8, b3: bv8): bv32 {
    (b0 as bv32) | ((b1 as bv32) << 8) | ((b2 as bv32) << 16) | ((b3 as bv32) << 24)
  }

  function Loaded(a: seq<bv8>): bv32
    requires |a| == 4
  {
    Load(a[0], a[1], a[2], a[3])
  }

  /** htonl on such a processor. */
  function Htonl(x: bv32): bv32 {
    ((x & 0xff) << 24) | ((x & 0xff00) << 8) | ((x >> 8) & 0xff00) | ((x >> 24) & 0xff)
  }

  function Mask(n: nat): bv32
    requires 1 <= n <= 32
  {
    !((1 << (32 - n)) - 1)
  }

  /** The first k bits of a byte set. */
  function ByteMask(k: int): bv8 {
    if k <= 0 then 0 else match k
    case 1 => 0x80
    case 2 => 0xc0
    case 3 => 0xe0
    case 4 => 0xf0
    case 5 => 0xf8
    case 6 => 0xfc
    case 7 => 0xfe
    case _ => 0xff
  }

  function Masked(x: bv8, m: bv8): bv8 {
    x & m
  }

  function MaskedWord(x: bv32, m: bv32): bv32 {
    x & m
  }

  lemma LoadAnd(b0: bv8, b1: bv8, b2: bv8, b3: bv8, m0: bv8, m1: bv8, m2: bv8, m3: bv8)
    ensures MaskedWord(Load(b0, b1, b2, b3), Load(m0, m1, m2, m3)) ==
            Load(Masked(b0, m0), Masked(b1, m1), Masked(b2, m2), Masked(b3, m3))
  {
  }

  lemma LoadInjective(b0: bv8, b1: bv8, b2: bv8, b3: bv8, c0: bv8, c1: bv8, c2: bv8, c3: bv8)
    requires Load(b0, b1, b2, b3) == Load(c0, c1, c2, c3)
    ensures b0 == c0 && b1 == c1 && b2 == c2 && b3 == c3
  {
  }

  /** In memory the mask has its set bits first. */
  lemma MaskInMemory(n: nat)
    requires 1 <= n <= 32
    ensures Htonl(Mask(n)) == Load(ByteMask(n), ByteMask(n - 8), ByteMask(n - 16), ByteMask(n - 24))
  {
    match n
    case 1 =>
    case 2 =>
    case 3 =>
    case 4 =>
    case 5 =>
    case 6 =>
    case 7 =>
    case 8 =>
    case 9 =>
    case 10 =>
    case 11 =>
    case 12 =>
    case 13 =>
    case 14 =>
    case 15 =>
    case 16 =>
    case 17 =>
    case 18 =>
    case 19 =>
    case 20 =>
    case 21 =>
    case 22 =>
    case 23 =>
    case 24 =>
    case 25 =>
    case 26 =>
    case 27 =>
    case 28 =>
    case 29 =>
    case 30 =>
    case 31 =>
    case _ =>
  }

  lemma MaskedLoads(b0: bv8, b1: bv8, b2: bv8, b3: bv8, c0: bv8, c1: bv8, c2: bv8, c3: bv8, m0: bv8, m1: bv8, m2: bv8, m3: bv8)
    ensures MaskedWord(Load(b0, b1, b2, b3), Load(m0, m1, m2, m3)) == MaskedWord(Load(c0, c1, c2, c3), Load(m0, m1, m2, m3)) <==>
            Masked(b0, m0) == Masked(c0, m0) && Masked(b1, m1) == Masked(c1, m1) &&
            Masked(b2, m2) == Masked(c2, m2) && Masked(b3, m3) == Masked(c3, m3)
  {
    hide Load, Masked, MaskedWord;
    LoadAnd(b0, b1, b2, b3, m0, m1, m2, m3);
    LoadAnd(c0, c1, c2, c3, m0, m1, m2, m3);
    if MaskedWord(Load(b0, b1, b2, b3), Load(m0, m1, m2, m3)) == MaskedWord(Load(c0, c1, c2, c3), Load(m0, m1, m2, m3)) {
      LoadInjective(Masked(b0, m0), Masked(b1, m1), Masked(b2, m2), Masked(b3, m3),
                    Masked(c0, m0), Masked(c1, m1), Masked(c2, m2), Masked(c3, m3));
    }
  }

  /** The first k bits of two bytes agree, counting none below zero and no more than eight. */
  ghost predicate FirstBits(x: bv8, y: bv8, k: int) {
    forall j :: 0 <= j < 8 && j < k ==> Bit(x, j) == Bit(y, j)
  }

  lemma MaskAsShift(x: bv8, k: nat)
    requires 1 <= k <= 7
    ensures Top(Masked(x, ByteMask(k)), k) == Top(x, k)
    ensures Masked(x, ByteMask(k)) == Back(Top(x, k), k)
  {
    match k
    case 1 =>
    case 2 =>
    case 3 =>
    case 4 =>
    case 5 =>
    case 6 =>
    case _ =>
  }

  lemma MaskAtEnds(x: bv8, k: int)
    ensures k <= 0 ==> Masked(x, ByteMask(k)) == 0
    ensures k >= 8 ==> Masked(x, ByteMask(k)) == x
  {
  }

  lemma MaskedByte(x: bv8, y: bv8, k: int)
    ensures Masked(x, ByteMask(k)) == Masked(y, ByteMask(k)) <==> FirstBits(x, y, k)
  {
    hide Masked, ByteMask, Bit, Top, Back;
    if 1 <= k <= 7 {
      ShiftedBytes(x, y, k);
      MaskAsShift(x, k);
      MaskAsShift(y, k);
    } else {
      MaskAtEnds(x, k);
      MaskAtEnds(y, k);
      WholeBytes(x, y);
    }
  }

  lemma AgreePerByte(a: seq<bv8>, b: seq<bv8>, n: nat)
    requires |a| == |b| && n <= 8 * |a|
    ensures Agree(a, b, n) <==> forall i :: 0 <= i < |a| ==> FirstBits(a[i], b[i], n - 8 * i)
  {
    if Agree(a, b, n) {
      forall i, j | 0 <= i < |a| && 0 <= j < 8 && j < n - 8 * i ensures Bit(a[i], j) == Bit(b[i], j) {
        assert AddressBit(a, 8 * i + j) == AddressBit(b, 8 * i + j);
      }
    } else {
      var k :| 0 <= k < n && AddressBit(a, k) != AddressBit(b, k);
      assert k % 8 < n - 8 * (k / 8);
      assert !FirstBits(a[k / 8], b[k / 8], n - 8 * (k / 8));
    }
  }

  /** Masking both loaded words compares exactly the leading bits of the bytes. */
  lemma MaskedWordsAgree(a: seq<bv8>, b: seq<bv8>, n: nat)
    requires |a| == |b| == 4 && 1 <= n <= 32
    ensures MaskedWord(Loaded(a), Htonl(Mask(n))) == MaskedWord(Loaded(b), Htonl(Mask(n))) <==> Agree(a, b, n)
  {
    hide Load, Htonl, Mask, ByteMask, Masked, MaskedWord, FirstBits;
    MaskInMemory(n);
    MaskedLoads(a[0], a[1], a[2], a[3], b[0], b[1], b[2], b[3],
                ByteMask(n), ByteMask(n - 8), ByteMask(n - 16), ByteMask(n - 24));
    MaskedByte(a[0], b[0], n);
    MaskedByte(a[1], b[1], n - 8);
    MaskedByte(a[2], b[2], n - 16);
    MaskedByte(a[3], b[3], n - 24);
    AgreePerByte(a, b, n);
  }

  /** is_ip_in_subnet, from the parsed addresses onwards. */
  method IsIpInSubnet(ip: seq<bv8>, subnet: seq<bv8>, maskLen: int) returns (ret: int)
    requires |ip| == |subnet| == 4
    ensures ret == if 1 <= maskLen <= 32 && Agree(ip, subnet, maskLen) then RET_OK else RET_ERR
  {
    hide Agree;
    if maskLen > 32 || maskLen < 1 { return RET_ERR; }
    var subnetMask := Htonl(Mask(maskLen));
    MaskedWordsAgree(ip, subnet, maskLen);
    ret := if MaskedWord(Loaded(ip), subnetMask) == MaskedWord(Loaded(subnet), subnetMask) then RET_OK else RET_ERR;
  }

  // ---- what matching means ----

  /** A match under a longer mask is one under every shorter mask, under the full mask only equal addresses match, and for
      a fixed mask matching is an equivalence. */
  lemma LongerMaskIsFiner(a: seq<bv8>, b: seq<bv8>, c: seq<bv8>, n: nat, m: nat)
    requires |a| == |b| == |c| && m <= n <= 8 * |a|
    ensures Agree(a, b, n) ==> Agree(a, b, m)
    ensures Agree(a, b, 8 * |a|) <==> a == b
    ensures Agree(a, a, n) && (Agree(a, b, n) <==> Agree(b, a, n)) && (Agree(a, b, n) && Agree(b, c, n) ==> Agree(a, c, n))
  {
    AgreeByBytes(a, b, 8 * |a|);
    assert 8 * |a| / 8 == |a| && 8 * |a| % 8 == 0;
  }
}
