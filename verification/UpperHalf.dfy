/** `upperHalfAddr`: the byte-level bit update and the address it denotes. */
module UpperHalf {
  import opened Prefixes

  /** Bitwise or of two numbers. */
  function Or(a: nat, b: nat): nat {
    if a == 0 then b
    else if b == 0 then a
    else 2 * Or(a / 2, b / 2) + (if a % 2 == 1 || b % 2 == 1 then 1 else 0)
  }

  /** Setting bit `k` of a number whose low `k+1` bits are clear adds `2^k`. */
  lemma {:induction false} SetClearBit(a: nat, k: nat)
    requires Mask(a, k + 1) == a
    ensures Or(a, Pow2(k)) == a + Pow2(k)
  {
    if k > 0 {
      SetClearBit(a / 2, k - 1);
    } else {
      assert Or(a / 2, 0) == a / 2;
    }
  }

  /** Byte `i` of a big-endian IPv4 address, as `As4` returns it. */
  function Octet(a: nat, i: nat): (b: nat)
    requires i < 4 && a < SPACE
    ensures b < 256
  {
    match i
    case 0 => a / 16777216
    case 1 => a / 65536 % 256
    case 2 => a / 256 % 256
    case 3 => a % 256
  }

  lemma MaskByte(a: nat, m: nat)
    ensures Mask(a, 8 + m) == 256 * Mask(a / 256, m)
  {
    assert Mask(a, 8 + m) == 4 * Mask(a / 4, 6 + m);
    assert Mask(a / 4, 6 + m) == 4 * Mask(a / 16, 4 + m);
    assert Mask(a / 16, 4 + m) == 4 * Mask(a / 64, 2 + m);
    assert Mask(a / 64, 2 + m) == 4 * Mask(a / 256, m);
  }

  lemma Pow2Byte(m: nat)
    ensures Pow2(8 + m) == 256 * Pow2(m)
  {
    assert Pow2(8 + m) == 4 * Pow2(6 + m);
    assert Pow2(6 + m) == 4 * Pow2(4 + m);
    assert Pow2(4 + m) == 4 * Pow2(2 + m);
  }

  /** `y` followed by `t` zero bits. */
  function Shift(y: nat, t: nat): nat {
    if t == 0 then y else 2 * Shift(y, t - 1)
  }

  lemma ShiftByte(y: nat)
    ensures Shift(y, 8) == 256 * y
  {
    assert Shift(y, 8) == 4 * Shift(y, 6);
    assert Shift(y, 6) == 4 * Shift(y, 4);
    assert Shift(y, 4) == 4 * Shift(y, 2);
    assert Shift(y, 2) == 4 * Shift(y, 0);
  }

  /** Masking low bits leaves a high part alone. */
  lemma {:induction false} MaskLow(y: nat, o: nat, r: nat, t: nat)
    requires r <= t
    ensures Mask(Shift(y, t) + o, r) == Shift(y, t) + Mask(o, r)
  {
    if r > 0 {
      assert (Shift(y, t) + o) / 2 == Shift(y, t - 1) + o / 2;
      MaskLow(y, o / 2, r - 1, t - 1);
    }
  }

  lemma LowByteMasked(x: nat, r: nat)
    requires Mask(x, r) == x && r <= 8
    ensures Mask(x % 256, r) == x % 256
  {
    ShiftByte(x / 256);
    assert x == Shift(x / 256, 8) + x % 256;
    MaskLow(x / 256, x % 256, r, 8);
  }

  /** The same for the upper three bytes of an address. */
  lemma AlignedHigher(x: nat, bits: nat)
    requires x < 16777216 && bits < 24 && Mask(x, 24 - bits) == x
    ensures bits >= 16 ==> Mask(x % 256, 24 - bits) == x % 256
    ensures 8 <= bits < 16 ==> Mask(x / 256 % 256, 16 - bits) == x / 256 % 256
    ensures bits < 8 ==> Mask(x / 256 / 256, 8 - bits) == x / 256 / 256
  {
    if bits >= 16 {
      LowByteMasked(x, 24 - bits);
    } else {
      MaskByte(x, 16 - bits);
      if bits >= 8 {
        LowByteMasked(x / 256, 16 - bits);
      } else {
        MaskByte(x / 256, 8 - bits);
      }
    }
  }

  /** In an aligned address the byte that holds bit `bits` is zero from that bit on. */
  lemma AlignedOctet(a: nat, bits: nat)
    requires a < SPACE && bits < 32 && Mask(a, 32 - bits) == a
    ensures Mask(Octet(a, bits / 8), 8 - bits % 8) == Octet(a, bits / 8)
  {
    if bits >= 24 {
      LowByteMasked(a, 32 - bits);
    } else {
      MaskByte(a, 24 - bits);
      AlignedHigher(a / 256, bits);
      assert a / 256 / 256 == a / 65536 && a / 256 / 256 / 256 == a / 16777216;
    }
  }

  /** The weight of bit `bits` of an address is its weight in its byte times the
      weight of the byte. */
  lemma OctetWeight(bits: nat)
    requires bits < 32
    ensures var w := Pow2(7 - bits % 8);
            Pow2(31 - bits) == (match bits / 8 case 0 => 16777216 * w case 1 => 65536 * w case 2 => 256 * w case _ => w)
  {
    if bits < 24 { Pow2Byte(23 - bits); }
    if bits < 16 { Pow2Byte(15 - bits); }
    if bits < 8 { Pow2Byte(7 - bits); }
  }

  /** Adding to one byte adds its weight to the address. */
  lemma AddToOctet(a: nat, i: nat, w: nat)
    requires a < SPACE && i < 4
    ensures Pack(Octet(a, 0) + (if i == 0 then w else 0), Octet(a, 1) + (if i == 1 then w else 0),
                 Octet(a, 2) + (if i == 2 then w else 0), Octet(a, 3) + (if i == 3 then w else 0))
         == a + (match i case 0 => 16777216 * w case 1 => 65536 * w case 2 => 256 * w case _ => w)
  {
    PackOctets(a);
  }

  /** The byte update for bit `bits`, and what it does to the address. */
  lemma SetOctetBit(a: nat, bits: nat, i: nat, w: nat)
    requires a < SPACE && bits < 32 && Mask(a, 32 - bits) == a && i == bits / 8 && w == Pow2(7 - bits % 8)
    ensures i < 4 && Or(Octet(a, i), w) == Octet(a, i) + w
    ensures Pack(Octet(a, 0) + (if i == 0 then w else 0), Octet(a, 1) + (if i == 1 then w else 0),
                 Octet(a, 2) + (if i == 2 then w else 0), Octet(a, 3) + (if i == 3 then w else 0))
         == a + Pow2(31 - bits)
  {
    AlignedOctet(a, bits);
    SetClearBit(Octet(a, i), 7 - bits % 8);
    AddToOctet(a, i, w);
    OctetWeight(bits);
  }

  /** `Addr.As4`. */
  method As4(a: nat) returns (a4: array<nat>)
    requires a < SPACE
    ensures fresh(a4) && a4.Length == 4 && forall i | 0 <= i < 4 :: a4[i] == Octet(a, i)
  {
    a4 := new nat[4];
    a4[0], a4[1], a4[2], a4[3] := Octet(a, 0), Octet(a, 1), Octet(a, 2), Octet(a, 3);
  }

  /** The source sets bit `bits` of the four address bytes in place. On an aligned
      prefix the index is in range and the result is the base of the upper half. */
  method UpperHalfAddr(p: Prefix) returns (a: nat)
    requires p.Aligned() && p.bits < 32
    ensures a == p.addr + Pow2(31 - p.bits)
  {
    var a4 := As4(p.addr);
    var bit := p.bits;
    var i, w := bit / 8, Pow2(7 - bit % 8);
    SetOctetBit(p.addr, bit, i, w);
    a4[i] := Or(a4[i], w);
    a := Pack(a4[0], a4[1], a4[2], a4[3]);
  }
}
