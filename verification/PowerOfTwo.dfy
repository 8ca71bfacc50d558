/** next_power_of_two of src/unix/core.c on 32 bits, and that it is right on numbers: Bits and Number
    relate a number and its binary form digit by digit. */
module PowerOfTwo {
  // next_power_of_two
  function NextPowerOfTwo(val: bv32): bv32 {
    var a := val - 1;
    var b := a | (a >> 1);
    var c := b | (b >> 2);
    var d := c | (c >> 4);
    var e := d | (d >> 8);
    var f := e | (e >> 16);
    f + 1
  }

  // ---------- bits ----------

  function Half(b: bv32): bv32 {
    b >> 1
  }

  predicate Odd(b: bv32) {
    b & 1 == 1
  }

  function Push(b: bv32, odd: bool): bv32 {
    (b << 1) | if odd then 1 else 0
  }

  // The number of the lowest k bits.
  function ToNat(b: bv32, k: nat): nat {
    if k == 0 then 0 else 2 * ToNat(Half(b), k - 1) + if Odd(b) then 1 else 0
  }

  // The lowest k bits of the number.
  function ToBits(n: nat, k: nat): bv32 {
    if k == 0 then 0 else Push(ToBits(n / 2, k - 1), n % 2 == 1)
  }

  function Power(k: nat): (p: nat)
    ensures p >= 1
  {
    if k == 0 then 1 else 2 * Power(k - 1)
  }

  // All ones below bit k.
  function Mask(k: nat): bv32
    decreases 32 - k
  {
    if k >= 32 then 0xFFFF_FFFF else Half(Mask(k + 1))
  }

  lemma {:induction false} MaskOnes(k: nat)
    requires k <= 32
    ensures Mask(k) & (Mask(k) + 1) == 0
    decreases 32 - k
  {
    if k < 32 {
      MaskOnes(k + 1);
    }
  }

  lemma MaskLow()
    ensures Mask(1) == 1 && Mask(0) == 0
  {
    assert Mask(26) == 0x3FF_FFFF;
    assert Mask(20) == 0xF_FFFF;
    assert Mask(14) == 0x3FFF;
    assert Mask(8) == 0xFF;
    assert Mask(2) == 3;
  }

  lemma {:induction false} MaskSome(k: nat)
    requires 1 <= k <= 32
    ensures Mask(k) >= 1
  {
    if k == 1 {
      MaskLow();
    } else {
      MaskSome(k - 1);
    }
  }

  lemma OnesStep(m: bv32)
    requires m & (m + 1) == 0 && m >= 1
    ensures m == ((m >> 1) << 1) | 1
  {
  }

  lemma MaskStep(k: nat)
    requires k <= 31
    ensures Mask(k) <= 0x7FFF_FFFF && Mask(k + 1) == Push(Mask(k), true)
  {
    MaskOnes(k + 1);
    MaskSome(k + 1);
    OnesStep(Mask(k + 1));
  }

  lemma Pushed(b: bv32, m: bv32, odd: bool)
    requires b <= m <= 0x7FFF_FFFF
    ensures Push(b, odd) <= Push(m, true) && Half(Push(b, odd)) == b && Odd(Push(b, odd)) == odd
  {
  }

  lemma HalfFits(b: bv32, m: bv32)
    requires m <= 0x7FFF_FFFF && b <= Push(m, true)
    ensures Half(b) <= m
  {
  }

  // b has no bit from k on.
  predicate Short(b: bv32, k: nat) {
    b <= Mask(k)
  }

  lemma ShortPush(b: bv32, k: nat, odd: bool)
    requires k <= 31 && Short(b, k)
    ensures Short(Push(b, odd), k + 1) && Half(Push(b, odd)) == b && Odd(Push(b, odd)) == odd
  {
    hide Half, Odd, Push, Mask;
    MaskStep(k);
    Pushed(b, Mask(k), odd);
  }

  lemma ShortHalf(b: bv32, k: nat)
    requires k <= 31 && Short(b, k + 1)
    ensures Short(Half(b), k)
  {
    hide Half, Odd, Push, Mask;
    MaskStep(k);
    HalfFits(b, Mask(k));
  }

  lemma ShortNone(b: bv32)
    requires Short(b, 0)
    ensures b == 0 && Half(b) == 0 && !Odd(b)
  {
    MaskLow();
  }

  lemma ZeroShort()
    ensures Short(0, 0)
  {
  }

  lemma {:induction false} BitsFit(n: nat, k: nat)
    requires k <= 32
    ensures Short(ToBits(n, k), k)
  {
    hide Short, Push;
    if k > 0 {
      BitsFit(n / 2, k - 1);
      ShortPush(ToBits(n / 2, k - 1), k - 1, n % 2 == 1);
    } else {
      ZeroShort();
    }
  }

  lemma {:induction false} NatOfBits(n: nat, k: nat)
    requires k <= 32 && n < Power(k)
    ensures ToNat(ToBits(n, k), k) == n
  {
    hide Half, Odd, Push, Short;
    if k > 0 {
      BitsFit(n / 2, k - 1);
      ShortPush(ToBits(n / 2, k - 1), k - 1, n % 2 == 1);
      NatOfBits(n / 2, k - 1);
    }
  }

  predicate Less(a: bv32, b: bv32) {
    a < b
  }

  lemma HalfOrder(a: bv32, b: bv32)
    requires a < b
    ensures Half(a) <= Half(b)
  {
  }

  lemma HalfSame(a: bv32, b: bv32)
    requires Half(a) == Half(b) && a < b
    ensures !Odd(a) && Odd(b)
  {
  }

  lemma LessHalf(a: bv32, b: bv32)
    requires Less(a, b)
    ensures Less(Half(a), Half(b)) || (Half(a) == Half(b) && !Odd(a) && Odd(b))
  {
    HalfOrder(a, b);
    if Half(a) == Half(b) {
      HalfSame(a, b);
    }
  }

  lemma NoneLess(a: bv32)
    ensures !Less(a, 0)
  {
  }

  lemma {:induction false} NatGrows(a: bv32, b: bv32, k: nat)
    requires Less(a, b) && Short(b, k) && k <= 32
    ensures ToNat(a, k) < ToNat(b, k)
    decreases k
  {
    hide Half, Odd, Short, Less;
    if k == 0 {
      ShortNone(b);
      NoneLess(a);
      assert false;
    } else {
      LessHalf(a, b);
      ShortHalf(b, k - 1);
      if Less(Half(a), Half(b)) {
        NatGrows(Half(a), Half(b), k - 1);
      }
    }
  }

  lemma {:induction false} NatMore(b: bv32, k: nat)
    requires k <= 31 && Short(b, k)
    ensures ToNat(b, k + 1) == ToNat(b, k)
    decreases k
  {
    hide Half, Odd, Short;
    if k == 0 {
      ShortNone(b);
    } else {
      ShortHalf(b, k - 1);
      NatMore(Half(b), k - 1);
    }
  }

  predicate OneBit(r: bv32) {
    r & (r - 1) == 0 && r != 0
  }

  lemma OneBitHalf(r: bv32)
    requires OneBit(r)
    ensures if Odd(r) then Half(r) == 0 else OneBit(Half(r))
  {
  }

  lemma NotOneBit()
    ensures !OneBit(0) && !Odd(0) && Half(0) == 0
  {
  }

  lemma {:induction false} NatZero(k: nat)
    ensures ToNat(0, k) == 0
  {
    hide Half, Odd;
    NotOneBit();
    if k > 0 {
      NatZero(k - 1);
    }
  }

  lemma {:induction false} NatPower(r: bv32, k: nat) returns (j: nat)
    requires OneBit(r) && Short(r, k) && k <= 32
    ensures ToNat(r, k) == Power(j)
    decreases k
  {
    hide Half, Odd, Short, OneBit;
    j := 0;
    if k == 0 {
      ShortNone(r);
      NotOneBit();
      assert false;
    } else {
      OneBitHalf(r);
      ShortHalf(r, k - 1);
      if Odd(r) {
        NatZero(k - 1);
      } else {
        j := NatPower(Half(r), k - 1);
        j := j + 1;
      }
    }
  }

  // ---------- numbers of 32 bits ----------

  const MAX_POWER := 0x8000_0000

  function Bits(n: nat): bv32 {
    ToBits(n, 32)
  }

  function Number(b: bv32): nat {
    ToNat(b, 32)
  }

  ghost predicate IsPower(n: nat) {
    exists j: nat :: n == Power(j)
  }

  lemma Powers()
    ensures Power(31) == MAX_POWER && Power(32) == 2 * MAX_POWER
  {
    assert Power(8) == 0x100;
    assert Power(16) == 0x1_0000;
    assert Power(24) == 0x100_0000;
  }

  lemma AllShort(b: bv32)
    ensures Short(b, 32)
  {
  }

  // The bit k.
  function One(k: nat): bv32 {
    if k == 0 then 1 else Push(One(k - 1), false)
  }

  lemma {:induction false} OneNumber(k: nat)
    requires k <= 31
    ensures Short(One(k), k + 1) && ToNat(One(k), k + 1) == Power(k)
  {
    hide Half, Push, Short;
    if k == 0 {
      OneShort();
    } else {
      OneNumber(k - 1);
      ShortPush(One(k - 1), k, false);
    }
  }

  lemma OneShort()
    ensures Short(1, 1)
  {
    MaskLow();
  }

  lemma OneLast()
    ensures One(31) == 0x8000_0000
  {
    assert One(6) == 0x40;
    assert One(12) == 0x1000;
    assert One(18) == 0x4_0000;
    assert One(24) == 0x100_0000;
  }

  lemma HalfNumber(r: bv32)
    ensures Number(Half(r)) == Number(r) / 2
  {
    hide Half, Odd, Short;
    AllShort(r);
    ShortHalf(r, 31);
    NatMore(Half(r), 31);
  }

  lemma Order(a: bv32, b: bv32)
    requires Less(a, b)
    ensures Number(a) < Number(b)
  {
    hide ToNat, Short, Less;
    AllShort(b);
    NatGrows(a, b, 32);
  }

  lemma BitsNumber(n: nat)
    requires n < 2 * MAX_POWER
    ensures Number(Bits(n)) == n
  {
    hide ToNat, ToBits, Power;
    Powers();
    NatOfBits(n, 32);
  }

  lemma Zero()
    ensures Number(0) == 0
  {
    NatZero(32);
  }

  lemma Top()
    ensures Number(0x8000_0000) == MAX_POWER
  {
    hide ToNat, Power;
    OneLast();
    OneNumber(31);
    Powers();
  }

  lemma AtTop(v: bv32)
    ensures Less(v, 0x8000_0000) || v == 0x8000_0000 || Less(0x8000_0000, v)
    ensures v == 0 || Less(0, v)
  {
  }

  lemma BitsOrder(n: nat)
    requires 1 <= n < 2 * MAX_POWER
    ensures Less(0, Bits(n)) && (Less(0x8000_0000, Bits(n)) <==> n > MAX_POWER)
  {
    hide Bits, Number, Less;
    var v := Bits(n);
    BitsNumber(n);
    Top();
    Zero();
    AtTop(v);
    if Less(0x8000_0000, v) {
      Order(0x8000_0000, v);
    } else if Less(v, 0x8000_0000) {
      Order(v, 0x8000_0000);
    }
  }

  lemma NextPowerBits(v: bv32)
    requires Less(0, v) && !Less(0x8000_0000, v)
    ensures OneBit(NextPowerOfTwo(v)) && Less(Half(NextPowerOfTwo(v)), v)
  {
  }

  lemma NextPowerAtLeast(v: bv32)
    requires Less(0, v) && !Less(0x8000_0000, v)
    ensures if OneBit(v) then NextPowerOfTwo(v) == v else Less(v, NextPowerOfTwo(v))
  {
  }

  lemma NextPowerAtMost(v: bv32)
    ensures !Less(0x8000_0000, NextPowerOfTwo(v))
  {
  }

  lemma NextPowerNone(v: bv32)
    requires v == 0 || Less(0x8000_0000, v)
    ensures NextPowerOfTwo(v) == 0
  {
  }

  lemma NextPowerNumber(v: bv32)
    requires Less(0, v) && !Less(0x8000_0000, v)
    ensures var r := Number(NextPowerOfTwo(v)); IsPower(r) && r / 2 < Number(v) <= r <= MAX_POWER
  {
    hide NextPowerOfTwo, Number, OneBit, Half, IsPower, Less;
    var r := NextPowerOfTwo(v);
    NumberAtMost(v);
    NextPowerBits(v);
    NextPowerAtLeast(v);
    if Less(v, r) {
      Order(v, r);
    }
    HalfNumber(r);
    Order(Half(r), v);
    NumberPower(r);
  }

  lemma NumberAtMost(v: bv32)
    ensures Number(NextPowerOfTwo(v)) <= MAX_POWER
  {
    hide NextPowerOfTwo, Number, Less;
    var r := NextPowerOfTwo(v);
    NextPowerAtMost(v);
    AtTop(r);
    Top();
    if Less(r, 0x8000_0000) {
      Order(r, 0x8000_0000);
    }
  }

  lemma NumberPower(r: bv32)
    requires OneBit(r)
    ensures IsPower(Number(r))
  {
    hide OneBit, Power, ToNat;
    AllShort(r);
    var j := NatPower(r, 32);
  }

  // next_power_of_two on numbers.
  function NextPower(n: nat): nat {
    Number(NextPowerOfTwo(Bits(n)))
  }

  // It is the least power of two that is at least n for the numbers from 1 to 2^31, and 0 for all others
  // of 32 bits.
  lemma NextPowerIs(n: nat)
    requires n < 2 * MAX_POWER
    ensures
      if 1 <= n <= MAX_POWER then IsPower(NextPower(n)) && NextPower(n) / 2 < n <= NextPower(n) <= MAX_POWER
      else NextPower(n) == 0
  {
    hide NextPowerOfTwo, Bits, Number, IsPower, Less;
    if n == 0 {
      NoBits();
      NextPowerNone(Bits(n));
      Zero();
    } else {
      BitsOrder(n);
      BitsNumber(n);
      if n <= MAX_POWER {
        NextPowerNumber(Bits(n));
      } else {
        NextPowerNone(Bits(n));
        Zero();
      }
    }
  }

  lemma NoBits()
    ensures Bits(0) == 0
  {
    hide ToBits, ToNat, Less;
    BitsNumber(0);
    Zero();
    AtTop(Bits(0));
    if Less(0, Bits(0)) {
      Order(0, Bits(0));
    }
  }
}
