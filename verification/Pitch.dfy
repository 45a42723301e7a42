/** The row pitch of a dumb buffer, as the kernel, libdrm, GBM and the wlroots patch each compute it. */
module Pitch {
  import opened Words

  const PITCH_ALIGN: uint32 := 64

  /** The rounding macro of libdrm and GBM: add a mask one below the alignment, then clear its bits, on 32 bits. */
  function AlignUp(x: uint32, a: uint32): uint32
    requires a >= 1
  {
    AndBelow(Sub32(Add32(x, a), 1), Not32(a - 1));
    And(Sub32(Add32(x, a), 1), Not32(a - 1))
  }

  function RawPitch(width: uint32, bpp: uint32): uint32 {
    Add32(Mul32(width, bpp), 7) / 8
  }

  function EffectiveBpp(bpp: uint32): uint32 { if bpp != 0 then bpp else 32 }

  /** CREATE_DUMB in the kernel. */
  function KernelPitch(width: uint32, bpp: uint32): uint32 {
    var raw := RawPitch(width, EffectiveBpp(bpp));
    AndBelow(Add32(raw, 63), Not32(63));
    And(Add32(raw, 63), Not32(63))
  }

  /** drmModeCreateDumbBuffer, before its ioctl. */
  function LibdrmPitch(width: uint32, bpp: uint32): uint32 {
    AlignUp(RawPitch(width, EffectiveBpp(bpp)), PITCH_ALIGN)
  }

  /** alloc_bo of GBM, whose formats all have 32 bits a pixel. */
  function GbmPitch(width: uint32): uint32 {
    AlignUp(RawPitch(width, 32), PITCH_ALIGN)
  }

  lemma DefaultBpp(width: uint32, bpp: uint32)
    ensures KernelPitch(width, EffectiveBpp(bpp)) == KernelPitch(width, bpp)
  {
    hide And;
  }

  /** darwin_align_pitch of the wlroots patch: no default for a zero bpp. */
  function WlrootsPitch(width: uint32, bpp: uint32): uint32 {
    var raw := RawPitch(width, bpp);
    AndBelow(Add32(raw, 63), Not32(63));
    And(Add32(raw, 63), Not32(63))
  }

  ghost predicate IsLeastMultipleFrom(r: int, a: int, x: int)
    requires a > 0
  {
    r % a == 0 && r >= x && forall m :: m % a == 0 && m >= x ==> r <= m
  }

  lemma RoundUpIsLeastMultiple(x: nat, a: nat)
    requires a > 0
    ensures IsLeastMultipleFrom((x + a - 1) - (x + a - 1) % a, a, x)
  {
    var y := x + a - 1;
    var r := y - y % a;
    RemainderUnique(r, a, y / a, 0);
    forall m | m % a == 0 && m >= x
      ensures r <= m
    {
      var e := r / a - m / a;
      assert a * e == r - m;
      MultiplesAreApart(a, e);
    }
  }

  /** The macro's bits, for any power of two and any x, wrapping or not. */
  lemma AlignUpBits(x: uint32, k: nat)
    requires k < 32
    ensures 1 <= Pow2(k) < TWO_32
    ensures AlignUp(x, Pow2(k)) == ClearLow(Add32(x, Pow2(k) - 1), k)
  {
    hide And, ClearLow, Pow2;
    var a := Pow2(k);
    Mask32ClearsLow(Add32(x, (a - 1) % TWO_32), k, a);
    AddSub(x, a);
  }

  lemma SumOrWrap(x: uint32, b: uint32)
    ensures Add32(x, b) == if x + b < TWO_32 then x + b else x + b - TWO_32
  {
  }

  lemma RoundUpOrWrap(x: uint32, a: uint32, y: uint32)
    requires a >= 1 && y == Add32(x, a - 1)
    ensures IsLeastMultipleFrom(y - y % a, a, x) <==> x + a - 1 < TWO_32
    ensures x + a - 1 >= TWO_32 ==> y - y % a == 0
  {
    hide Add32;
    SumOrWrap(x, a - 1);
    if x + a - 1 < TWO_32 {
      RoundUpIsLeastMultiple(x, a);
    } else {
      RemainderUnique(y, a, 0, y);
    }
  }

  /**
   * ALIGN_UP gives the least multiple of a power of two not below x exactly when x + a - 1 does
   * not wrap; when it wraps the result is 0.
   */
  lemma AlignUpIsLeastMultiple(x: uint32, k: nat)
    requires k < 32
    ensures 1 <= Pow2(k) < TWO_32
    ensures IsLeastMultipleFrom(AlignUp(x, Pow2(k)), Pow2(k), x) <==> x + Pow2(k) - 1 < TWO_32
    ensures x + Pow2(k) - 1 >= TWO_32 ==> AlignUp(x, Pow2(k)) == 0
  {
    AlignUpBits(x, k);
    var y := Add32(x, Pow2(k) - 1);
    ClearLowRoundsDown(y, k);
    RoundUpOrWrap(x, Pow2(k), y);
  }

  /** The kernel's mask, on any value that a division by 8 can yield. */
  lemma MaskBits(raw: uint32)
    requires raw < 0x2000_0000
    ensures And(Add32(raw, 63), Not32(63)) == (raw + 63) - (raw + 63) % 64
  {
    hide And;
    Mask64RoundsDown(raw + 63);
  }

  lemma MacroBits(raw: uint32)
    requires raw < 0x2000_0000
    ensures AlignUp(raw, 64) == (raw + 63) - (raw + 63) % 64
  {
    AddSub(raw, 64);
    MaskBits(raw);
  }

  function PitchOfBits(bits: nat): nat {
    var raw := ((bits % TWO_32 + 7) % TWO_32) / 8;
    (raw + 63) - (raw + 63) % 64
  }

  lemma RawPitchOfBits(width: uint32, b: uint32)
    ensures width * b >= 0
    ensures RawPitch(width, b) == (((width * b) % TWO_32 + 7) % TWO_32) / 8 < 0x2000_0000
  {
  }

  lemma PitchFromBits(width: uint32, b: uint32)
    ensures width * b >= 0
    ensures And(Add32(RawPitch(width, b), 63), Not32(63)) == PitchOfBits(width * b)
  {
    RawPitchOfBits(width, b);
    MaskBits(RawPitch(width, b));
  }

  lemma KernelPitchOfBits(width: uint32, bpp: uint32)
    ensures 0 <= width * EffectiveBpp(bpp)
    ensures KernelPitch(width, bpp) == PitchOfBits(width * EffectiveBpp(bpp))
  {
    PitchFromBits(width, EffectiveBpp(bpp));
  }

  /** The pitch every client computes before its ioctl is the pitch the kernel reports back. */
  lemma PitchesAgree(width: uint32, bpp: uint32)
    ensures LibdrmPitch(width, bpp) == KernelPitch(width, bpp)
    ensures GbmPitch(width) == KernelPitch(width, 32) == KernelPitch(width, 0)
    ensures bpp != 0 ==> WlrootsPitch(width, bpp) == KernelPitch(width, bpp)
  {
    MaskBits(RawPitch(width, EffectiveBpp(bpp)));
    MacroBits(RawPitch(width, EffectiveBpp(bpp)));
    MaskBits(RawPitch(width, 32));
    MacroBits(RawPitch(width, 32));
  }

  /** For a zero bpp wlroots has no default: it agrees with the kernel only where 32 * width wraps to 0. */
  lemma ZeroBppAgrees(width: uint32)
    ensures WlrootsPitch(width, 0) == KernelPitch(width, 0) <==> width % 0x800_0000 == 0
  {
    PitchFromBits(width, 0);
    PitchFromBits(width, 32);
    assert PitchOfBits(0) == 0;
    ZeroPitchBits(width);
  }

  lemma ZeroPitchBits(width: uint32)
    ensures PitchOfBits(width * 32) == 0 <==> width % 0x800_0000 == 0
  {
    var low := width % 0x800_0000;
    RemainderUnique(width * 32, TWO_32, width / 0x800_0000, low * 32);
  }

  /**
   * A row of width * bpp bits fits in the pitch exactly when width * bpp + 7 does not wrap on 32
   * bits, and then the pitch is the least multiple of 64 bytes that holds the row.
   */
  lemma PitchHoldsRow(width: uint32, bpp: uint32)
    ensures var bits := width * EffectiveBpp(bpp);
            && (bits <= 8 * KernelPitch(width, bpp) <==> bits + 7 < TWO_32)
            && (bits + 7 < TWO_32 ==> IsLeastMultipleFrom(8 * KernelPitch(width, bpp), 512, bits))
  {
    KernelPitchOfBits(width, bpp);
    PitchHoldsBits(width * EffectiveBpp(bpp));
  }

  lemma PitchHoldsBits(bits: nat)
    ensures bits <= 8 * PitchOfBits(bits) <==> bits + 7 < TWO_32
    ensures bits + 7 < TWO_32 ==> IsLeastMultipleFrom(8 * PitchOfBits(bits), 512, bits)
  {
    if bits + 7 < TWO_32 {
      RoundUpIsLeastMultiple(bits, 512);
      UnwrappedPitch(bits);
    }
  }

  lemma UnwrappedPitch(bits: nat)
    requires bits + 7 < TWO_32
    ensures 8 * PitchOfBits(bits) == (bits + 511) - (bits + 511) % 512
  {
    var raw, s := (bits + 7) / 8, (bits + 7) % 8;
    var q, t := (raw + 63) / 64, (raw + 63) % 64;
    assert bits + 511 == 8 * (raw + 63) + s == 512 * q + (8 * t + s);
    RemainderUnique(bits + 511, 512, q, 8 * t + s);
    PitchWithoutWrap(bits);
  }

  lemma PitchWithoutWrap(bits: nat)
    requires bits + 7 < TWO_32
    ensures PitchOfBits(bits) == 64 * (((bits + 7) / 8 + 63) / 64)
  {
    assert bits % TWO_32 == bits && (bits + 7) % TWO_32 == bits + 7;
  }
}
