/** The row copy from a dumb buffer to the display surface, whose stride may differ. */
module Blit {
  import opened Words
  import Pitch

  /** The display surface of the mobile framebuffer: `stride` bytes a row, at least `height` rows. */
  class Surface {
    const base: array<uint8>
    const stride: nat
    const width: uint32
    const height: uint32

    constructor (base: array<uint8>, stride: nat, width: uint32, height: uint32)
      requires base.Length >= stride * height
      ensures this.base == base && this.stride == stride && this.width == width && this.height == height
      ensures Valid()
    {
      this.base, this.stride, this.width, this.height := base, stride, width, height;
    }

    predicate Valid() { base.Length >= stride * height }
  }

  function Min(a: nat, b: nat): nat { if a < b then a else b }

  /** Byte c of row y in a picture of `rows` rows. */
  function ByteAt(s: seq<uint8>, stride: nat, rows: nat, y: nat, c: nat): uint8
    requires |s| >= stride * rows && y < rows && c < stride
  {
    RowInBounds(stride, rows, y, c);
    s[y * stride + c]
  }

  lemma RowInBounds(stride: nat, rows: nat, y: nat, c: nat)
    requires y < rows && c < stride
    ensures 0 <= y * stride + c < stride * rows
  {
    MulMonotone(stride, 0, y);
    MulMonotone(stride, y + 1, rows);
  }

  /** The source offset is a 32-bit product of row and pitch; even when it wraps, the row it selects lies in the buffer. */
  lemma SourceInBounds(pitch: uint32, height: uint32, y: uint32, n: nat)
    requires y < height && n <= pitch
    ensures Mul32(y, pitch) + n <= pitch * height
    ensures y * pitch < TWO_32 ==> Mul32(y, pitch) == y * pitch
  {
    MulMonotone(pitch, 0, y);
    MulMonotone(pitch, y + 1, height);
  }

  /** Byte k of the surface after the blit. */
  function BlitByte(src: seq<uint8>, pitch: uint32, height: uint32,
                    before: seq<uint8>, stride: nat, rows: uint32, k: nat): uint8
    requires |src| == pitch * height && k < |before|
  {
    if stride > 0 && k / stride < Min(height, rows) && k % stride < Min(pitch, stride) then
      SourceInBounds(pitch, height, k / stride, k % stride + 1);
      src[Mul32(k / stride, pitch) + k % stride]
    else before[k]
  }

  /** The surface after y rows have been copied. */
  ghost function AfterRows(src: seq<uint8>, pitch: uint32, height: uint32,
                           before: seq<uint8>, stride: nat, rows: uint32, y: nat): (after: seq<uint8>)
    requires |src| == pitch * height
    ensures |after| == |before|
  {
    seq(|before|, k requires 0 <= k < |before| =>
          if stride > 0 && k / stride < y then BlitByte(src, pitch, height, before, stride, rows, k) else before[k])
  }

  ghost function Blitted(src: seq<uint8>, pitch: uint32, height: uint32,
                         before: seq<uint8>, stride: nat, rows: uint32): (after: seq<uint8>)
    requires |src| == pitch * height
    ensures |after| == |before|
  {
    seq(|before|, k requires 0 <= k < |before| => BlitByte(src, pitch, height, before, stride, rows, k))
  }

  method Bcopy(src: array<uint8>, from: nat, dst: array<uint8>, to: nat, n: nat)
    requires src != dst && from + n <= src.Length && to + n <= dst.Length
    modifies dst
    ensures forall k :: 0 <= k < dst.Length ==>
              dst[k] == if to <= k < to + n then src[from + (k - to)] else old(dst[k])
  {
    forall k | to <= k < to + n {
      dst[k] := src[from + (k - to)];
    }
  }

  lemma RowOfIndex(k: nat, stride: nat, y: nat)
    requires stride > 0
    ensures k / stride == y <==> y * stride <= k < y * stride + stride
    ensures k / stride == y ==> k % stride == k - y * stride
    ensures k / stride < y <==> k < y * stride
  {
    var q := k / stride;
    assert k == stride * q + k % stride;
    MultiplesAreApart(stride, q - y);
    assert stride * (q - y) == stride * q - y * stride;
  }

  lemma RowCopied(src: seq<uint8>, pitch: uint32, height: uint32,
                  before: seq<uint8>, stride: nat, rows: uint32, y: nat, next: seq<uint8>)
    requires |src| == pitch * height && y < Min(height, rows)
    requires Mul32(y, pitch) + Min(pitch, stride) <= |src|
    requires |next| == |before|
    requires forall k :: 0 <= k < |next| ==>
               next[k] == if y * stride <= k < y * stride + Min(pitch, stride)
                          then src[Mul32(y, pitch) + (k - y * stride)]
                          else AfterRows(src, pitch, height, before, stride, rows, y)[k]
    ensures next == AfterRows(src, pitch, height, before, stride, rows, y + 1)
  {
    forall k | 0 <= k < |next|
      ensures next[k] == AfterRows(src, pitch, height, before, stride, rows, y + 1)[k]
    {
      if stride > 0 {
        ByteCopied(src, pitch, height, before, stride, rows, y, k);
      }
    }
  }

  lemma ByteCopied(src: seq<uint8>, pitch: uint32, height: uint32,
                   before: seq<uint8>, stride: nat, rows: uint32, y: nat, k: nat)
    requires |src| == pitch * height && y < Min(height, rows) && stride > 0 && k < |before|
    requires Mul32(y, pitch) + Min(pitch, stride) <= |src|
    ensures k / stride < y + 1 <==> k / stride < y || k / stride == y
    ensures k / stride == y <==> y * stride <= k < y * stride + stride
    ensures k / stride == y ==>
              BlitByte(src, pitch, height, before, stride, rows, k) ==
              if k < y * stride + Min(pitch, stride) then src[Mul32(y, pitch) + (k - y * stride)] else before[k]
  {
    RowOfIndex(k, stride, y);
  }

  /** The copy loop of blitToDisplay. */
  method CopyRows(src: array<uint8>, pitch: uint32, height: uint32, screen: Surface)
    requires src.Length == pitch * height && screen.Valid() && src != screen.base
    modifies screen.base
    ensures screen.base[..] == Blitted(src[..], pitch, height, old(screen.base[..]), screen.stride, screen.height)
  {
    hide AfterRows, Blitted, Mul32;
    var dst, stride := screen.base, screen.stride;
    var copyH := if height < screen.height then height else screen.height;
    var copyW := if pitch < stride then pitch else stride;
    ghost var before, pixels := dst[..], src[..];
    NoRowsCopied(pixels, pitch, height, before, stride, screen.height);
    var y := 0;
    while y < copyH
      invariant 0 <= y <= copyH
      invariant src[..] == pixels
      invariant dst[..] == AfterRows(pixels, pitch, height, before, stride, screen.height, y)
    {
      SourceInBounds(pitch, height, y, copyW);
      RowInSurface(stride, screen.height, y);
      Bcopy(src, Mul32(y, pitch), dst, y * stride, copyW);
      RowCopied(pixels, pitch, height, before, stride, screen.height, y, dst[..]);
      y := y + 1;
    }
    AllRowsCopied(pixels, pitch, height, before, stride, screen.height);
  }

  lemma RowInSurface(stride: nat, rows: nat, y: nat)
    requires y < rows
    ensures 0 <= y * stride && y * stride + stride <= stride * rows
  {
    MulMonotone(stride, 0, y);
    MulMonotone(stride, y + 1, rows);
  }

  lemma NoRowsCopied(src: seq<uint8>, pitch: uint32, height: uint32, before: seq<uint8>, stride: nat, rows: uint32)
    requires |src| == pitch * height
    ensures AfterRows(src, pitch, height, before, stride, rows, 0) == before
  {
    hide BlitByte;
    forall k | 0 <= k < |before|
      ensures stride > 0 ==> k / stride >= 0
    {
      if stride > 0 { RowOfIndex(k, stride, 0); }
    }
  }

  lemma AllRowsCopied(src: seq<uint8>, pitch: uint32, height: uint32, before: seq<uint8>, stride: nat, rows: uint32)
    requires |src| == pitch * height
    ensures AfterRows(src, pitch, height, before, stride, rows, Min(height, rows)) ==
            Blitted(src, pitch, height, before, stride, rows)
  {
  }

  /** Outside the copied rectangle, which is as wide and high as both pictures allow, the surface keeps its bytes. */
  lemma OutsideUntouched(src: seq<uint8>, pitch: uint32, height: uint32, before: seq<uint8>, stride: nat, rows: uint32, k: nat)
    requires |src| == pitch * height && k < |before| && stride > 0
    requires k / stride >= height || k / stride >= rows || k % stride >= pitch
    ensures Blitted(src, pitch, height, before, stride, rows)[k] == before[k]
  {
  }

  // ---- what the copy shows ------------------------------------------------------------------

  /** Every copied row of the surface starts with the matching row of the buffer. */
  ghost predicate RowsShown(src: seq<uint8>, pitch: uint32, height: uint32,
                            before: seq<uint8>, stride: nat, rows: uint32)
    requires |src| == pitch * height && |before| >= stride * rows
  {
    forall y: nat, c: nat :: y < Min(height, rows) && c < Min(pitch, stride) ==>
      ByteAt(Blitted(src, pitch, height, before, stride, rows), stride, rows, y, c) ==
      ByteAt(src, pitch, height, y, c)
  }

  lemma BlittedAt(src: seq<uint8>, pitch: uint32, height: uint32,
                  before: seq<uint8>, stride: nat, rows: uint32, y: nat, c: nat)
    requires |src| == pitch * height && |before| >= stride * rows
    requires y < Min(height, rows) && c < Min(pitch, stride)
    ensures Mul32(y, pitch) + c < |src|
    ensures ByteAt(Blitted(src, pitch, height, before, stride, rows), stride, rows, y, c) ==
            src[Mul32(y, pitch) + c]
  {
    SourceInBounds(pitch, height, y, c + 1);
    RowInBounds(stride, rows, y, c);
    RemainderUnique(y * stride + c, stride, y, c);
  }

  /**
   * The blit shows every picture's rows exactly when the offset of the last copied row fits 32
   * bits (or no byte is copied at all); beyond that some picture is shown wrong.
   */
  lemma BlitCorrectExactly(pitch: uint32, height: uint32, before: seq<uint8>, stride: nat, rows: uint32)
    requires |before| >= stride * rows
    ensures (forall src: seq<uint8> :: |src| == pitch * height ==> RowsShown(src, pitch, height, before, stride, rows))
            <==> (stride == 0 || Min(height, rows) == 0 || (Min(height, rows) - 1) * pitch < TWO_32)
  {
    if stride == 0 || Min(height, rows) == 0 || (Min(height, rows) - 1) * pitch < TWO_32 {
      forall src: seq<uint8> | |src| == pitch * height
        ensures RowsShown(src, pitch, height, before, stride, rows)
      {
        BlitShowsRows(src, pitch, height, before, stride, rows);
      }
    } else {
      var src := BlitWitness(pitch, height, before, stride, rows);
    }
  }

  lemma OffsetUnwrapped(pitch: uint32, y: uint32, last: uint32)
    requires y <= last && last * pitch < TWO_32
    ensures Mul32(y, pitch) == y * pitch
  {
    MulMonotone(pitch, 0, y);
    MulMonotone(pitch, y, last);
  }

  lemma BlitShowsRows(src: seq<uint8>, pitch: uint32, height: uint32,
                      before: seq<uint8>, stride: nat, rows: uint32)
    requires |src| == pitch * height && |before| >= stride * rows
    requires stride == 0 || Min(height, rows) == 0 || (Min(height, rows) - 1) * pitch < TWO_32
    ensures RowsShown(src, pitch, height, before, stride, rows)
  {
    forall y: nat, c: nat | y < Min(height, rows) && c < Min(pitch, stride)
      ensures ByteAt(Blitted(src, pitch, height, before, stride, rows), stride, rows, y, c) ==
              ByteAt(src, pitch, height, y, c)
    {
      hide Blitted, Mul32;
      BlittedAt(src, pitch, height, before, stride, rows, y, c);
      OffsetUnwrapped(pitch, y, Min(height, rows) - 1);
    }
  }

  /** A picture whose last copied row starts with 1 and is 0 elsewhere loses that 1 when the offset wraps. */
  lemma BlitWitness(pitch: uint32, height: uint32, before: seq<uint8>, stride: nat, rows: uint32)
    returns (src: seq<uint8>)
    requires |before| >= stride * rows && stride > 0 && Min(height, rows) > 0
    requires (Min(height, rows) - 1) * pitch >= TWO_32
    ensures |src| == pitch * height && !RowsShown(src, pitch, height, before, stride, rows)
  {
    var y := Min(height, rows) - 1;
    assert pitch > 0;
    RowInBounds(pitch, height, y, 0);
    src := seq(pitch * height, i => if i == y * pitch then 1 else 0);
    BlittedAt(src, pitch, height, before, stride, rows, y, 0);
    assert Mul32(y, pitch) != y * pitch;
    assert ByteAt(src, pitch, height, y, 0) == 1;
  }

  /**
   * At 32 bits a pixel, when the row's bit count does not wrap and the surface row holds its
   * pixels, every pixel that buffer and display share is shown.
   */
  lemma PixelsShown(src: seq<uint8>, width: uint32, height: uint32,
                    before: seq<uint8>, screenWidth: uint32, stride: nat, rows: uint32, x: nat, y: nat, b: nat)
    requires |src| == Pitch.KernelPitch(width, 32) * height && |before| >= stride * rows
    requires width * 32 + 7 < TWO_32 && stride >= 4 * screenWidth
    requires (Min(height, rows) - 1) * Pitch.KernelPitch(width, 32) < TWO_32
    requires x < Min(width, screenWidth) && y < Min(height, rows) && b < 4
    ensures 4 * x + b < Min(Pitch.KernelPitch(width, 32), stride)
    ensures ByteAt(Blitted(src, Pitch.KernelPitch(width, 32), height, before, stride, rows), stride, rows, y, 4 * x + b)
            == ByteAt(src, Pitch.KernelPitch(width, 32), height, y, 4 * x + b)
  {
    hide Pitch.KernelPitch;
    Pitch.PitchHoldsRow(width, 32);
    BlitShowsRows(src, Pitch.KernelPitch(width, 32), height, before, stride, rows);
  }
}
