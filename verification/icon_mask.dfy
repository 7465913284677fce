/** The 1-bit transparency mask of a 32x32 Windows icon, as both icon
    builders (src/main.go and src/platform_windows.go) fill it: pixels in
    row-major order, eight to a byte, the leftmost pixel in the most
    significant bit, a set bit meaning "transparent". */
module IconMask {

  const Size: nat := 32
  const Pixels: nat := Size * Size
  const MaskLength: nat := Pixels / 8

  /** The bit of its mask byte that pixel k (counted within the byte) owns:
      1 << (7 - k). */
  function BitFor(k: nat): (b: bv8)
    requires k < 8
    ensures b != 0 && b & (b - 1) == 0
  {
    (1 as bv8) << (7 - k) as bv8
  }

  /** Bit k of mask byte j once pixels [0, n) are done, when `t` says which
      pixels are transparent. */
  function Part(t: seq<bool>, j: nat, n: nat, k: nat): bv8
    requires k < 8
  {
    if 8 * j + k < n && 8 * j + k < |t| && t[8 * j + k] then BitFor(k) else 0
  }

  /** The bits 0 to m-1 (counted from the most significant) of mask byte j
      once the pixels [0, n) have been processed. */
  function MaskBits(t: seq<bool>, j: nat, n: nat, m: nat): bv8
    requires m <= 8
  {
    if m == 0 then 0 else MaskBits(t, j, n, m - 1) | Part(t, j, n, m - 1)
  }

  /** Mask byte j once the pixels [0, n) have been processed. */
  function PartialMaskByte(t: seq<bool>, j: nat, n: nat): bv8
  {
    MaskBits(t, j, n, 8)
  }

  /** Different pixels of a byte own different bits. */
  lemma BitsDisjoint(i: nat, k: nat)
    requires i < 8 && k < 8 && i != k
    ensures BitFor(i) & BitFor(k) == 0
  {
  }

  /** Before any pixel is processed the mask byte is zero, as make() leaves it. */
  lemma {:induction false} MaskStart(t: seq<bool>, j: nat, m: nat)
    requires m <= 8
    ensures MaskBits(t, j, 0, m) == 0
  {
    if m > 0 {
      MaskStart(t, j, m - 1);
    }
  }

  /** Processing pixel p, bit kp of byte jp, changes at most that one part. */
  lemma PartStep(t: seq<bool>, j: nat, p: nat, jp: nat, kp: nat, k: nat)
    requires p < |t| && k < 8 && kp < 8 && p == 8 * jp + kp
    ensures Part(t, j, p + 1, k) == Part(t, j, p, k) | (if j == jp && k == kp && t[p] then BitFor(kp) else 0)
  {
  }

  /** Processing pixel p, which is bit kp of byte jp, sets that bit when p
      is transparent, and changes nothing else. */
  lemma {:induction false} MaskStep(t: seq<bool>, j: nat, p: nat, jp: nat, kp: nat, m: nat)
    requires p < |t| && m <= 8
    requires kp < 8 && p == 8 * jp + kp
    ensures MaskBits(t, j, p + 1, m) ==
            MaskBits(t, j, p, m) | (if j == jp && kp < m && t[p] then BitFor(kp) else 0)
  {
    if m > 0 {
      MaskStep(t, j, p, jp, kp, m - 1);
      PartStep(t, j, p, jp, kp, m - 1);
      var d1: bv8 := if j == jp && kp < m - 1 && t[p] then BitFor(kp) else 0;
      var d2: bv8 := if j == jp && kp == m - 1 && t[p] then BitFor(kp) else 0;
      OrRegroup(MaskBits(t, j, p, m - 1), Part(t, j, p, m - 1), d1, d2);
    }
  }

  lemma OrRegroup(a: bv8, b: bv8, d1: bv8, d2: bv8)
    ensures (a | d1) | (b | d2) == (a | b) | (d1 | d2)
  {
  }

  /** A part holds at most its own bit. */
  lemma PartIsolate(t: seq<bool>, j: nat, n: nat, i: nat, k: nat)
    requires i < 8 && k < 8
    ensures Part(t, j, n, i) & BitFor(k) == (if i == k then Part(t, j, n, i) else 0)
  {
    if i != k {
      BitsDisjoint(i, k);
    }
  }

  lemma AndOverOr(a: bv8, b: bv8, c: bv8)
    ensures (a | b) & c == (a & c) | (b & c)
  {
  }

  /** Reading bit k of the first m bits of a byte gives that pixel's part. */
  lemma {:induction false} MaskBitsIsolate(t: seq<bool>, j: nat, n: nat, m: nat, k: nat)
    requires m <= 8 && k < 8
    ensures MaskBits(t, j, n, m) & BitFor(k) == (if k < m then Part(t, j, n, k) else 0)
  {
    if m > 0 {
      MaskBitsIsolate(t, j, n, m - 1, k);
      PartIsolate(t, j, n, m - 1, k);
      AndOverOr(MaskBits(t, j, n, m - 1), Part(t, j, n, m - 1), BitFor(k));
    }
  }

  /** In the finished mask, the bit of pixel p is set exactly when p is
      transparent. */
  lemma {:induction false} MaskBitMeaning(t: seq<bool>, p: nat)
    requires p < |t|
    ensures (PartialMaskByte(t, p / 8, |t|) & BitFor(p % 8) != 0) <==> t[p]
  {
    MaskBitsIsolate(t, p / 8, |t|, 8, p % 8);
  }

  /** The number of pixel (x, y) in row-major order. */
  function Pixel(x: int, y: int): int
  {
    y * Size + x
  }

  /** Pixel (x, y) is pixel number y*32+x: bit x%8 of byte y*4 + x/8. */
  lemma PixelIndex(x: nat, y: nat)
    requires x < Size && y < Size
    ensures (y * Size + x) / 8 == y * 4 + x / 8 && (y * Size + x) % 8 == x % 8
    ensures (y * Size + x) / Size == y && (y * Size + x) % Size == x
    ensures y * Size + x == 8 * (y * 4 + x / 8) + x % 8
  {
  }

  /** maskBits[(y*32+x)/8] |= 1 << (7 - x%8): marks pixel (x, y) transparent. */
  method SetMaskBit(mask: array<bv8>, x: nat, y: nat)
    requires x < Size && y < Size && mask.Length == MaskLength
    modifies mask
    ensures mask[y * 4 + x / 8] == old(mask[y * 4 + x / 8]) | BitFor(x % 8)
    ensures forall j :: 0 <= j < MaskLength && j != y * 4 + x / 8 ==> mask[j] == old(mask[j])
  {
    PixelIndex(x, y);
    var byteIdx := (y * Size + x) / 8;
    var bitIdx := 7 - x % 8;
    mask[byteIdx] := mask[byteIdx] | ((1 as bv8) << bitIdx as bv8);
  }

  /** The mask once the first n pixels have been processed, when `t` says
      which pixels are transparent. */
  ghost predicate MaskDrawn(mask: array<bv8>, t: seq<bool>, n: int)
    reads mask
  {
    && mask.Length == MaskLength && |t| == Pixels && 0 <= n <= Pixels
    && forall j :: 0 <= j < MaskLength ==> mask[j] == PartialMaskByte(t, j, n)
  }

  /** Processing pixel (x, y), which sets its own bit exactly when it is
      transparent and leaves every other byte alone, keeps the mask drawn. */
  lemma MaskDrawnStep(t: seq<bool>, before: seq<bv8>, mask: array<bv8>, x: nat, y: nat)
    requires x < Size && y < Size && |t| == Pixels
    requires |before| == MaskLength == mask.Length
    requires forall j :: 0 <= j < MaskLength ==> before[j] == PartialMaskByte(t, j, y * Size + x)
    requires forall j :: 0 <= j < MaskLength && j != y * 4 + x / 8 ==> mask[j] == before[j]
    requires mask[y * 4 + x / 8] == before[y * 4 + x / 8] | (if t[y * Size + x] then BitFor(x % 8) else 0)
    ensures MaskDrawn(mask, t, y * Size + x + 1)
  {
    var p := y * Size + x;
    PixelIndex(x, y);
    forall j | 0 <= j < MaskLength
      ensures mask[j] == PartialMaskByte(t, j, p + 1)
    {
      MaskStep(t, j, p, y * 4 + x / 8, x % 8, 8);
    }
  }

  /** In the finished mask, the bit of pixel (x, y) is set exactly when the
      pixel is transparent. */
  lemma MaskMeaning(mask: array<bv8>, t: seq<bool>)
    requires MaskDrawn(mask, t, Pixels)
    ensures forall x, y :: 0 <= x < Size && 0 <= y < Size ==>
              (mask[y * 4 + x / 8] & BitFor(x % 8) != 0 <==> t[Pixel(x, y)])
  {
    forall x, y | 0 <= x < Size && 0 <= y < Size
      ensures mask[y * 4 + x / 8] & BitFor(x % 8) != 0 <==> t[Pixel(x, y)]
    {
      var p := y * Size + x;
      PixelIndex(x, y);
      MaskBitMeaning(t, p);
    }
  }

  /** The mask as make() leaves it: all zero, no pixel processed. */
  lemma MaskDrawnStart(mask: array<bv8>, t: seq<bool>)
    requires mask.Length == MaskLength && |t| == Pixels
    requires forall j :: 0 <= j < MaskLength ==> mask[j] == 0
    ensures MaskDrawn(mask, t, 0)
  {
    forall j | 0 <= j < MaskLength ensures mask[j] == PartialMaskByte(t, j, 0) {
      MaskStart(t, j, 8);
    }
  }

  /** The colour buffers of both icon builders hold four bytes per pixel:
      bytes 4p to 4p+3 belong to pixel p, as entries 0 to 3. */
  lemma OwnBytes(p: int)
    requires 0 <= p
    ensures (4 * p) / 4 == p && (4 * p + 1) / 4 == p && (4 * p + 2) / 4 == p && (4 * p + 3) / 4 == p
    ensures (4 * p) % 4 == 0 && (4 * p + 1) % 4 == 1 && (4 * p + 2) % 4 == 2 && (4 * p + 3) % 4 == 3
  {
  }
}
