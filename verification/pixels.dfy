/** Source pixel layouts of a captured screen image and the repack of 32-bit
    pixels into the tightly packed B,G,R byte layout the scaler is given. */
module Pixels {

  import opened Arith

  datatype Option<T> = None | Some(value: T)

  /** A captured screen image as the platform capture service hands it over:
      bits per pixel, the three channel masks (unsigned long on the target),
      the length of one row in bytes, and the raw pixel bytes. */
  datatype Image = Image(
    bitsPerPixel: int,
    redMask: bv64,
    greenMask: bv64,
    blueMask: bv64,
    bytesPerLine: nat,
    data: seq<bv8>)

  /** The source layouts the capture path tells apart. */
  datatype Layout = Argb32 | Bgra32 | Packed24 | Unsupported

  predicate IsArgbMasks(img: Image) {
    img.redMask == 0xff0000 && img.greenMask == 0xff00 && img.blueMask == 0xff
  }

  predicate IsBgraMasks(img: Image) {
    img.blueMask == 0xff0000 && img.greenMask == 0xff00 && img.redMask == 0xff
  }

  /** Which branch of the capture path an image takes. */
  function Classify(img: Image): Layout {
    if img.bitsPerPixel == 32 then
      if IsArgbMasks(img) then Argb32
      else if IsBgraMasks(img) then Bgra32
      else Unsupported
    else if img.bitsPerPixel == 24 then Packed24
    else Unsupported
  }

  /** An image is dropped exactly when it is neither 24-bit nor 32-bit with one
      of the two recognised mask sets. This is the branch structure of
      `Classify` read as one acceptance condition; what each branch hands to
      the frame writer is `WriterInputCases`, and `CaptureFrame` ties that to
      the store. */
  lemma ClassifyAccepts(img: Image)
    ensures Classify(img) == Unsupported <==>
              !(img.bitsPerPixel == 24 ||
                (img.bitsPerPixel == 32 && (IsArgbMasks(img) || IsBgraMasks(img))))
    ensures Classify(img) == Packed24 <==> img.bitsPerPixel == 24
    ensures Classify(img) in {Argb32, Bgra32} ==> img.bitsPerPixel == 32
  {
  }

  /** No mask set is both ARGB and BGRA, so the order of the two tests does not matter. */
  lemma MaskSetsDisjoint(img: Image)
    ensures !(IsArgbMasks(img) && IsBgraMasks(img))
    ensures Classify(img) == Bgra32 ==> IsBgraMasks(img) && img.bitsPerPixel == 32
  {
  }

  /** The image holds every row of a width x height capture at its stride. */
  predicate Covers(img: Image, width: nat, height: nat) {
    4 * width <= img.bytesPerLine && height * img.bytesPerLine <= |img.data|
  }

  /** The four bytes of pixel (x, y) lie inside the image. */
  predicate InImage(img: Image, x: nat, y: nat) {
    y * img.bytesPerLine + x * 4 + 4 <= |img.data|
  }

  lemma CoversPixel(img: Image, width: nat, height: nat, x: nat, y: nat)
    requires Covers(img, width, height) && x < width && y < height
    ensures InImage(img, x, y)
  {
    RowFits(y, height, img.bytesPerLine);
  }

  /** A 32-bit word read from four bytes in little-endian order. */
  function Word(b0: bv8, b1: bv8, b2: bv8, b3: bv8): bv32 {
    (b3 as bv32 << 24) | (b2 as bv32 << 16) | (b1 as bv32 << 8) | (b0 as bv32)
  }

  /** The word is b0 + 256*b1 + 65536*b2 + 16777216*b3 in unsigned 32-bit arithmetic. */
  lemma WordValue(b0: bv8, b1: bv8, b2: bv8, b3: bv8)
    ensures Word(b0, b1, b2, b3) ==
              b0 as bv32 + 0x100 * b1 as bv32 + 0x1_0000 * b2 as bv32 + 0x100_0000 * b3 as bv32
  {
  }

  /** The 32-bit word of pixel (x, y): four bytes at y*stride + x*4. */
  function PixelWord(img: Image, x: nat, y: nat): bv32
    requires InImage(img, x, y)
  {
    var o := y * img.bytesPerLine + x * 4;
    Word(img.data[o], img.data[o + 1], img.data[o + 2], img.data[o + 3])
  }

  /** `(pixel & mask) >> shift`, stored into an unsigned 8-bit variable. */
  function Extract(pixel: bv32, mask: bv64, shift: nat): bv8
    requires shift <= 64
  {
    (((pixel as bv64 & mask) >> shift) & 0xff) as bv8
  }

  // The capture loop shifts by 16, 8 and 0 whichever mask set was recognised.
  function Red(img: Image, x: nat, y: nat): bv8
    requires InImage(img, x, y)
  {
    Extract(PixelWord(img, x, y), img.redMask, 16)
  }

  function Green(img: Image, x: nat, y: nat): bv8
    requires InImage(img, x, y)
  {
    Extract(PixelWord(img, x, y), img.greenMask, 8)
  }

  function Blue(img: Image, x: nat, y: nat): bv8
    requires InImage(img, x, y)
  {
    Extract(PixelWord(img, x, y), img.blueMask, 0)
  }

  /** The B,G,R bytes of pixels 0 .. x-1 of row y. */
  function RowPrefix(img: Image, width: nat, height: nat, y: nat, x: nat): (r: seq<bv8>)
    requires Covers(img, width, height) && y < height && x <= width
    ensures |r| == x * 3
  {
    if x == 0 then []
    else
      CoversPixel(img, width, height, x - 1, y);
      RowPrefix(img, width, height, y, x - 1)
        + [Blue(img, x - 1, y), Green(img, x - 1, y), Red(img, x - 1, y)]
  }

  /** The packed bytes of rows 0 .. rows-1. */
  function Rows(img: Image, width: nat, height: nat, rows: nat): (r: seq<bv8>)
    requires Covers(img, width, height) && rows <= height
    ensures |r| == rows * width * 3
  {
    if rows == 0 then []
    else
      var before := Rows(img, width, height, rows - 1);
      assert rows * width == (rows - 1) * width + width;
      before + RowPrefix(img, width, height, rows - 1, width)
  }

  /** The whole packed BGR24 image. */
  function Bgr24(img: Image, width: nat, height: nat): seq<bv8>
    requires Covers(img, width, height)
  {
    Rows(img, width, height, height)
  }

  /** Byte offset of pixel (x, y) in the packed output. */
  function Offset(width: nat, x: nat, y: nat): nat {
    (y * width + x) * 3
  }

  lemma {:induction false} RowPrefixAt(img: Image, width: nat, height: nat, y: nat, n: nat, x: nat)
    requires Covers(img, width, height) && y < height && x < n <= width
    ensures InImage(img, x, y)
    ensures RowPrefix(img, width, height, y, n)[x * 3] == Blue(img, x, y)
    ensures RowPrefix(img, width, height, y, n)[x * 3 + 1] == Green(img, x, y)
    ensures RowPrefix(img, width, height, y, n)[x * 3 + 2] == Red(img, x, y)
  {
    CoversPixel(img, width, height, x, y);
    if x < n - 1 {
      RowPrefixAt(img, width, height, y, n - 1, x);
    }
  }

  lemma {:induction false} RowsAt(img: Image, width: nat, height: nat, rows: nat, x: nat, y: nat)
    requires Covers(img, width, height) && rows <= height && x < width && y < rows
    ensures InImage(img, x, y)
    ensures Offset(width, x, y) + 2 < |Rows(img, width, height, rows)|
    ensures Rows(img, width, height, rows)[Offset(width, x, y)] == Blue(img, x, y)
    ensures Rows(img, width, height, rows)[Offset(width, x, y) + 1] == Green(img, x, y)
    ensures Rows(img, width, height, rows)[Offset(width, x, y) + 2] == Red(img, x, y)
  {
    CoversPixel(img, width, height, x, y);
    var before := Rows(img, width, height, rows - 1);
    var o := Offset(width, x, y);
    assert o == y * width * 3 + x * 3;
    if y < rows - 1 {
      RowsAt(img, width, height, rows - 1, x, y);
    } else {
      RowPrefixAt(img, width, height, y, width, x);
      assert o == |before| + x * 3;
    }
    RowFits(y, rows, width);
  }

  /** Pixel (x, y) of the capture becomes bytes (y*width + x)*3 .. +2 of the
      packed output, in the order B, G, R, and the output is width*height*3 long. */
  lemma Bgr24Pixel(img: Image, width: nat, height: nat, x: nat, y: nat)
    requires Covers(img, width, height) && x < width && y < height
    ensures |Bgr24(img, width, height)| == width * height * 3
    ensures InImage(img, x, y)
    ensures Bgr24(img, width, height)[Offset(width, x, y)] == Blue(img, x, y)
    ensures Bgr24(img, width, height)[Offset(width, x, y) + 1] == Green(img, x, y)
    ensures Bgr24(img, width, height)[Offset(width, x, y) + 2] == Red(img, x, y)
  {
    RowsAt(img, width, height, height, x, y);
    assert height * width == width * height;
  }

  /** With the ARGB mask set the extracted B, G, R are bytes 0, 1, 2 of the
      pixel's little-endian word. */
  lemma ArgbKeepsChannels(img: Image, x: nat, y: nat)
    requires IsArgbMasks(img) && InImage(img, x, y)
    ensures Blue(img, x, y) == img.data[y * img.bytesPerLine + x * 4]
    ensures Green(img, x, y) == img.data[y * img.bytesPerLine + x * 4 + 1]
    ensures Red(img, x, y) == img.data[y * img.bytesPerLine + x * 4 + 2]
  {
  }

  /** As written, the BGRA mask set yields red and blue bytes that are always
      zero: the red mask 0xff is shifted right by 16 and the blue mask 0xff0000
      is not shifted before truncation to eight bits. Only green survives. */
  lemma BgraDropsRedAndBlue(img: Image, x: nat, y: nat)
    requires IsBgraMasks(img) && InImage(img, x, y)
    ensures Red(img, x, y) == 0 && Blue(img, x, y) == 0
    ensures Green(img, x, y) == img.data[y * img.bytesPerLine + x * 4 + 1]
  {
  }

  /** A concrete BGRA pixel whose red and blue channels are lost. */
  lemma BgraCounterexample()
    ensures var img := Image(32, 0xff, 0xff00, 0xff0000, 4, [0x11, 0x22, 0x33, 0x00]);
            InImage(img, 0, 0) &&
            Red(img, 0, 0) != img.data[0] && Blue(img, 0, 0) != img.data[2]
  {
    var img := Image(32, 0xff, 0xff00, 0xff0000, 4, [0x11, 0x22, 0x33, 0x00]);
    BgraDropsRedAndBlue(img, 0, 0);
  }

  /** The shift that moves a recognised 8-bit channel mask down to bit 0. */
  function MaskShift(mask: bv64): nat {
    if mask == 0xff0000 then 16 else if mask == 0xff00 then 8 else 0
  }

  function IntendedRed(img: Image, x: nat, y: nat): bv8
    requires InImage(img, x, y)
  {
    Extract(PixelWord(img, x, y), img.redMask, MaskShift(img.redMask))
  }

  function IntendedGreen(img: Image, x: nat, y: nat): bv8
    requires InImage(img, x, y)
  {
    Extract(PixelWord(img, x, y), img.greenMask, MaskShift(img.greenMask))
  }

  function IntendedBlue(img: Image, x: nat, y: nat): bv8
    requires InImage(img, x, y)
  {
    Extract(PixelWord(img, x, y), img.blueMask, MaskShift(img.blueMask))
  }

  /** With the shift taken from each mask, both recognised layouts reproduce
      their channels: ARGB has B,G,R in bytes 0,1,2 and BGRA has R,G,B there. */
  lemma IntendedKeepsChannels(img: Image, x: nat, y: nat)
    requires (IsArgbMasks(img) || IsBgraMasks(img)) && InImage(img, x, y)
    ensures var o := y * img.bytesPerLine + x * 4;
            IntendedGreen(img, x, y) == img.data[o + 1] &&
            (IsArgbMasks(img) ==>
               IntendedBlue(img, x, y) == img.data[o] && IntendedRed(img, x, y) == img.data[o + 2]) &&
            (IsBgraMasks(img) ==>
               IntendedRed(img, x, y) == img.data[o] && IntendedBlue(img, x, y) == img.data[o + 2])
  {
  }

  /** First byte of row y in the packed output: rows of width*3 bytes one after another. */
  function RowStart(width: nat, y: nat): nat {
    if y == 0 then 0 else RowStart(width, y - 1) + width * 3
  }

  /** The row start is the source's y*width*3. */
  lemma {:induction false} RowStartValue(width: nat, y: nat)
    ensures RowStart(width, y) == y * width * 3
  {
    if y > 0 {
      RowStartValue(width, y - 1);
      assert y * width == (y - 1) * width + width;
    }
  }

  /** Row y ends no later than row h - 1 does, for y < h. */
  lemma {:induction false} RowStartBelow(width: nat, y: nat, h: nat)
    requires y < h
    ensures RowStart(width, y) + width * 3 <= RowStart(width, h)
  {
    if y < h - 1 {
      RowStartBelow(width, y, h - 1);
    }
  }

  /** The packed output has RowStart(width, height) = width*height*3 bytes. */
  lemma Bgr24Length(img: Image, width: nat, height: nat)
    requires Covers(img, width, height)
    ensures |Bgr24(img, width, height)| == RowStart(width, height) == width * height * 3
  {
    RowStartValue(width, height);
    assert height * width == width * height;
  }

  /** Where pixel (x, y) goes, with the source's offset (y*width + x)*3
      written as the row start plus the column. */
  lemma PixelAtRowStart(img: Image, width: nat, height: nat, x: nat, y: nat)
    requires Covers(img, width, height) && x < width && y < height
    ensures InImage(img, x, y)
    ensures (y * width + x) * 3 == RowStart(width, y) + x * 3
    ensures RowStart(width, y) + x * 3 + 2 < |Bgr24(img, width, height)|
    ensures Bgr24(img, width, height)[RowStart(width, y) + x * 3] == Blue(img, x, y)
    ensures Bgr24(img, width, height)[RowStart(width, y) + x * 3 + 1] == Green(img, x, y)
    ensures Bgr24(img, width, height)[RowStart(width, y) + x * 3 + 2] == Red(img, x, y)
  {
    RowsAt(img, width, height, height, x, y);
    RowStartValue(width, y);
  }

  /** Writes the packed B,G,R bytes of a width x height capture into a new
      array, row by row. */
  method RepackBgr24(img: Image, width: nat, height: nat) returns (bgr: array<bv8>)
    requires Covers(img, width, height)
    ensures fresh(bgr)
    ensures bgr[..] == Bgr24(img, width, height)
  {
    bgr := new bv8[width * height * 3];
    ghost var packed := Bgr24(img, width, height);
    Bgr24Length(img, width, height);
    var y := 0;
    while y < height
      invariant 0 <= y <= height
      invariant RowStart(width, y) <= bgr.Length == |packed|
      invariant forall i :: 0 <= i < RowStart(width, y) ==> bgr[i] == packed[i]
    {
      RepackRow(img, width, height, y, bgr);
      assert RowStart(width, y + 1) == RowStart(width, y) + width * 3;
      y := y + 1;
    }
    assert bgr[..] == packed;
  }

  /** The inner loop over the pixels of row y: bytes (y*width + x)*3 .. +2
      receive pixel x's B, G, R; bytes outside row y are left alone. */
  method RepackRow(img: Image, width: nat, height: nat, y: nat, bgr: array<bv8>)
    requires Covers(img, width, height) && y < height
    requires bgr.Length == |Bgr24(img, width, height)|
    modifies bgr
    ensures RowStart(width, y) + width * 3 <= bgr.Length
    ensures forall i :: 0 <= i < RowStart(width, y) ==> bgr[i] == old(bgr[i])
    ensures forall i :: RowStart(width, y) <= i < RowStart(width, y) + width * 3 ==>
              bgr[i] == Bgr24(img, width, height)[i]
    ensures forall i :: RowStart(width, y) + width * 3 <= i < bgr.Length ==> bgr[i] == old(bgr[i])
  {
    ghost var packed := Bgr24(img, width, height);
    ghost var base := RowStart(width, y);
    Bgr24Length(img, width, height);
    RowStartBelow(width, y, height);
    var x := 0;
    while x < width
      invariant 0 <= x <= width
      invariant base + width * 3 <= bgr.Length
      invariant forall i :: 0 <= i < base ==> bgr[i] == old(bgr[i])
      invariant forall i :: base <= i < base + x * 3 ==> bgr[i] == packed[i]
      invariant forall i :: base + x * 3 <= i < bgr.Length ==> bgr[i] == old(bgr[i])
    {
      PixelAtRowStart(img, width, height, x, y);
      var pixel := PixelWord(img, x, y);
      var r := Extract(pixel, img.redMask, 16);
      var g := Extract(pixel, img.greenMask, 8);
      var b := Extract(pixel, img.blueMask, 0);

      var offset := (y * width + x) * 3;
      StorePixel(bgr, offset, b, g, r);
      x := x + 1;
    }
  }

  /** The three byte stores of one packed pixel. */
  method StorePixel(bgr: array<bv8>, offset: nat, b: bv8, g: bv8, r: bv8)
    requires offset + 3 <= bgr.Length
    modifies bgr
    ensures bgr[offset] == b && bgr[offset + 1] == g && bgr[offset + 2] == r
    ensures forall i :: 0 <= i < bgr.Length && !(offset <= i < offset + 3) ==> bgr[i] == old(bgr[i])
  {
    bgr[offset] := b;
    bgr[offset + 1] := g;
    bgr[offset + 2] := r;
  }

  /** The bytes the capture path hands to the frame writer, if any: the packed
      repack of a recognised 32-bit image, or a 24-bit image's bytes as they are. */
  function WriterInput(img: Image, width: nat, height: nat): Option<seq<bv8>>
    requires img.bitsPerPixel == 32 ==> Covers(img, width, height)
  {
    match Classify(img)
    case Argb32 => Some(Bgr24(img, width, height))
    case Bgra32 => Some(Bgr24(img, width, height))
    case Packed24 => Some(img.data)
    case Unsupported => None
  }

  /** Unsupported layouts reach the writer with nothing; 24-bit images reach it
      unchanged; recognised 32-bit images reach it as width*height*3 packed bytes. */
  lemma WriterInputCases(img: Image, width: nat, height: nat)
    requires img.bitsPerPixel == 32 ==> Covers(img, width, height)
    ensures WriterInput(img, width, height).None? <==> Classify(img) == Unsupported
    ensures img.bitsPerPixel == 24 ==> WriterInput(img, width, height) == Some(img.data)
    ensures img.bitsPerPixel == 32 && WriterInput(img, width, height).Some? ==>
              |WriterInput(img, width, height).value| == width * height * 3
  {
    if img.bitsPerPixel == 32 {
      assert height * width == width * height;
    }
  }
}
