/** The bitmap conversion loop of SHELL/LoadBmp/LoadBmp.c. */
module BmpDecode {
  import opened EfiBase

  const HEADER_BYTES := 54
  const CHAR_B: Byte := 0x42
  const CHAR_M: Byte := 0x4D

  datatype Pixel = Pixel(blue: Byte, green: Byte, red: Byte, reserved: Byte)

  /** A picture in a file: where its bytes start, its size and its depth. */
  datatype Picture = Picture(file: seq<Byte>, offset: nat, width: nat, height: nat, bits: nat) {
    predicate Supported() { bits == 4 || bits == 8 || bits == 24 }

    /** Bytes read after `x` pixels of a row. */
    function BytesFor(x: nat): nat { if bits == 4 then (x + 1) / 2 else if bits == 8 then x else 3 * x }
    function RowBytes(): nat { BytesFor(width) }

    function PaletteSize(): nat { if bits == 4 then 16 else if bits == 8 then 256 else 0 }
    predicate HasPalette() { HEADER_BYTES + 4 * PaletteSize() <= |file| }

    /** The colour the palette gives to `index`. */
    function Colour(index: nat): Pixel
      requires HEADER_BYTES + 4 * index + 4 <= |file|
    {
      var o := HEADER_BYTES + 4 * index;
      Pixel(file[o], file[o + 1], file[o + 2], 0)
    }

    predicate RowFits(row: nat) { row + RowBytes() <= |file| }

    /** The pixel in column `x` of the row whose bytes start at `row`, addressed directly. */
    function PixelAt(row: nat, x: nat): Pixel
      requires Supported() && HasPalette() && RowFits(row) && x < width
    {
      if bits == 4 then
        var b: int := file[row + x / 2];
        Colour(if x % 2 == 0 then b / 16 else b % 16)
      else if bits == 8 then Colour(file[row + x])
      else Pixel(file[row + 3 * x], file[row + 3 * x + 1], file[row + 3 * x + 2], 0)
    }
  }

  /** The header fields, at their offsets in the file. */
  function Header(file: seq<Byte>): Picture
    requires |file| >= HEADER_BYTES
  {
    Picture(file, Read32(file, 10), Read32(file, 18), Read32(file, 22), Read16(file, 28))
  }

  // ----- Where rows start

  /** The next multiple of four. */
  function Ceil4(n: nat): nat { (n + 3) / 4 * 4 }

  /** Distance from the image data to file row `h`.  Rows end where the address, not the distance, is a
      multiple of four; `base` is the address of the file. */
  function RowStart(base: nat, rowBytes: nat, h: nat): (d: nat)
    ensures h > 0 ==> (base + d) % 4 == 0
  {
    if h == 0 then 0 else Ceil4(base + RowStart(base, rowBytes, h - 1) + rowBytes) - base
  }

  lemma Ceil4Aligned(a: nat, n: nat)
    requires a % 4 == 0
    ensures Ceil4(a + n) == a + Ceil4(n)
  {}

  lemma NextMultiple(h: nat, c: nat)
    requires h > 0
    ensures h * c == (h - 1) * c + c
  {}

  /** With an aligned file every row takes the row bytes rounded up to four. */
  lemma {:induction false} RowStartClosed(base: nat, rowBytes: nat, h: nat)
    requires base % 4 == 0
    ensures RowStart(base, rowBytes, h) == h * Ceil4(rowBytes)
  {
    if h > 0 {
      hide Ceil4;
      RowStartClosed(base, rowBytes, h - 1);
      var before := RowStart(base, rowBytes, h - 1);
      assert (base + before) % 4 == 0 by {
        if h == 1 {
          assert before == 0;
        }
      }
      Ceil4Aligned(base + before, rowBytes);
      NextMultiple(h, Ceil4(rowBytes));
    }
  }

  /** Without that, the first row ends at the first aligned address and the others are as long as before. */
  lemma {:induction false} RowStartAnywhere(base: nat, rowBytes: nat, h: nat)
    requires h > 0
    ensures RowStart(base, rowBytes, h) == Ceil4(base + rowBytes) - base + (h - 1) * Ceil4(rowBytes)
  {
    hide Ceil4;
    if h > 1 {
      RowStartAnywhere(base, rowBytes, h - 1);
      Ceil4Aligned(base + RowStart(base, rowBytes, h - 1), rowBytes);
      NextMultiple(h - 1, Ceil4(rowBytes));
    }
  }

  /** The closed form holds for every row of a picture exactly when the file is aligned or the picture
      has a single row. */
  lemma RowStartClosedIff(base: nat, rowBytes: nat, rows: nat)
    ensures (forall h :: 0 <= h < rows ==> RowStart(base, rowBytes, h) == h * Ceil4(rowBytes)) <==>
            base % 4 == 0 || rows <= 1
  {
    if base % 4 == 0 {
      forall h: nat | h < rows
        ensures RowStart(base, rowBytes, h) == h * Ceil4(rowBytes)
      {
        RowStartClosed(base, rowBytes, h);
      }
    } else if rows > 1 {
      assert RowStart(base, rowBytes, 1) == Ceil4(base + rowBytes) - base;
      assert RowStart(base, rowBytes, 1) != 1 * Ceil4(rowBytes);
    } else {
      assert RowStart(base, rowBytes, 0) == 0 * Ceil4(rowBytes);
    }
  }

  // ----- The conversion

  datatype Status = Converted | NotBitmap | Compressed | OutOfMemory | UnsupportedDepth

  /** Every row and the palette lie inside the file. */
  ghost predicate Complete(pic: Picture, base: nat) {
    pic.Supported() ==> pic.HasPalette() && forall h :: 0 <= h < pic.height ==> pic.RowFits(FileRow(pic, base, h))
  }

  /** Where file row `h` starts. */
  function FileRow(pic: Picture, base: nat, h: nat): nat {
    pic.offset + RowStart(base, pic.RowBytes(), h)
  }

  /** The row whose bytes start at `row`, pixel by pixel. */
  ghost function RowPixels(pic: Picture, row: nat): (p: seq<Pixel>)
    requires pic.Supported() && pic.HasPalette() && pic.RowFits(row)
    ensures |p| == pic.width && forall x :: 0 <= x < |p| ==> p[x] == pic.PixelAt(row, x)
  {
    seq(pic.width, x requires 0 <= x < pic.width => pic.PixelAt(row, x))
  }

  /** What one round of the inner loop writes, by depth. */
  lemma RoundPixels(pic: Picture, row: nat, x: nat, target: seq<Pixel>)
    requires pic.Supported() && pic.HasPalette() && pic.RowFits(row) && x < pic.width
    requires target == RowPixels(pic, row)
    ensures pic.bits == 4 && x % 2 == 0 ==>
              && row + x / 2 < |pic.file|
              && var b: int := pic.file[row + x / 2];
                 target[x] == pic.Colour(b / 16) && (x + 1 < pic.width ==> target[x + 1] == pic.Colour(b % 16))
    ensures pic.bits == 8 ==> row + x < |pic.file| && target[x] == pic.Colour(pic.file[row + x])
    ensures pic.bits == 24 ==>
              && row + 3 * x + 2 < |pic.file|
              && target[x] == Pixel(pic.file[row + 3 * x], pic.file[row + 3 * x + 1], pic.file[row + 3 * x + 2], 0)
  {}

  /** One round of the inner loop: a pixel, or for four bits a pair, except the last of an odd row. */
  method ConvertRound(
    pic: Picture, image: nat, x: nat, blt: array<Pixel>, b: nat, ghost row: nat, ghost target: seq<Pixel>)
    returns (image': nat, x': nat, b': nat)
    requires pic.Supported() && pic.HasPalette() && pic.RowFits(row) && x < pic.width
    requires target == RowPixels(pic, row)
    requires image == row + pic.BytesFor(x) && (pic.bits == 4 ==> x % 2 == 0)
    requires b + (pic.width - x) <= blt.Length
    modifies blt
    ensures x < x' <= pic.width && b' == b + (x' - x) && image' == row + pic.BytesFor(x')
    ensures pic.bits == 4 ==> x' % 2 == 0 || x' == pic.width
    ensures blt[..] == old(blt[..b]) + target[x..x'] + old(blt[b'..])
  {
    hide RowPixels, Picture.PixelAt, Picture.Colour;
    RoundPixels(pic, row, x, target);
    ghost var was := blt[..];
    image', x', b' := image, x, b;
    if pic.bits == 4 {
      var byte: int := pic.file[image'];
      blt[b'] := pic.Colour(byte / 16);
      assert blt[..] == was[b := target[x]];
      if x' < pic.width - 1 {
        b' := b' + 1;
        x' := x' + 1;
        blt[b'] := pic.Colour(byte % 16);
        assert blt[..] == was[b := target[x]][b + 1 := target[x + 1]];
        TwoWritten(was, b, target, x);
      } else {
        OneWritten(was, b, target, x);
      }
    } else if pic.bits == 8 {
      blt[b'] := pic.Colour(pic.file[image']);
      assert blt[..] == was[b := target[x]];
      OneWritten(was, b, target, x);
    } else {
      var blue := pic.file[image'];
      image' := image' + 1;
      var green := pic.file[image'];
      image' := image' + 1;
      blt[b'] := Pixel(blue, green, pic.file[image'], 0);
      assert blt[..] == was[b := target[x]];
      OneWritten(was, b, target, x);
    }
    x', image', b' := x' + 1, image' + 1, b' + 1;
  }

  lemma OneWritten(was: seq<Pixel>, b: nat, target: seq<Pixel>, x: nat)
    requires b < |was| && x < |target|
    ensures was[b := target[x]] == was[..b] + target[x..x + 1] + was[b + 1..]
  {}

  lemma TwoWritten(was: seq<Pixel>, b: nat, target: seq<Pixel>, x: nat)
    requires b + 1 < |was| && x + 1 < |target|
    ensures was[b := target[x]][b + 1 := target[x + 1]] == was[..b] + target[x..x + 2] + was[b + 2..]
  {}

  /** The inner loop: one row of the file into the buffer at `at`. */
  method ConvertRow(pic: Picture, image: nat, blt: array<Pixel>, at: nat) returns (image': nat)
    requires pic.Supported() && pic.HasPalette() && pic.RowFits(image) && at + pic.width <= blt.Length
    modifies blt
    ensures image' == image + pic.RowBytes()
    ensures blt[..] == old(blt[..at]) + RowPixels(pic, image) + old(blt[at + pic.width..])
  {
    ghost var was, target := blt[..], RowPixels(pic, image);
    hide RowPixels;
    image' := image;
    var x, b := 0, at;
    while x < pic.width
      invariant 0 <= x <= pic.width && b == at + x && image' == image + pic.BytesFor(x)
      invariant pic.bits == 4 ==> x % 2 == 0 || x == pic.width
      invariant blt[..] == was[..at] + target[..x] + was[b..]
    {
      ghost var x0 := x;
      image', x, b := ConvertRound(pic, image', x, blt, b, image, target);
      PieceWritten(was, at, target, x0, x, blt[..]);
    }
    assert target[..x] == target;
  }

  lemma PieceWritten(was: seq<Pixel>, at: nat, target: seq<Pixel>, x: nat, x': nat, now: seq<Pixel>)
    requires x <= x' <= |target| && at + |target| <= |was|
    requires var s := was[..at] + target[..x] + was[at + x..];
             now == s[..at + x] + target[x..x'] + s[at + x'..]
    ensures now == was[..at] + target[..x'] + was[at + x'..]
  {}

  // ----- Rows of the buffer

  /** Row `r` of the buffer, `w` pixels wide. */
  ghost predicate RowIs(s: seq<Pixel>, w: nat, r: nat, pixels: seq<Pixel>) {
    |pixels| == w && 0 <= r * w && r * w + w <= |s| && s[r * w..r * w + w] == pixels
  }

  lemma RowWritten(s: seq<Pixel>, s': seq<Pixel>, w: nat, r: nat, pixels: seq<Pixel>)
    requires |pixels| == w && 0 <= r * w && r * w + w <= |s| && s' == s[..r * w] + pixels + s[r * w + w..]
    ensures RowIs(s', w, r, pixels)
  {}

  lemma RowKept(s: seq<Pixel>, s': seq<Pixel>, w: nat, r: nat, pixels: seq<Pixel>, k: nat, other: seq<Pixel>)
    requires |pixels| == w && 0 <= r * w && r * w + w <= |s| && s' == s[..r * w] + pixels + s[r * w + w..]
    requires r < k && RowIs(s, w, k, other)
    ensures RowIs(s', w, k, other)
  {
    MulGap(w, r, k);
    SliceKept(s, s', r * w, pixels, k * w, w);
  }

  lemma SliceKept(s: seq<Pixel>, s': seq<Pixel>, at: nat, pixels: seq<Pixel>, from: nat, w: nat)
    requires at + |pixels| <= from && from + w <= |s| && s' == s[..at] + pixels + s[at + |pixels|..]
    ensures |s'| == |s| && s'[from..from + w] == s[from..from + w]
  {}

  /** Buffer row `r` holds the file row that is as far from the end. */
  ghost predicate RowDone(pic: Picture, base: nat, s: seq<Pixel>, r: nat)
    requires Complete(pic, base) && pic.Supported() && r < pic.height
  {
    RowIs(s, pic.width, r, RowPixels(pic, FileRow(pic, base, pic.height - 1 - r)))
  }

  ghost predicate RowsDone(pic: Picture, base: nat, s: seq<Pixel>, from: nat)
    requires Complete(pic, base) && pic.Supported()
  {
    forall r: nat :: from <= r < pic.height ==> RowDone(pic, base, s, r)
  }

  lemma RowRoom(w: nat, n: nat, r: nat)
    requires r < n
    ensures 0 <= r * w && r * w + w <= w * n
  {
    MulGap(w, r, n);
  }

  lemma RowsStep(pic: Picture, base: nat, s: seq<Pixel>, s': seq<Pixel>, r: nat)
    requires Complete(pic, base) && pic.Supported() && r < pic.height && RowsDone(pic, base, s, r + 1)
    requires 0 <= r * pic.width && r * pic.width + pic.width <= |s|
    requires var row := RowPixels(pic, FileRow(pic, base, pic.height - 1 - r));
             s' == s[..r * pic.width] + row + s[r * pic.width + pic.width..]
    ensures RowsDone(pic, base, s', r)
  {
    hide RowIs, RowPixels, FileRow;
    var row := RowPixels(pic, FileRow(pic, base, pic.height - 1 - r));
    RowWritten(s, s', pic.width, r, row);
    forall k: nat | r <= k < pic.height
      ensures RowDone(pic, base, s', k)
    {
      if k > r {
        assert RowDone(pic, base, s, k);
        RowKept(s, s', pic.width, r, row, k, RowPixels(pic, FileRow(pic, base, pic.height - 1 - k)));
      }
    }
  }

  /** The outer loop: file rows in order, into buffer rows from the last to the first. */
  method ConvertRows(pic: Picture, base: nat, blt: array<Pixel>)
    requires Complete(pic, base) && pic.Supported() && blt.Length == pic.width * pic.height
    modifies blt
    ensures RowsDone(pic, base, blt[..], 0)
  {
    hide RowsDone, RowPixels;
    var w, n := pic.width, pic.height;
    var image := pic.offset;
    NothingDone(pic, base, blt[..]);
    var height := 0;
    while height < n
      invariant 0 <= height <= n
      invariant image == FileRow(pic, base, height)
      invariant RowsDone(pic, base, blt[..], n - height)
    {
      ghost var was, r := blt[..], n - height - 1;
      RowRoom(w, n, r);
      assert pic.RowFits(FileRow(pic, base, height));
      image := ConvertRow(pic, image, blt, (n - height - 1) * w);
      WholeSlices(was, r * w, w);
      RowsStep(pic, base, was, blt[..], r);
      var imageIndex := base + image - pic.offset;
      PadRow(pic, base, height);
      if imageIndex % 4 != 0 {
        image := image + (4 - imageIndex % 4);
      }
      height := height + 1;
    }
  }

  lemma WholeSlices(s: seq<Pixel>, at: nat, w: nat)
    requires at + w <= |s|
    ensures s[..at] == s[..][..at] && s[at + w..] == s[..][at + w..]
  {}

  lemma NothingDone(pic: Picture, base: nat, s: seq<Pixel>)
    requires Complete(pic, base) && pic.Supported()
    ensures RowsDone(pic, base, s, pic.height)
  {}

  /** Padding from the end of row `h` leads to row `h + 1`. */
  lemma PadRow(pic: Picture, base: nat, h: nat)
    ensures var end := FileRow(pic, base, h) + pic.RowBytes();
            var index := base + end - pic.offset;
            FileRow(pic, base, h + 1) == if index % 4 != 0 then end + (4 - index % 4) else end
  {
    hide Ceil4;
    Ceil4Pad(base + FileRow(pic, base, h) + pic.RowBytes() - pic.offset);
  }

  lemma Ceil4Pad(n: nat)
    ensures Ceil4(n) == if n % 4 != 0 then n + (4 - n % 4) else n
  {
    DivModUnique(n + 3, 4, (n + 3) / 4, (n + 3) % 4);
  }

  /** The header of an uncompressed bitmap. */
  predicate IsBitmap(file: seq<Byte>)
    requires |file| >= HEADER_BYTES
  {
    file[0] == CHAR_B && file[1] == CHAR_M && Read32(file, 30) == 0
  }

  /** Converts an uncompressed bitmap of 4, 8 or 24 bits per pixel; `base` is the address of the file. */
  method LoadBmpFile(file: seq<Byte>, base: nat, granted: bool) returns (status: Status, blt: array?<Pixel>)
    requires |file| >= HEADER_BYTES
    requires IsBitmap(file) ==> Complete(Header(file), base) && Header(file).width * Header(file).height < 0x1_0000_0000
    ensures status == NotBitmap <==> file[0] != 0x42 || file[1] != 0x4D
    ensures status == Compressed <==> file[0] == 0x42 && file[1] == 0x4D && Read32(file, 30) != 0
    ensures status == OutOfMemory <==> IsBitmap(file) && !granted
    ensures status == UnsupportedDepth <==>
            && IsBitmap(file) && granted && Read16(file, 28) !in [4, 8, 24]
            && Read32(file, 18) > 0 && Read32(file, 22) > 0
    ensures status == Converted ==> blt != null && blt.Length == Read32(file, 18) * Read32(file, 22)
    ensures status == Converted && Read16(file, 28) in [4, 8, 24] ==> AllShown(file, base, blt[..])
  {
    blt := null;
    if file[0] != CHAR_B || file[1] != CHAR_M {
      return NotBitmap, null;
    }
    if Read32(file, 30) != 0 {
      return Compressed, null;
    }
    var pic := Header(file);
    hide RowsDone, AllShown, ShownAt, Complete;
    if !granted {
      return OutOfMemory, null;
    }
    NonNegative(pic.width, pic.height);
    blt := new Pixel[pic.width * pic.height](_ => Pixel(0, 0, 0, 0));
    if pic.width == 0 || pic.height == 0 {
      NothingToShow(file, base, blt[..]);
      return Converted, blt;
    }
    if !pic.Supported() {
      return UnsupportedDepth, null;
    }
    ConvertRows(pic, base, blt);
    PictureShown(file, base, blt[..]);
    status := Converted;
  }

  // ----- The picture in bytes

  /** Where the bytes of row `k` of the file start. */
  function RowOffset(file: seq<Byte>, base: nat, k: nat): int
    requires |file| >= 54
  {
    var w, bits := Read32(file, 18), Read16(file, 28);
    var rowBytes := if bits == 4 then (w + 1) / 2 else if bits == 8 then w else 3 * w;
    Read32(file, 10) +
    if k == 0 then 0 else (base + rowBytes + 3) / 4 * 4 - base + (k - 1) * ((rowBytes + 3) / 4 * 4)
  }

  /** Column `x` of buffer row `r` is its pixel in the file, in blue, green and red: three bytes of the row, or
      a palette entry of four bytes behind the header, picked by a byte or half a byte of the row. */
  predicate ShownAt(file: seq<Byte>, base: nat, s: seq<Pixel>, r: nat, x: nat)
    requires |file| >= 54 && r < Read32(file, 22)
  {
    var at, row, bits := r * Read32(file, 18) + x, RowOffset(file, base, Read32(file, 22) - 1 - r), Read16(file, 28);
    && 0 <= at < |s| && 0 <= row
    && if bits == 24 then
         && row + 3 * x + 2 < |file|
         && s[at] == Pixel(file[row + 3 * x], file[row + 3 * x + 1], file[row + 3 * x + 2], 0)
       else
         var o := row + if bits == 8 then x else x / 2;
         && o < |file|
         && var b: int := file[o];
            var i := if bits == 8 then b else if x % 2 == 0 then b / 16 else b % 16;
            && 54 + 4 * i + 2 < |file|
            && s[at] == Pixel(file[54 + 4 * i], file[54 + 4 * i + 1], file[54 + 4 * i + 2], 0)
  }

  ghost predicate AllShown(file: seq<Byte>, base: nat, s: seq<Pixel>)
    requires |file| >= 54
  {
    forall r: nat, x: nat :: r < Read32(file, 22) && x < Read32(file, 18) ==> ShownAt(file, base, s, r, x)
  }

  lemma NothingToShow(file: seq<Byte>, base: nat, s: seq<Pixel>)
    requires |file| >= 54 && (Read32(file, 18) == 0 || Read32(file, 22) == 0)
    ensures AllShown(file, base, s)
  {}

  /** The converted rows are the picture, byte by byte. */
  lemma PictureShown(file: seq<Byte>, base: nat, s: seq<Pixel>)
    requires |file| >= 54
    requires Complete(Header(file), base) && Header(file).Supported() && RowsDone(Header(file), base, s, 0)
    ensures AllShown(file, base, s)
  {
    hide ShownAt, RowsDone, Complete;
    forall r: nat, x: nat | r < Read32(file, 22) && x < Read32(file, 18)
      ensures ShownAt(file, base, s, r, x)
    {
      PixelShown(file, base, s, r, x);
    }
  }

  lemma PixelShown(file: seq<Byte>, base: nat, s: seq<Pixel>, r: nat, x: nat)
    requires |file| >= 54 && r < Read32(file, 22) && x < Read32(file, 18)
    requires Complete(Header(file), base) && Header(file).Supported() && RowsDone(Header(file), base, s, 0)
    ensures ShownAt(file, base, s, r, x)
  {
    hide RowIs, RowPixels, RowOffset, ShownAt, Picture.PixelAt, Picture.RowFits, FileRow, Read16, Read32;
    var pic := Header(file);
    var row := FileRow(pic, base, pic.height - 1 - r);
    assert RowDone(pic, base, s, r) && pic.RowFits(row);
    RowOffsetIs(file, base, pic.height - 1 - r);
    PixelInRow(s, pic.width, r, RowPixels(pic, row), x);
    assert RowPixels(pic, row)[x] == pic.PixelAt(row, x);
    NonNegative(r, pic.width);
    ShownFrom(file, base, s, r, x);
  }

  lemma RowOffsetIs(file: seq<Byte>, base: nat, h: nat)
    requires |file| >= 54 && Header(file).Supported()
    ensures FileRow(Header(file), base, h) == RowOffset(file, base, h)
  {
    hide RowStart;
    var rowBytes := Header(file).RowBytes();
    if h > 0 {
      RowStartAnywhere(base, rowBytes, h);
    } else {
      FirstRow(base, rowBytes);
    }
  }

  lemma ShownFrom(file: seq<Byte>, base: nat, s: seq<Pixel>, r: nat, x: nat)
    requires |file| >= 54 && r < Read32(file, 22) && x < Read32(file, 18)
    requires var pic, at := Header(file), r * Read32(file, 18) + x;
             var row := RowOffset(file, base, Read32(file, 22) - 1 - r);
             && pic.Supported() && pic.HasPalette() && 0 <= row && pic.RowFits(row)
             && 0 <= at < |s| && s[at] == pic.PixelAt(row, x)
    ensures ShownAt(file, base, s, r, x)
  {
    hide RowOffset, Read16, Read32;
  }

  lemma FirstRow(base: nat, rowBytes: nat)
    ensures RowStart(base, rowBytes, 0) == 0
  {}

  lemma PixelInRow(s: seq<Pixel>, w: nat, r: nat, pixels: seq<Pixel>, x: nat)
    requires RowIs(s, w, r, pixels) && x < w
    ensures r * w + x < |s| && s[r * w + x] == pixels[x]
  {}

  /** The whole picture: pixel `x` of buffer row `r` is the one addressed directly in file row
      `height - 1 - r`, rows being rounded up to four bytes. */
  lemma PictureAddressed(pic: Picture, base: nat, s: seq<Pixel>, r: nat, x: nat)
    requires Complete(pic, base) && pic.Supported() && base % 4 == 0
    requires RowsDone(pic, base, s, 0) && r < pic.height && x < pic.width
    ensures 0 <= r * pic.width + x < |s|
    ensures 0 <= (pic.height - 1 - r) * Ceil4(pic.RowBytes())
    ensures var row := pic.offset + (pic.height - 1 - r) * Ceil4(pic.RowBytes());
            pic.RowFits(row) && s[r * pic.width + x] == pic.PixelAt(row, x)
  {
    hide RowIs, RowPixels, Ceil4, RowStart, Picture.PixelAt, Picture.BytesFor;
    var h := pic.height - 1 - r;
    var row := FileRow(pic, base, h);
    assert RowDone(pic, base, s, r) && pic.RowFits(row);
    RowStartClosed(base, pic.RowBytes(), h);
    NonNegative(h, Ceil4(pic.RowBytes()));
    NonNegative(r, pic.width);
    PixelInRow(s, pic.width, r, RowPixels(pic, row), x);
    assert RowPixels(pic, row)[x] == pic.PixelAt(row, x);
  }
}
