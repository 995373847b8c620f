/** The bitmaps of a skin file (parseBitmaps and base64ToRGBArray in js/SkinLoader.js): a
    bitmap is its width, its height and width * height pixels of three bytes in blue, green,
    red order. The canvas a bitmap is drawn on is represented by its RGBA image data. */
module Bitmaps {
  import opened Outcomes
  import opened Bytes
  import opened BinaryParser

  /** Channel c (0 red, 1 green, 2 blue, 3 alpha) of canvas pixel q, for BGR pixels stored
      from `base`: the colour bytes in reverse order and an opaque alpha. */
  function CanvasPixel(buf: seq<byte>, base: nat, q: nat, c: nat): byte
    requires c < 4 && base + 3 * q + 3 <= |buf|
  {
    if c == 3 then 255 else buf[base + 3 * q + 2 - c]
  }

  /** The canvas image data of n BGR pixels stored from `base`, four bytes per pixel. */
  function CanvasPixels(buf: seq<byte>, base: nat, n: nat): (r: seq<byte>)
    requires base + 3 * n <= |buf|
    ensures |r| == 4 * n
  {
    seq(4 * n, k requires 0 <= k < 4 * n => CanvasPixel(buf, base, k / 4, k % 4))
  }

  /** parseBitmaps(data, posbm): the width and height stored at `posbm`, and the canvas
      holding the width * height BGR pixels that follow them. Any read past the end of the
      buffer is a RangeError; before any pixel is read, getImageData rejects a zero width or
      height with an IndexSizeError. */
  function BitmapOf(buf: seq<byte>, posbm: nat): Result<Value> {
    if posbm + 8 > |buf| then Err(OutOfBounds)
    else
      var width, height := ReadLE(buf, posbm, 4), ReadLE(buf, posbm + 4, 4);
      if width == 0 || height == 0 then Err(EmptyImage)
      else if posbm + 8 + 3 * (width * height) > |buf| then Err(OutOfBounds)
      else Ok(Bitmap(width, height, CanvasPixels(buf, posbm + 8, width * height)))
  }

  /** The object parseBitmaps returns, with the canvas contents in place of its PNG data URL. */
  function Bitmap(width: nat, height: nat, rgba: seq<byte>): Value {
    Plain([Prop("width", Number(width)), Prop("height", Number(height)), Prop("rgba", Raw(rgba))])
  }

  /** parseBitmaps: reads the width and height, takes the image data of a new canvas of
      that size, then draws the pixels on it. */
  method DecodeBitmap(data: array<byte>, posbm: nat) returns (r: Result<Value>)
    ensures r == BitmapOf(data[..], posbm)
  {
    if posbm + 8 > data.Length {
      return Err(OutOfBounds);
    }
    var width := ReadLE(data[..], posbm, 4);
    var height := ReadLE(data[..], posbm + 4, 4);
    if width == 0 || height == 0 {
      return Err(EmptyImage);
    }
    var canvas, inside := DrawBitmap(data, posbm + 8, width, height);
    if !inside {
      return Err(OutOfBounds);
    }
    r := Ok(Bitmap(width, height, canvas[..]));
  }

  /** A bitmap is rejected as empty exactly when its header can be read and gives a zero
      width or height. */
  lemma EmptyBitmap(buf: seq<byte>, posbm: nat)
    ensures BitmapOf(buf, posbm) == Err(EmptyImage) <==>
              posbm + 8 <= |buf| && (ReadLE(buf, posbm, 4) == 0 || ReadLE(buf, posbm + 4, 4) == 0)
  {
  }

  /** The nested pixel loop of parseBitmaps over rows and columns, filling the canvas image
      data, which starts out all zero. `row` is y * width, the index of the row's first pixel;
      the loop over the columns of one row is DrawRow. */
  method DrawBitmap(data: array<byte>, base: nat, width: nat, height: nat) returns (canvas: array<byte>, inside: bool)
    requires base <= data.Length
    ensures fresh(canvas)
    ensures inside <==> width * height == 0 || base + 3 * (width * height) <= data.Length
    ensures inside ==> canvas[..] == CanvasPixels(data[..], base, width * height)
  {
    var area := width * height;
    canvas := new byte[area * 4](_ => 0);
    var row := 0;
    for y := 0 to height
      invariant row == y * width && row <= area
      invariant Drawn(canvas[..], data[..], base, row)
    {
      RowFits(y, width, height);
      inside := DrawRow(data, base, canvas, row, width);
      if !inside {
        assert 0 < row + width <= area && base + 3 * area >= base + 3 * (row + width);
        return;
      }
      row := row + width;
    }
    assert row == area;
    DrawnAll(canvas[..], data[..], base, area);
    inside := true;
  }

  /** A canvas of n pixels that holds all n of them is the canvas image of those pixels. */
  lemma DrawnAll(canvas: seq<byte>, buf: seq<byte>, base: nat, n: nat)
    requires |canvas| == 4 * n && Drawn(canvas, buf, base, n) && base + 3 * n <= |buf|
    ensures canvas == CanvasPixels(buf, base, n)
  {
    forall k | 0 <= k < 4 * n
      ensures canvas[k] == CanvasPixels(buf, base, n)[k]
    {
      assert k == 4 * (k / 4) + k % 4;
    }
  }

  /** The first n pixels of the canvas hold the n BGR pixels stored from `base`. */
  ghost predicate Drawn(canvas: seq<byte>, buf: seq<byte>, base: nat, n: nat) {
    4 * n <= |canvas| && (n > 0 ==> base + 3 * n <= |buf|) &&
    forall q, c :: 0 <= q < n && 0 <= c < 4 ==> canvas[4 * q + c] == CanvasPixel(buf, base, q, c)
  }

  /** The inner loop of parseBitmaps: draws the `width` pixels that follow pixel `row`, or
      reports false at the first pixel whose bytes lie past the end of `data`. */
  method DrawRow(data: array<byte>, base: nat, canvas: array<byte>, row: nat, width: nat) returns (inside: bool)
    requires canvas != data && 4 * (row + width) <= canvas.Length
    requires Drawn(canvas[..], data[..], base, row)
    modifies canvas
    ensures inside <==> row + width == 0 || base + 3 * (row + width) <= data.Length
    ensures inside ==> Drawn(canvas[..], data[..], base, row + width)
  {
    ghost var buf := data[..];
    for x := 0 to width
      invariant Drawn(canvas[..], buf, base, row + x)
    {
      var p := x + row;
      var i := 3 * p;
      if base + i + 2 >= data.Length {
        return false;
      }
      var bb, gg, rr := data[base + i], data[base + i + 1], data[base + i + 2];
      ghost var before := canvas[..];
      PutPixel(canvas, p, rr, gg, bb);
      DrawnStep(before, buf, base, p);
    }
    return true;
  }

  /** Stores one RGBA pixel, opaque, as canvas pixel p. */
  method PutPixel(canvas: array<byte>, p: nat, rr: byte, gg: byte, bb: byte)
    requires 4 * p + 4 <= canvas.Length
    modifies canvas
    ensures canvas[..] == old(canvas[..])[4 * p := rr][4 * p + 1 := gg][4 * p + 2 := bb][4 * p + 3 := 255]
  {
    var pixelIndex := 4 * p;
    canvas[pixelIndex] := rr;
    canvas[pixelIndex + 1] := gg;
    canvas[pixelIndex + 2] := bb;
    canvas[pixelIndex + 3] := 255;
  }

  /** Drawing pixel p, the next one, keeps the pixels already drawn and adds it. */
  lemma DrawnStep(canvas: seq<byte>, buf: seq<byte>, base: nat, p: nat)
    requires Drawn(canvas, buf, base, p) && 4 * p + 4 <= |canvas| && base + 3 * p + 3 <= |buf|
    ensures Drawn(canvas[4 * p := buf[base + 3 * p + 2]][4 * p + 1 := buf[base + 3 * p + 1]]
                        [4 * p + 2 := buf[base + 3 * p]][4 * p + 3 := 255], buf, base, p + 1)
  {
    var next := canvas[4 * p := buf[base + 3 * p + 2]][4 * p + 1 := buf[base + 3 * p + 1]]
                      [4 * p + 2 := buf[base + 3 * p]][4 * p + 3 := 255];
    forall q, c | 0 <= q < p + 1 && 0 <= c < 4
      ensures next[4 * q + c] == CanvasPixel(buf, base, q, c)
    {
      if q < p {
        assert 4 * q + c < 4 * p;
      }
    }
  }

  /** The pixels of row y end no later than the last pixel of a width x height bitmap. */
  lemma RowFits(y: nat, width: nat, height: nat)
    requires y < height
    ensures (y + 1) * width <= width * height && (y + 1) * width == y * width + width
  {
    var rest := height - y - 1;
    MulNonNegative(width, rest);
    assert width * (y + 1) == width * y + width;
    assert width * height == width * (y + 1) + width * rest;
  }

  /** Byte c (0 blue, 1 green, 2 red) of the file pixel that canvas pixel q gives back. */
  function BgrByte(rgba: seq<byte>, q: nat, c: nat): byte
    requires c < 3 && 4 * q + 3 <= |rgba|
  {
    rgba[4 * q + 2 - c]
  }

  /** base64ToRGBArray's loop: every four canvas bytes r, g, b, a give back b, g, r. */
  function Bgr(rgba: seq<byte>): (r: seq<byte>)
    requires |rgba| % 4 == 0
    ensures |r| == 3 * (|rgba| / 4)
  {
    seq(3 * (|rgba| / 4), k requires 0 <= k < 3 * (|rgba| / 4) => BgrByte(rgba, k / 3, k % 3))
  }

  method ToBgr(data: seq<byte>) returns (rgbArray: seq<byte>)
    requires |data| % 4 == 0
    ensures rgbArray == Bgr(data)
  {
    ghost var m := |data| / 4;
    rgbArray := [];
    var i := 0;
    ghost var n := 0;
    while i < |data|
      invariant i == 4 * n && n <= m
      invariant |rgbArray| == 3 * n
      invariant forall q, c :: 0 <= q < n && 0 <= c < 3 ==> rgbArray[3 * q + c] == BgrByte(data, q, c)
      decreases |data| - i
    {
      var rr, gg, bb := data[i], data[i + 1], data[i + 2];
      rgbArray := rgbArray + [bb, gg, rr];
      i := i + 4;
      n := n + 1;
    }
    forall k | 0 <= k < 3 * m
      ensures rgbArray[k] == Bgr(data)[k]
    {
      assert k == 3 * (k / 3) + k % 3;
    }
  }

  /** Reading the canvas back gives exactly the BGR bytes the decoder drew: the two loops
      are inverse, so a bitmap survives a round trip through the editor unchanged. */
  lemma CanvasRoundTrip(buf: seq<byte>, base: nat, n: nat)
    requires base + 3 * n <= |buf|
    ensures Bgr(CanvasPixels(buf, base, n)) == buf[base..base + 3 * n]
  {
    var canvas := CanvasPixels(buf, base, n);
    DivModUnique(4 * n, 4, n, 0);
    forall k | 0 <= k < 3 * n
      ensures Bgr(canvas)[k] == buf[base + k]
    {
      var q, c := k / 3, k % 3;
      var j := 4 * q + 2 - c;
      DivModUnique(j, 4, q, 2 - c);
      assert canvas[j] == buf[base + 3 * q + 2 - (2 - c)];
    }
  }

  /** The first four bytes of s, little-endian. */
  lemma DecodeLE4(s: seq<byte>)
    requires |s| == 4
    ensures DecodeLE(s) == s[0] as int + 256 * (s[1] as int) + 65536 * (s[2] as int) + 16777216 * (s[3] as int)
  {
    assert s[1..][0] == s[1] && s[1..][1..] == s[2..];
    assert s[2..][0] == s[2] && s[2..][1..] == s[3..];
    assert s[3..][0] == s[3] && s[3..][1..] == [];
    assert DecodeLE(s[3..]) == s[3];
    assert DecodeLE(s[2..]) == s[2] + 256 * DecodeLE(s[3..]);
    assert DecodeLE(s[1..]) == s[1] + 256 * DecodeLE(s[2..]);
    assert DecodeLE(s) == s[0] + 256 * DecodeLE(s[1..]);
  }

  /** A 2 x 1 bitmap: the blue-green-red bytes 0 0 255 (pure red) and 10 20 30 are drawn as
      the canvas bytes 255 0 0 255 30 20 10 255. */
  lemma BitmapExample(buf: seq<byte>)
    requires buf == [2, 0, 0, 0, 1, 0, 0, 0, 0, 0, 255, 10, 20, 30]
    ensures BitmapOf(buf, 0) == Ok(Bitmap(2, 1, [255, 0, 0, 255, 30, 20, 10, 255]))
  {
    DecodeLE4(buf[0..4]);
    DecodeLE4(buf[4..8]);
    var canvas := CanvasPixels(buf, 8, 2);
    var expected: seq<byte> := [255, 0, 0, 255, 30, 20, 10, 255];
    forall k | 0 <= k < 8
      ensures canvas[k] == expected[k]
    {
      DivModUnique(k, 4, k / 4, k % 4);
    }
    assert canvas == expected;
  }
}
