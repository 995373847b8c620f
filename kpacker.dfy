/** The KPCK container of js/KPacker.js: a 12-byte header (magic "KPCK", unpacked size,
    compression flag) followed by an LZMA stream whose own header is dropped and whose first
    four bytes are stored in the opposite byte order.

    LZMA itself is not modelled: the compressor and the decompressor are the two functions of
    a `Codec` value handed in by the caller, and everything here is about the framing the
    container puts around them. */
module KPacker {
  import opened Outcomes
  import opened Bytes

  const MAGIC: nat := 0x4B43504B
  const HEADER_SIZE: nat := 12
  const LZMA_HEADER_SIZE: nat := 14
  /** lc = 3, lp = 0, pb = 2 in the LZMA properties byte: (pb * 5 + lp) * 9 + lc. */
  const LZMA_HEADER_PROPS: byte := (2 * 5 + 0) * 9 + 3
  const LZMA_DICT_MIN_SIZE: nat := 0x10000
  const COMPRESSION_FLAG: nat := 1

  /** `LZMA.compress(bytes, mode)` and `LZMA.decompress(bytes)`; an exception is an `Err`. */
  datatype Codec = Codec(
    compress: (seq<byte>, nat) -> Result<seq<byte>>,
    decompress: seq<byte> -> Result<seq<byte>>)

  // ---------------------------------------------------------------------------
  // Dictionary size
  // ---------------------------------------------------------------------------

  /** 0x10000 times a power of two. */
  predicate IsDictSize(d: int)
    decreases if d < 0 then 0 else d
  {
    d == LZMA_DICT_MIN_SIZE || (d > LZMA_DICT_MIN_SIZE && d % 2 == 0 && IsDictSize(d / 2))
  }

  lemma DoubleDictSize(d: int)
    ensures IsDictSize(d) ==> IsDictSize(2 * d)
  {
    assert (2 * d) / 2 == d;
  }

  /** Two dictionary sizes differ at least by a factor of two. */
  lemma {:induction false} DictSizeGap(d: int, m: int)
    requires IsDictSize(d) && IsDictSize(m) && d < m
    ensures 2 * d <= m
    decreases m
  {
    if m != LZMA_DICT_MIN_SIZE && d != m / 2 {
      if d < m / 2 {
        DictSizeGap(d, m / 2);
      } else {
        DictSizeGap(d / 2, m / 2);
      }
    }
  }

  /** Doubling from d until size is reached: the result is at least size, and it is d itself
      or the first doubling that reaches size. */
  function DictFrom(d: nat, size: nat): (r: nat)
    requires d > 0
    ensures size <= r && d <= r
    ensures r == d || r / 2 < size
    ensures IsDictSize(d) ==> IsDictSize(r)
    decreases size - d
  {
    if d >= size then d
    else
      DoubleDictSize(d);
      DictFrom(2 * d, size)
  }

  /** The dictionary size unpack announces to LZMA: the smallest 0x10000 * 2^k that is not
      below the unpacked size. */
  function DictFor(size: nat): nat {
    DictFrom(LZMA_DICT_MIN_SIZE, size)
  }

  lemma DictForBounds(size: nat)
    ensures IsDictSize(DictFor(size)) && size <= DictFor(size)
    ensures DictFor(size) == LZMA_DICT_MIN_SIZE || DictFor(size) / 2 < size
  {
  }

  /** No dictionary size that covers the unpacked size is smaller than the one unpack picks. */
  lemma {:induction false} DictForLeast(size: nat, d: nat)
    requires IsDictSize(d) && size <= d
    ensures DictFor(size) <= d
  {
    DictForBounds(size);
    if d < DictFor(size) {
      DictSizeGap(d, DictFor(size));
    }
  }

  /** Sizes up to 64 KiB get 64 KiB; larger ones the next power of two times 64 KiB, an exact
      power staying as it is. */
  lemma DictForExamples()
    ensures DictFor(0) == 0x10000 && DictFor(70000) == 0x20000
    ensures DictFor(0x20000) == 0x20000 && DictFor(0x20001) == 0x40000
  {
    assert DictFrom(0x20000, 70000) == 0x20000;
    assert DictFrom(0x40000, 0x20001) == 0x40000;
  }

  /** The doubling loop, on unbounded integers. */
  method DictSize(unpackSize: nat) returns (dictSize: nat)
    ensures dictSize == DictFor(unpackSize)
    ensures IsDictSize(dictSize) && unpackSize <= dictSize
    ensures dictSize == LZMA_DICT_MIN_SIZE || dictSize / 2 < unpackSize
  {
    dictSize := LZMA_DICT_MIN_SIZE;
    while dictSize < unpackSize
      invariant dictSize > 0 && DictFrom(dictSize, unpackSize) == DictFor(unpackSize)
      decreases unpackSize - dictSize
    {
      dictSize := dictSize * 2;
    }
  }

  /** ToInt32: the value a JavaScript shift leaves, two's complement on 32 bits. */
  function Int32(x: int): (r: int)
    ensures -0x8000_0000 <= r < 0x8000_0000
  {
    (x + 0x8000_0000) % 0x1_0000_0000 - 0x8000_0000
  }

  /** 2^30 is 0x10000 * 2^14. */
  lemma DictSizeMax()
    ensures IsDictSize(0x4000_0000)
  {
  }

  /** A value that fits in 32 bits passes ToInt32 unchanged. */
  lemma Int32Exact(x: int)
    requires -0x8000_0000 <= x < 0x8000_0000
    ensures Int32(x) == x
  {
    DivModUnique(x + 0x8000_0000, 0x1_0000_0000, 0, x + 0x8000_0000);
  }

  /** The loop as written, `dictSize <<= 1` on 32-bit integers, run for at most `fuel`
      iterations: the value it stops with, or None if it is still running. */
  function DictLoop(d: int, size: nat, fuel: nat): Option<int>
    decreases fuel
  {
    if d >= size then Some(d)
    else if fuel == 0 then None
    else DictLoop(Int32(d * 2), size, fuel - 1)
  }

  /** Values the 32-bit loop passes through once it has doubled past 2^30. */
  predicate Orbit(d: int) {
    d == 0 || d == -0x8000_0000 || (IsDictSize(d) && d <= 0x4000_0000)
  }

  lemma OrbitStep(d: int)
    requires Orbit(d)
    ensures Orbit(Int32(d * 2))
  {
    if IsDictSize(d) {
      if d < 0x4000_0000 {
        DictSizeMax();
        DictSizeGap(d, 0x4000_0000);
        DoubleDictSize(d);
        Int32Exact(d * 2);
      }
    }
  }

  lemma {:induction false} OrbitNeverStops(d: int, size: nat, fuel: nat)
    requires Orbit(d) && 0x4000_0000 < size
    ensures DictLoop(d, size, fuel) == None
    decreases fuel
  {
    if fuel > 0 {
      OrbitStep(d);
      OrbitNeverStops(Int32(d * 2), size, fuel - 1);
    }
  }

  /** For a header declaring more than 2^30 bytes the loop as written never ends: the shift
      takes 2^30 to -2^31 and then to 0, which stays below the size for ever. */
  lemma DictLoopNeverStops(size: nat, fuel: nat)
    requires 0x4000_0000 < size
    ensures DictLoop(LZMA_DICT_MIN_SIZE, size, fuel) == None
  {
    OrbitNeverStops(LZMA_DICT_MIN_SIZE, size, fuel);
  }

  /** d doubled n times. */
  function Doubled(d: nat, n: nat): nat
    decreases n
  {
    if n == 0 then d else Doubled(2 * d, n - 1)
  }

  /** Up to 2^30 the 32-bit loop and the unbounded one agree, once it is given enough
      iterations to reach 2^30. */
  lemma {:induction false} DictLoopAgrees(d: nat, size: nat, fuel: nat)
    requires IsDictSize(d) && size <= 0x4000_0000
    requires Doubled(d, fuel) >= 0x4000_0000
    ensures DictLoop(d, size, fuel) == Some(DictFrom(d, size))
    decreases fuel
  {
    if d < size {
      DictSizeMax();
      DictSizeGap(d, 0x4000_0000);
      DoubleDictSize(d);
      Int32Exact(d * 2);
      assert fuel > 0;
      assert DictLoop(d, size, fuel) == DictLoop(2 * d, size, fuel - 1);
      assert DictFrom(d, size) == DictFrom(2 * d, size);
      DictLoopAgrees(2 * d, size, fuel - 1);
    }
  }

  /** Up to 2^30 the loop as written stops within 14 iterations with the intended size. */
  lemma DictLoopFixed(size: nat)
    requires size <= 0x4000_0000
    ensures DictLoop(LZMA_DICT_MIN_SIZE, size, 14) == Some(DictFor(size))
  {
    assert Doubled(LZMA_DICT_MIN_SIZE, 14) == 0x4000_0000;
    DictLoopAgrees(LZMA_DICT_MIN_SIZE, size, 14);
  }

  // ---------------------------------------------------------------------------
  // Framing
  // ---------------------------------------------------------------------------

  /** The first four bytes in the opposite order, the rest unchanged (a getUint32 in one byte
      order written back with setUint32 in the other). */
  function Swap4(s: seq<byte>): (r: seq<byte>)
    requires |s| >= 4
    ensures |r| == |s| && r[4..] == s[4..]
  {
    [s[3], s[2], s[1], s[0]] + s[4..]
  }

  lemma Swap4Involution(s: seq<byte>)
    requires |s| >= 4
    ensures Swap4(Swap4(s)) == s
  {
  }

  /** The 13-byte LZMA-alone header (properties, dictionary size, unpacked size) and the
      zero byte that starts every LZMA range-coder stream, which the container omits. */
  function LzmaHeader(dictSize: nat, unpackSize: nat): seq<byte> {
    [LZMA_HEADER_PROPS] + EncodeLE(dictSize, 4) + EncodeLE(unpackSize, 8) + [0]
  }

  lemma LzmaHeaderFields(dictSize: nat, unpackSize: nat)
    requires dictSize < Pow256(4)
    ensures |LzmaHeader(dictSize, unpackSize)| == LZMA_HEADER_SIZE
    ensures LzmaHeader(dictSize, unpackSize)[0] == 93 && LzmaHeader(dictSize, unpackSize)[13] == 0
    ensures DecodeLE(LzmaHeader(dictSize, unpackSize)[1..5]) == dictSize
    ensures DecodeLE(LzmaHeader(dictSize, unpackSize)[5..13]) == unpackSize % Pow256(8)
  {
    MiddleParts([LZMA_HEADER_PROPS], EncodeLE(dictSize, 4), EncodeLE(unpackSize, 8), [0]);
    DecodeEncodeFits(dictSize, 4);
    DecodeEncode(unpackSize, 8);
  }

  /** Where the two middle parts of a four-part concatenation lie. */
  lemma MiddleParts<T>(a: seq<T>, b: seq<T>, c: seq<T>, d: seq<T>)
    ensures (a + b + c + d)[|a|..|a| + |b|] == b
    ensures (a + b + c + d)[|a| + |b|..|a| + |b| + |c|] == c
  {
    var s := a + b + c + d;
    assert s[|a|..|a| + |b|] == b by {
      assert forall k :: 0 <= k < |b| ==> s[|a| + k] == b[k];
    }
    assert s[|a| + |b|..|a| + |b| + |c|] == c by {
      assert forall k :: 0 <= k < |c| ==> s[|a| + |b| + k] == c[k];
    }
  }

  /** The container header: magic, unpacked size, compression flag, as three little-endian
      u32. */
  function ContainerHeader(unpackSize: nat): (h: seq<byte>)
    ensures |h| == HEADER_SIZE
  {
    EncodeLE(MAGIC, 4) + EncodeLE(unpackSize, 4) + EncodeLE(COMPRESSION_FLAG, 4)
  }

  /** The header checks of unpack, in the source's order: too short, wrong magic, unknown
      compression; the unpacked size otherwise. */
  function CheckHeader(input: seq<byte>): (r: Result<nat>)
    ensures r.Ok? ==> |input| >= HEADER_SIZE && r.value < Pow256(4)
  {
    if |input| < HEADER_SIZE then Err(InvalidInput)
    else if ReadLE(input, 0, 4) != MAGIC then Err(InvalidContainer)
    else if ReadLE(input, 8, 4) != COMPRESSION_FLAG then Err(UnsupportedAlgorithm)
    else Ok(ReadLE(input, 4, 4))
  }

  /** The LZMA stream unpack rebuilds from a container: the regenerated header, then the
      payload with its first four bytes swapped back. */
  function LzmaStream(input: seq<byte>, unpackSize: nat): seq<byte>
    requires |input| >= HEADER_SIZE + 4
  {
    LzmaHeader(DictFor(unpackSize), unpackSize) + Swap4(input[HEADER_SIZE..])
  }

  /** unpack: null or short input, wrong magic, unknown compression, then a RangeError when
      the payload is shorter than the four bytes to swap; otherwise what the decompressor
      returns. The decompressed size is not compared with the header. */
  function UnpackSpec(input: Option<seq<byte>>, codec: Codec): Result<seq<byte>> {
    if input.None? then Err(InvalidInput)
    else
      var unpackSize :- CheckHeader(input.value);
      if |input.value| < HEADER_SIZE + 4 then Err(OutOfBounds)
      else codec.decompress(LzmaStream(input.value, unpackSize))
  }

  /** unpack swaps the four payload bytes in the caller's own buffer, once the header has
      passed and the payload is long enough. */
  function UnpackedInput(input: seq<byte>): seq<byte> {
    if CheckHeader(input).Ok? && |input| >= HEADER_SIZE + 4
    then input[..HEADER_SIZE] + Swap4(input[HEADER_SIZE..])
    else input
  }

  /** pack: anything but a byte view is rejected, a compressor exception is wrapped, the
      LZMA header is cut off (slice clamps, so a short result leaves nothing), and a RangeError
      follows when fewer than four bytes remain to swap. */
  function PackSpec(data: Option<seq<byte>>, codec: Codec): Result<seq<byte>> {
    if data.None? then Err(InvalidInput)
    else
      var compressed := codec.compress(data.value, COMPRESSION_FLAG);
      if compressed.Err? then Err(CompressionError(compressed.error))
      else
        var payload := if |compressed.value| >= LZMA_HEADER_SIZE then compressed.value[LZMA_HEADER_SIZE..] else [];
        if |payload| < 4 then Err(OutOfBounds)
        else Ok(ContainerHeader(|data.value|) + Swap4(payload))
  }

  /** The magic number is the ASCII text "KPCK" read as a little-endian u32. */
  lemma MagicIsKPCK()
    ensures EncodeLE(MAGIC, 4) == ['K' as byte, 'P' as byte, 'C' as byte, 'K' as byte]
  {
  }

  /** A container pack produced passes every header check of unpack with the original
      size, and unpack hands the decompressor exactly the compressor's output with the
      container's framing undone: the compressor's stream after its 14-byte header, behind a
      header announcing the original size. */
  lemma PackFramesForUnpack(data: seq<byte>, codec: Codec)
    requires |data| < Pow256(4)
    requires PackSpec(Some(data), codec).Ok?
    ensures CheckHeader(PackSpec(Some(data), codec).value) == Ok(|data|)
    ensures UnpackSpec(Some(PackSpec(Some(data), codec).value), codec) ==
              codec.decompress(LzmaHeader(DictFor(|data|), |data|) + codec.compress(data, COMPRESSION_FLAG).value[LZMA_HEADER_SIZE..])
  {
    var out := PackSpec(Some(data), codec).value;
    var payload := codec.compress(data, COMPRESSION_FLAG).value[LZMA_HEADER_SIZE..];
    assert out[0..4] == EncodeLE(MAGIC, 4);
    assert out[4..8] == EncodeLE(|data|, 4);
    assert out[8..12] == EncodeLE(COMPRESSION_FLAG, 4);
    DecodeEncodeFits(MAGIC, 4);
    DecodeEncodeFits(|data|, 4);
    DecodeEncodeFits(COMPRESSION_FLAG, 4);
    assert out[HEADER_SIZE..] == Swap4(payload);
    Swap4Involution(payload);
  }

  /** The decompressor inverts the compressor on `data` whatever dictionary size the header
      announces, as long as it is a valid one that covers the data. */
  ghost predicate InvertsOn(codec: Codec, data: seq<byte>) {
    && codec.compress(data, COMPRESSION_FLAG).Ok?
    && |codec.compress(data, COMPRESSION_FLAG).value| >= LZMA_HEADER_SIZE
    && forall d :: IsDictSize(d) && |data| <= d ==>
         codec.decompress(LzmaHeader(d, |data|) + codec.compress(data, COMPRESSION_FLAG).value[LZMA_HEADER_SIZE..]) == Ok(data)
  }

  /** With such a codec, unpacking what pack produced gives the original bytes back. */
  lemma PackUnpackRoundTrip(data: seq<byte>, codec: Codec)
    requires |data| < Pow256(4)
    requires InvertsOn(codec, data)
    requires PackSpec(Some(data), codec).Ok?
    ensures UnpackSpec(Some(PackSpec(Some(data), codec).value), codec) == Ok(data)
  {
    PackFramesForUnpack(data, codec);
    DictForBounds(|data|);
  }

  /** The header checks come in the source's order, and the payload is needed only after
      all of them. */
  lemma UnpackRejects(input: seq<byte>, codec: Codec)
    ensures |input| < HEADER_SIZE ==> UnpackSpec(Some(input), codec) == Err(InvalidInput)
    ensures |input| >= HEADER_SIZE && ReadLE(input, 0, 4) != MAGIC ==> UnpackSpec(Some(input), codec) == Err(InvalidContainer)
    ensures |input| >= HEADER_SIZE && ReadLE(input, 0, 4) == MAGIC && ReadLE(input, 8, 4) != COMPRESSION_FLAG ==>
              UnpackSpec(Some(input), codec) == Err(UnsupportedAlgorithm)
    ensures CheckHeader(input).Ok? && |input| < HEADER_SIZE + 4 ==> UnpackSpec(Some(input), codec) == Err(OutOfBounds)
    ensures UnpackSpec(None, codec) == Err(InvalidInput)
  {
  }

  // ---------------------------------------------------------------------------
  // The packer
  // ---------------------------------------------------------------------------

  /** unpack(inputData): checks the header, computes the dictionary size, fills a new LZMA
      buffer with the regenerated header, swaps the first four payload bytes in the input
      itself, copies the payload after the header and decompresses. */
  method Unpack(input: array?<byte>, codec: Codec) returns (r: Result<seq<byte>>)
    modifies input
    ensures input == null ==> r == Err(InvalidInput)
    ensures input != null ==> r == UnpackSpec(Some(old(input[..])), codec)
    ensures input != null ==> input[..] == UnpackedInput(old(input[..]))
  {
    if input == null || input.Length < HEADER_SIZE {
      return Err(InvalidInput);
    }
    ghost var before := input[..];
    if ReadLE(input[..], 0, 4) != MAGIC {
      return Err(InvalidContainer);
    }
    if ReadLE(input[..], 8, 4) != COMPRESSION_FLAG {
      return Err(UnsupportedAlgorithm);
    }
    var unpackSize := ReadLE(input[..], 4, 4);
    var dictSize := DictSize(unpackSize);

    var payloadLength := input.Length - HEADER_SIZE;
    var lzma := new byte[payloadLength + LZMA_HEADER_SIZE](_ => 0);
    WriteLzmaHeader(lzma, dictSize, unpackSize);

    if payloadLength < 4 {
      return Err(OutOfBounds);
    }
    SwapWord(input, HEADER_SIZE);
    assert CheckHeader(before) == Ok(unpackSize);
    assert input[HEADER_SIZE..] == Swap4(before[HEADER_SIZE..]);

    ghost var headed := lzma[..];
    CopyInto(lzma, LZMA_HEADER_SIZE, input[HEADER_SIZE..]);
    OverlayTail(headed, LZMA_HEADER_SIZE, input[HEADER_SIZE..]);
    r := codec.decompress(lzma[..]);
  }

  /** The LZMA header written into a fresh buffer: the properties byte, the dictionary size
      and the unpacked size; its last byte keeps the buffer's initial zero. */
  method WriteLzmaHeader(lzma: array<byte>, dictSize: nat, unpackSize: nat)
    requires lzma.Length >= LZMA_HEADER_SIZE && lzma[LZMA_HEADER_SIZE - 1] == 0
    modifies lzma
    ensures lzma[..LZMA_HEADER_SIZE] == LzmaHeader(dictSize, unpackSize)
    ensures lzma[LZMA_HEADER_SIZE..] == old(lzma[LZMA_HEADER_SIZE..])
  {
    var dictBytes, sizeBytes := EncodeLE(dictSize, 4), EncodeLE(unpackSize, 8);
    ghost var buf := lzma[..];
    lzma[0] := LZMA_HEADER_PROPS;
    assert lzma[..] == Overlay(buf, 0, [LZMA_HEADER_PROPS]);
    CopyInto(lzma, 1, dictBytes);
    CopyInto(lzma, 5, sizeBytes);
    HeaderOverlay(buf, dictSize, unpackSize);
  }

  /** The three header writes leave the LZMA header in the first fourteen bytes and nothing
      else changed. */
  lemma HeaderOverlay(buf: seq<byte>, dictSize: nat, unpackSize: nat)
    requires |buf| >= LZMA_HEADER_SIZE && buf[LZMA_HEADER_SIZE - 1] == 0
    ensures var h := Overlay(Overlay(Overlay(buf, 0, [LZMA_HEADER_PROPS]), 1, EncodeLE(dictSize, 4)), 5, EncodeLE(unpackSize, 8));
      h[..LZMA_HEADER_SIZE] == LzmaHeader(dictSize, unpackSize) && h[LZMA_HEADER_SIZE..] == buf[LZMA_HEADER_SIZE..]
  {
    var dictBytes, sizeBytes := EncodeLE(dictSize, 4), EncodeLE(unpackSize, 8);
    var h := Overlay(Overlay(Overlay(buf, 0, [LZMA_HEADER_PROPS]), 1, dictBytes), 5, sizeBytes);
    var header := LzmaHeader(dictSize, unpackSize);
    forall k | 0 <= k < LZMA_HEADER_SIZE
      ensures h[k] == header[k]
    {
      if k == 0 {
      } else if k < 5 {
        assert h[k] == dictBytes[k - 1];
      } else if k < 13 {
        assert h[k] == sizeBytes[k - 5];
      }
    }
  }

  /** The three header writes and the payload copy of pack fill its buffer with the
      container header followed by the payload. */
  lemma ContainerOverlay(buf: seq<byte>, unpackSize: nat, payload: seq<byte>)
    requires |buf| == |payload| + HEADER_SIZE
    ensures Overlay(Overlay(Overlay(Overlay(buf, 0, EncodeLE(MAGIC, 4)), 4, EncodeLE(unpackSize, 4)),
              8, EncodeLE(COMPRESSION_FLAG, 4)), HEADER_SIZE, payload) == ContainerHeader(unpackSize) + payload
  {
    var magic, size, flag := EncodeLE(MAGIC, 4), EncodeLE(unpackSize, 4), EncodeLE(COMPRESSION_FLAG, 4);
    var out := Overlay(Overlay(Overlay(Overlay(buf, 0, magic), 4, size), 8, flag), HEADER_SIZE, payload);
    var expected := ContainerHeader(unpackSize) + payload;
    forall k | 0 <= k < |buf|
      ensures out[k] == expected[k]
    {
      if k < 4 {
        assert out[k] == magic[k];
      } else if k < 8 {
        assert out[k] == size[k - 4];
      } else if k < 12 {
        assert out[k] == flag[k - 8];
      }
    }
  }

  /** `dst.set(src, at)`, and a DataView setter's bytes: src stored from position at on. */
  method CopyInto(dst: array<byte>, at: nat, src: seq<byte>)
    requires at + |src| <= dst.Length
    modifies dst
    ensures dst[..] == Overlay(old(dst[..]), at, src)
  {
    forall k | 0 <= k < |src| {
      dst[at + k] := src[k];
    }
    assert forall k :: 0 <= k < dst.Length ==> dst[k] == Overlay(old(dst[..]), at, src)[k];
  }

  /** `view.setUint32(at, view.getUint32(at, e), !e)`: the four bytes from `at` reversed in
      place. */
  method SwapWord(a: array<byte>, at: nat)
    requires at + 4 <= a.Length
    modifies a
    ensures a[..] == old(a[..at]) + Swap4(old(a[at..]))
  {
    a[at], a[at + 1], a[at + 2], a[at + 3] := a[at + 3], a[at + 2], a[at + 1], a[at];
    assert a[..] == old(a[..at]) + Swap4(old(a[at..])) by {
      assert forall k :: 0 <= k < a.Length ==> a[k] == (old(a[..at]) + Swap4(old(a[at..])))[k];
    }
  }

  /** pack(dataView): compresses the bytes, drops the LZMA header, writes the container
      header and the payload into a new buffer and swaps the payload's first four bytes. */
  method Pack(data: array?<byte>, codec: Codec) returns (r: Result<seq<byte>>)
    ensures r == PackSpec(if data == null then None else Some(data[..]), codec)
  {
    if data == null {
      return Err(InvalidInput);
    }
    var unpackSize := data.Length;
    var compressed := codec.compress(data[..], COMPRESSION_FLAG);
    if compressed.Err? {
      return Err(CompressionError(compressed.error));
    }
    var payload := if |compressed.value| >= LZMA_HEADER_SIZE then compressed.value[LZMA_HEADER_SIZE..] else [];

    var output := new byte[|payload| + HEADER_SIZE](_ => 0);
    ghost var blank := output[..];
    var magic, size, flag := EncodeLE(MAGIC, 4), EncodeLE(unpackSize, 4), EncodeLE(COMPRESSION_FLAG, 4);
    CopyInto(output, 0, magic);
    CopyInto(output, 4, size);
    CopyInto(output, 8, flag);
    CopyInto(output, HEADER_SIZE, payload);
    ContainerOverlay(blank, unpackSize, payload);
    if output.Length < HEADER_SIZE + 4 {
      return Err(OutOfBounds);
    }
    ghost var filled := output[..];
    SwapWord(output, HEADER_SIZE);
    assert filled[..HEADER_SIZE] == ContainerHeader(unpackSize) && filled[HEADER_SIZE..] == payload;
    r := Ok(output[..]);
  }
}
