/** What the parser of js/BinaryParser.js promises, stated over the functions that specify
    its methods: the key grammar, how far each field moves the cursor, and how every writer
    agrees with the reader of the same tag. */
module ParserLaws {
  import opened Outcomes
  import opened Bytes
  import opened Numerals
  import opened BinaryParser

  // ---------------------------------------------------------------------------
  // Key grammar
  // ---------------------------------------------------------------------------

  lemma {:induction false} ColonIndexOf(a: string, b: string)
    requires ':' !in a
    requires b == [] || b[0] == ':'
    ensures ColonIndex(a + b) == |a|
  {
    if a != [] {
      assert (a + b)[1..] == a[1..] + b;
      ColonIndexOf(a[1..], b);
    } else {
      assert a + b == b;
    }
  }

  /** Parsing the canonical spelling of a key gives the key back: the `#` is stripped and sets
      the pointer flag, the name is everything before the ':', and the count is the decimal
      number after it (1 when there is no ':'). A name may itself begin with '#' only in a
      pointer key, where the first '#' is the marker. */
  lemma KeyRoundTrip(k: Key)
    requires 1 <= |k.name| && ':' !in k.name
    requires k.name[0] == '#' ==> k.pointer
    ensures ParseKey(FormatKey(k)) == Ok(k)
  {
    var rest := KeyRest(k);
    var marker: string := if k.pointer then "#" else "";
    var tail := if k.count == 1 then "" else ":" + ToRadix(k.count, 10);
    assert FormatKey(k) == marker + k.name + tail;
    assert marker + k.name + tail == marker + rest;
    MarkerSplit(marker, rest);
    ParseOfRest(k, marker + rest);
  }

  /** The rest of a key after an optional one-character marker. */
  lemma MarkerSplit(marker: string, rest: string)
    requires marker == "#" || marker == ""
    ensures marker == "#" ==> (marker + rest)[0] == '#' && (marker + rest)[1..] == rest
    ensures marker == "" ==> marker + rest == rest
  {
  }

  /** A key whose pointer marker matches k's and whose rest spells k's name and count
      parses to k. */
  lemma ParseOfRest(k: Key, key: string)
    requires 1 <= |k.name| && ':' !in k.name
    requires (|key| > 0 && key[0] == '#') == k.pointer
    requires (if k.pointer then key[1..] else key) == KeyRest(k)
    ensures ParseKey(key) == Ok(k)
  {
    KeyRestParts(k);
    var rest := KeyRest(k);
    var i := ColonIndex(rest);
    assert rest[..i] == k.name;
    if k.count != 1 {
      var digits := rest[i + 1..];
      assert |digits| > 0 && AllDigits(digits, 10) && ValueOf(digits, 10) == k.count;
    }
  }

  /** The spelling of a key after its pointer marker. */
  function KeyRest(k: Key): string {
    k.name + (if k.count == 1 then "" else ":" + ToRadix(k.count, 10))
  }

  /** The name ends at the first ':' of the rest of a key, and the count follows it. */
  lemma KeyRestParts(k: Key)
    requires 1 <= |k.name| && ':' !in k.name
    ensures ColonIndex(KeyRest(k)) == |k.name| && KeyRest(k)[..|k.name|] == k.name
    ensures k.count == 1 <==> |k.name| == |KeyRest(k)|
    ensures k.count != 1 ==> var digits := KeyRest(k)[|k.name| + 1..];
              |digits| > 0 && AllDigits(digits, 10) && ValueOf(digits, 10) == k.count
  {
    var tail := if k.count == 1 then "" else ":" + ToRadix(k.count, 10);
    var rest := k.name + tail;
    ColonIndexOf(k.name, tail);
    assert rest[..|k.name|] == k.name;
    if k.count != 1 {
      assert rest[|k.name| + 1..] == ToRadix(k.count, 10);
      ValueOfToRadix(k.count, 10);
    }
  }

  /** A repeated pointer field of the skin structure reads as intended. */
  lemma PointerKeyExample()
    ensures ParseKey("#buttons:3") == Ok(Key(true, "buttons", 3))
  {
    var buttons := Key(true, "buttons", 3);
    assert ToRadix(3, 10) == "3";
    assert FormatKey(buttons) == "#buttons:3";
    calc {
      ParseKey("#buttons:3");
      ParseKey(FormatKey(buttons));
      { KeyRoundTrip(buttons); }
      Ok(buttons);
    }
  }

  /** A plain key has count 1, an explicit count of 0 is kept (and reads a single element),
      and only the first '#' marks a pointer. */
  lemma KeyExamples()
    ensures ParseKey("magic") == Ok(Key(false, "magic", 1))
    ensures ParseKey("a:0") == Ok(Key(false, "a", 0))
    ensures ParseKey("##a") == Ok(Key(true, "#a", 1))
  {
    var magic, zero, hash := Key(false, "magic", 1), Key(false, "a", 0), Key(true, "#a", 1);
    assert ToRadix(0, 10) == "0";
    assert FormatKey(magic) == "magic" && FormatKey(zero) == "a:0" && FormatKey(hash) == "##a";
    calc {
      ParseKey("magic");
      ParseKey(FormatKey(magic));
      { KeyRoundTrip(magic); }
      Ok(magic);
    }
    calc {
      ParseKey("a:0");
      ParseKey(FormatKey(zero));
      { KeyRoundTrip(zero); }
      Ok(zero);
    }
    calc {
      ParseKey("##a");
      ParseKey(FormatKey(hash));
      { KeyRoundTrip(hash); }
      Ok(hash);
    }
  }

  /** Keys the grammar rejects: an empty count, an empty name, a lone '#', a count with a
      non-digit. */
  lemma MalformedKeys()
    ensures ParseKey("a:") == Err(SchemaError)
    ensures ParseKey(":3") == Err(SchemaError)
    ensures ParseKey("#") == Err(SchemaError)
    ensures ParseKey("a:3b") == Err(SchemaError)
  {
    ColonIndexOf("a", ":");
    ColonIndexOf("", ":3");
    ColonIndexOf("a", ":3b");
    assert "a:3b"[2..] == "3b";
    assert !AllDigits("3b", 10) by {
      assert DigitValue("3b"[1]) >= 10;
    }
  }

  // ---------------------------------------------------------------------------
  // Cursor movement and layout
  // ---------------------------------------------------------------------------

  /** Number of bytes a node moves the cursor over, whatever the buffer holds; None when it
      depends on the data (a STR somewhere outside a pointer), the key grammar fails, or a
      tag is unknown. A pointer field always takes 4 bytes; a custom decoder takes none. */
  function StaticSize(node: Schema): Option<nat>
    decreases node
  {
    match node
    case Leaf(tag) => if Width(tag) > 0 then Some(Width(tag)) else None
    case Decoder(_) => Some(0)
    case Struct(entries) => EntriesSize(entries)
  }

  function EntriesSize(entries: seq<Entry>): Option<nat>
    decreases entries
  {
    if entries == [] then Some(0)
    else
      var first := EntrySize(entries[0]);
      var rest := EntriesSize(entries[1..]);
      if first.Some? && rest.Some? then Some(first.value + rest.value) else None
  }

  function EntrySize(e: Entry): Option<nat>
    decreases e
  {
    var key := ParseKey(e.key);
    if key.Err? then None
    else if key.value.pointer then Some(4)
    else
      var one := StaticSize(e.node);
      if one.Some? then
        var times := Reps(key.value.count);
        MulNonNegative(times, one.value);
        Some(times * one.value)
      else None
  }

  /** A node whose size is static moves the cursor by exactly that size. */
  lemma {:induction false} NodeAdvance(buf: seq<byte>, node: Schema, off: nat)
    requires ParseNode(buf, node, off).Ok? && StaticSize(node).Some?
    ensures ParseNode(buf, node, off).value.1 == off + StaticSize(node).value
    decreases node, 0, 0
  {
    match node
    case Leaf(tag) =>
    case Decoder(_) =>
    case Struct(entries) =>
      EntriesAdvance(buf, entries, off, {});
  }

  lemma {:induction false} ListAdvance(buf: seq<byte>, node: Schema, n: nat, off: nat)
    requires ParseList(buf, node, n, off).Ok? && StaticSize(node).Some?
    ensures ParseList(buf, node, n, off).value.1 == off + n * StaticSize(node).value
    decreases node, 1, n
  {
    var size := StaticSize(node).value;
    if n > 0 {
      ListCons(buf, node, n, off);
      var next := ParseNode(buf, node, off).value.1;
      NodeAdvance(buf, node, off);
      ListAdvance(buf, node, n - 1, next);
      MulPred(n, size);
    }
  }

  /** A list of n > 0 elements that parses is a first element that parses, followed by a list
      of n - 1 elements that parses and ends where the whole list ends. */
  lemma ListCons(buf: seq<byte>, node: Schema, n: nat, off: nat)
    requires n > 0 && ParseList(buf, node, n, off).Ok?
    ensures ParseNode(buf, node, off).Ok?
    ensures ParseList(buf, node, n - 1, ParseNode(buf, node, off).value.1).Ok?
    ensures ParseList(buf, node, n, off).value.1 == ParseList(buf, node, n - 1, ParseNode(buf, node, off).value.1).value.1
  {
  }

  lemma {:induction false} CountAdvance(buf: seq<byte>, node: Schema, count: nat, off: nat)
    requires ParseCount(buf, node, count, off).Ok? && StaticSize(node).Some?
    ensures ParseCount(buf, node, count, off).value.1 == off + Reps(count) * StaticSize(node).value
    decreases node, 2, 0
  {
    if count > 1 {
      ListAdvance(buf, node, count, off);
    } else {
      NodeAdvance(buf, node, off);
    }
  }

  /** A field moves the cursor by its static size: exactly 4 for a pointer field, whatever
      its payload, and count consecutive elements otherwise. */
  lemma {:induction false} EntryAdvance(buf: seq<byte>, e: Entry, off: nat)
    requires ParseEntry(buf, e, off).Ok? && EntrySize(e).Some?
    ensures ParseEntry(buf, e, off).value.1 == off + EntrySize(e).value
    decreases e, 0, 0
  {
    var key := ParseKey(e.key).value;
    if !key.pointer {
      CountAdvance(buf, e.node, key.count, off);
    }
  }

  lemma {:induction false} EntriesAdvance(buf: seq<byte>, entries: seq<Entry>, off: nat, seen: set<string>)
    requires ParseEntries(buf, entries, off, seen).Ok? && EntriesSize(entries).Some?
    ensures ParseEntries(buf, entries, off, seen).value.1 == off + EntriesSize(entries).value
    decreases entries, 0, 0
  {
    if entries != [] {
      var first := ParseEntry(buf, entries[0], off);
      EntryAdvance(buf, entries[0], off);
      EntriesAdvance(buf, entries[1..], first.value.1, seen + {first.value.0.name});
    }
  }

  /** A field whose count exceeds the largest array length fails with a RangeError whatever
      its elements are: `Array.from` cannot create the array, so not even an element that
      reads nothing (a string at the end of the buffer, a custom decoder) can succeed. */
  lemma OversizedCount(buf: seq<byte>, k: Key, node: Schema, off: nat)
    requires 1 <= |k.name| && ':' !in k.name
    requires k.name[0] == '#' ==> k.pointer
    requires k.count > MAX_ARRAY_LENGTH
    ensures ParseEntry(buf, Entry(FormatKey(k), node), off) == Err(OutOfBounds)
  {
    KeyRoundTrip(k);
  }

  /** A pointer field reads its elements where the u32 at the field's position points, and
      leaves the cursor 4 bytes further on, however large the payload. */
  lemma PointerField(buf: seq<byte>, e: Entry, off: nat)
    requires ParseKey(e.key).Ok? && ParseKey(e.key).value.pointer
    ensures ParseEntry(buf, e, off).Ok? <==>
              off + 4 <= |buf| && ParseCount(buf, e.node, ParseKey(e.key).value.count, ReadLE(buf, off, 4)).Ok?
    ensures ParseEntry(buf, e, off).Ok? ==>
              ParseEntry(buf, e, off).value.1 == off + 4 &&
              ParseEntry(buf, e, off).value.0.value ==
                ParseCount(buf, e.node, ParseKey(e.key).value.count, ReadLE(buf, off, 4)).value.0
  {
  }

  // ---------------------------------------------------------------------------
  // Leaf readers and writers
  // ---------------------------------------------------------------------------

  /** Every fixed-width reader consumes exactly its width and fails only past the end of the
      buffer; STR never fails; any other tag is `Unknown type`. */
  lemma ReadLeafOutcome(buf: seq<byte>, tag: int, off: nat)
    ensures !IsTag(tag) <==> ReadLeaf(buf, tag, off) == Err(UnsupportedType)
    ensures Width(tag) > 0 ==>
              (ReadLeaf(buf, tag, off).Ok? <==> off + Width(tag) <= |buf|) &&
              (ReadLeaf(buf, tag, off).Ok? ==> ReadLeaf(buf, tag, off).value.1 == off + Width(tag))
    ensures tag == STR ==> ReadLeaf(buf, tag, off).Ok?
  {
  }

  /** The integer a writer stores for a value its own reader produced has the same low bytes
      as the integer the reader found: the hexadecimal and colour renderings parse back, the
      character code of a CHAR has the byte in its low 8 bits, and a signed reading differs
      from the unsigned one by a multiple of 256^w. */
  lemma WriterInvertsReader(tag: int, u: nat)
    requires Width(tag) > 0 && u < Pow256(Width(tag))
    ensures Writable(LeafKind(tag), LeafValue(tag, u))
    ensures EncodeLE(WriterBits(tag, LeafValue(tag, u)), Width(tag)) == EncodeLE(u, Width(tag))
  {
    var w := Width(tag);
    var v := LeafValue(tag, u);
    var bits := WriterBits(tag, v);
    if tag == HEX6 {
      HexRoundTrip(u);
    } else if tag == COLOR {
      assert v.s[1..] == Hex6(u);
      HexRoundTrip(u);
    } else {
      assert bits % Pow256(w) == u % Pow256(w);
      EncodeMod(bits, w);
      EncodeMod(u, w);
    }
  }

  /** Writing a value back where it was read leaves the buffer byte for byte unchanged; a
      fixed-width write then also succeeds and ends where the read ended. (A STR read that
      ran into the end of the buffer has no terminator to rewrite: that write fails, still
      without changing a byte.) */
  lemma WriteWhatWasRead(buf: seq<byte>, tag: int, off: nat)
    requires ReadLeaf(buf, tag, off).Ok?
    ensures Writable(LeafKind(tag), ReadLeaf(buf, tag, off).value.0)
    ensures WriteLeaf(buf, LeafKind(tag), off, ReadLeaf(buf, tag, off).value.0).buf == buf
    ensures WriteLeaf(buf, LeafKind(tag), off, ReadLeaf(buf, tag, off).value.0).failure.None? ==>
              WriteLeaf(buf, LeafKind(tag), off, ReadLeaf(buf, tag, off).value.0).cursor == ReadLeaf(buf, tag, off).value.1
    ensures tag != STR ==> WriteLeaf(buf, LeafKind(tag), off, ReadLeaf(buf, tag, off).value.0).failure.None?
  {
    if tag == STR {
      TextRewrite(buf, off);
    } else {
      FixedRewrite(buf, tag, off);
    }
  }

  /** writeString of the text readString found rewrites the same bytes and terminator. */
  lemma TextRewrite(buf: seq<byte>, off: nat)
    ensures WriteLeaf(buf, LeafKind(STR), off, Raw(CString(buf, off).0)).buf == buf
    ensures WriteLeaf(buf, LeafKind(STR), off, Raw(CString(buf, off).0)).failure.None? ==>
              WriteLeaf(buf, LeafKind(STR), off, Raw(CString(buf, off).0)).cursor == CString(buf, off).1
  {
    var wr := WriteLeaf(buf, LeafKind(STR), off, Raw(CString(buf, off).0));
    assert forall k :: 0 <= k < |buf| ==> wr.buf[k] == buf[k];
  }

  /** A fixed-width writer given what its reader found stores the same bytes again. */
  lemma FixedRewrite(buf: seq<byte>, tag: int, off: nat)
    requires Width(tag) > 0 && off + Width(tag) <= |buf|
    ensures Writable(LeafKind(tag), LeafValue(tag, ReadLE(buf, off, Width(tag))))
    ensures WriteLeaf(buf, LeafKind(tag), off, LeafValue(tag, ReadLE(buf, off, Width(tag)))) ==
              Written(buf, off + Width(tag), None)
  {
    var w := Width(tag);
    var u := ReadLE(buf, off, w);
    WriterInvertsReader(tag, u);
    EncodeDecode(buf[off..off + w]);
    OverlaySame(buf, off, EncodeLE(u, w));
  }

  /** Reading what a fixed-width writer stored gives back the written value, for every value
      the reader of that tag can produce. */
  lemma ReadWhatWasWritten(buf: seq<byte>, tag: int, off: nat, u: nat)
    requires Width(tag) > 0 && u < Pow256(Width(tag)) && off + Width(tag) <= |buf|
    ensures Writable(LeafKind(tag), LeafValue(tag, u))
    ensures WriteLeaf(buf, LeafKind(tag), off, LeafValue(tag, u)).failure.None?
    ensures ReadLeaf(WriteLeaf(buf, LeafKind(tag), off, LeafValue(tag, u)).buf, tag, off) ==
              Ok((LeafValue(tag, u), off + Width(tag)))
  {
    var w := Width(tag);
    WriterInvertsReader(tag, u);
    var out := WriteLeaf(buf, LeafKind(tag), off, LeafValue(tag, u)).buf;
    assert out == Overlay(buf, off, EncodeLE(u, w));
    ReadOverlay(buf, off, u, w);
    DivModUnique(u, Pow256(w), 0, u);
    assert ReadLE(out, off, w) == u;
  }

  /** Numbers in the range of a numeric tag are read back unchanged. */
  predicate InRange(tag: int, n: int) {
    if tag == BYTE || tag == WORD || tag == DWORD then 0 <= n < Pow256(Width(tag))
    else if tag == INT || tag == I16 then 0 <= n + Pow256(Width(tag)) / 2 && n < Pow256(Width(tag)) / 2
    else false
  }

  lemma NumberRoundTrip(buf: seq<byte>, tag: int, off: nat, n: int)
    requires InRange(tag, n) && off + Width(tag) <= |buf|
    ensures WriteLeaf(buf, LeafKind(tag), off, Number(n)).failure.None?
    ensures ReadLeaf(WriteLeaf(buf, LeafKind(tag), off, Number(n)).buf, tag, off) == Ok((Number(n), off + Width(tag)))
  {
    var w := Width(tag);
    var out := Overlay(buf, off, EncodeLE(n, w));
    assert WriterBits(tag, Number(n)) == n;
    assert WriteLeaf(buf, LeafKind(tag), off, Number(n)) == Written(out, off + w, None);
    ReadOverlay(buf, off, n, w);
    var u := ReadLE(out, off, w);
    if tag == INT || tag == I16 {
      SignedBack(n, w, u);
      assert LeafValue(tag, u) == Number(n);
    } else {
      DivModUnique(n, Pow256(w), 0, n);
      assert LeafValue(tag, u) == Number(n);
    }
  }

  /** The w-byte two's complement pattern of a number in the signed range reads back as it. */
  lemma SignedBack(n: int, w: nat, u: nat)
    requires 1 <= w && 0 <= n + Pow256(w) / 2 && n < Pow256(w) / 2
    requires u == n % Pow256(w)
    ensures u < Pow256(w) && ToSigned(u, w) == n
  {
    var p := Pow256(w);
    if n < 0 {
      DivModUnique(n, p, -1, n + p);
    } else {
      DivModUnique(n, p, 0, n);
    }
  }

  /** writeString stores the bytes and exactly one terminator, so readString gives the same
      bytes back and ends one byte after them. */
  lemma TextRoundTrip(buf: seq<byte>, off: nat, b: seq<byte>)
    requires 0 !in b && off + |b| + 1 <= |buf|
    ensures WriteLeaf(buf, LeafKind(STR), off, Raw(b)) ==
              Written(Overlay(buf, off, b + [0]), off + |b| + 1, None)
    ensures ReadLeaf(WriteLeaf(buf, LeafKind(STR), off, Raw(b)).buf, STR, off) == Ok((Raw(b), off + |b| + 1))
  {
    var out := Overlay(buf, off, b + [0]);
    CStringOf(out, off, b);
  }

  lemma {:induction false} CStringOf(buf: seq<byte>, off: nat, b: seq<byte>)
    requires 0 !in b && off + |b| < |buf|
    requires buf[off..off + |b|] == b && buf[off + |b|] == 0
    ensures CString(buf, off) == (b, off + |b| + 1)
    decreases |b|
  {
    if b != [] {
      assert buf[off] == b[0];
      assert buf[off + 1..off + 1 + |b[1..]|] == b[1..];
      CStringOf(buf, off + 1, b[1..]);
      assert [b[0]] + b[1..] == b;
    }
  }

  /** COLOR reads its four bytes as "#" followed by their value in hex, padded to six digits. */
  lemma ColorRead(buf: seq<byte>, off: nat)
    requires off + 4 <= |buf|
    ensures ReadLeaf(buf, COLOR, off) == Ok((Text("#" + Hex6(ReadLE(buf, off, 4))), off + 4))
    ensures |Hex6(ReadLE(buf, off, 4))| >= 6
  {
  }

  /** The colour example: bytes 12 34 56 00 hold 0x563412, which renders as "563412". */
  lemma Decode563412()
    ensures ReadLE([0x12, 0x34, 0x56, 0x00], 0, 4) == 0x563412
  {
    var buf: seq<byte> := [0x12, 0x34, 0x56, 0x00];
    assert buf[0..4] == buf;
    assert buf[1..][1..][1..][1..] == [];
  }

  lemma HexOf563412()
    ensures Hex6(0x563412) == "563412"
  {
    assert ToRadix(5, 16) == "5";
    assert ToRadix(0x56, 16) == "56";
    assert ToRadix(0x563, 16) == "563";
    assert ToRadix(0x5634, 16) == "5634";
    assert ToRadix(0x56341, 16) == "56341";
    assert ToRadix(0x563412, 16) == "563412";
  }

  /** Writing "#abcdef", or the upper-case form an editor produces, stores ef cd ab 00. */
  lemma ColorWriteExample(s: string)
    requires s == "#abcdef" || s == "#ABCDEF"
    ensures WriteLeaf([0x12, 0x34, 0x56, 0x00], LeafKind(COLOR), 0, Text(s)).buf == [0xef, 0xcd, 0xab, 0x00]
  {
    ColorBits(s);
    ColorStore([0x12, 0x34, 0x56, 0x00], s, 0xabcdef);
    ColorBytes();
  }

  /** 0xabcdef as a little-endian u32. */
  lemma ColorBytes()
    ensures EncodeLE(0xabcdef, 4) == [0xef, 0xcd, 0xab, 0x00]
  {
    assert EncodeLE(0xab, 1) == [0xab];
  }

  /** `slice(1)` of a COLOR text whose first character lies beyond the Basic Multilingual
      Plane keeps that character's low surrogate, so nothing parses and 0 is stored, even
      though hexadecimal digits follow. */
  lemma ColorAfterAstral()
    ensures WriteLeaf([0x12, 0x34, 0x56, 0x78], LeafKind(COLOR), 0, Text("\U{1F600}ff")) ==
            Written([0x00, 0x00, 0x00, 0x00], 4, None)
  {
    assert WriterBits(COLOR, Text("\U{1F600}ff")) == 0;
    ColorStore([0x12, 0x34, 0x56, 0x78], "\U{1F600}ff", 0);
    assert EncodeLE(0, 4) == [0x00, 0x00, 0x00, 0x00];
  }

  /** A COLOR write over a whole 4-byte buffer replaces it by the writer's integer in
      little-endian order. */
  lemma ColorStore(buf: seq<byte>, s: string, bits: int)
    requires |buf| == 4 && WriterBits(COLOR, Text(s)) == bits
    ensures WriteLeaf(buf, LeafKind(COLOR), 0, Text(s)) == Written(EncodeLE(bits, 4), 4, None)
  {
    OverlayTail(buf, 0, EncodeLE(bits, 4));
  }

  /** The COLOR writer drops the '#' and reads the rest as hexadecimal. */
  lemma ColorBits(s: string)
    requires s == "#abcdef" || s == "#ABCDEF"
    ensures WriterBits(COLOR, Text(s)) == 0xabcdef
  {
    assert s[1..] == "abcdef" || s[1..] == "ABCDEF";
    HexDigits(s[1..]);
  }

  lemma HexDigits(s: string)
    requires s == "abcdef" || s == "ABCDEF"
    ensures ParseInt(s, 16) == Some(0xabcdef)
  {
    forall k | 0 <= k < 6
      ensures DigitValue(s[k]) == 10 + k
    {
    }
    HexRun(s);
  }

  /** Six hexadecimal digits worth 10 to 15 in turn, in either case, are the number 0xabcdef. */
  lemma HexRun(s: string)
    requires |s| == 6 && forall k :: 0 <= k < 6 ==> DigitValue(s[k]) == 10 + k
    ensures ParseInt(s, 16) == Some(0xabcdef)
  {
    assert AllDigits(s, 16);
    HexPrefix(s, 1, 0);
    HexPrefix(s, 2, 10);
    HexPrefix(s, 3, 0xab);
    HexPrefix(s, 4, 0xabc);
    HexPrefix(s, 5, 0xabcd);
    HexPrefix(s, 6, 0xabcde);
    assert s[..6] == s;
    assert DigitValue(s[1]) == 11;
    ParseIntAllDigits(s, 16);
  }

  /** One more digit of a hexadecimal numeral: the value so far times 16, plus the digit. */
  lemma HexPrefix(s: string, k: nat, v: nat)
    requires AllDigits(s, 16) && 0 < k <= |s|
    requires ValueOf(s[..k - 1], 16) == v
    ensures ValueOf(s[..k], 16) == v * 16 + DigitValue(s[k - 1])
  {
    assert s[..k][..k - 1] == s[..k - 1];
  }

  // ---------------------------------------------------------------------------
  // Setters
  // ---------------------------------------------------------------------------

  /** A structure or a custom-decoded field has no writer: assigning it a value, or an array
      with at least one element, fails without touching the buffer. An empty array writes
      nothing and so raises nothing. */
  lemma CompositeSetFails(buf: seq<byte>, b: Binding, v: Value)
    requires !b.kind.LeafKind? || !IsTag(b.kind.tag)
    requires b.pointer ==> b.start + 4 <= |buf|
    ensures Settable(b.kind, v)
    ensures SetSpec(buf, b, v).buf == buf
    ensures SetSpec(buf, b, v).failure.None? <==> v == List([])
  {
    if v.List? && v.items != [] {
      assert SetSpec(buf, b, v) == WriteLeaf(buf, b.kind, Target(buf, b), v.items[0]);
    }
  }

  /** A fixed-width setter touches only the span its elements occupy from the target: the
      bytes [target, target + n*w) for n elements of width w. */
  lemma {:induction false} WriteAllFrame(buf: seq<byte>, tag: int, off: nat, vs: seq<Value>)
    requires Width(tag) > 0
    requires forall i :: 0 <= i < |vs| ==> Writable(LeafKind(tag), vs[i])
    ensures |WriteAll(buf, LeafKind(tag), off, vs).buf| == |buf|
    ensures forall k :: 0 <= k < |buf| && !(off <= k < off + |vs| * Width(tag)) ==>
              WriteAll(buf, LeafKind(tag), off, vs).buf[k] == buf[k]
    ensures WriteAll(buf, LeafKind(tag), off, vs).failure.None? <==> vs == [] || off + |vs| * Width(tag) <= |buf|
    decreases vs
  {
    var w := Width(tag);
    if vs != [] {
      var first := WriteLeaf(buf, LeafKind(tag), off, vs[0]);
      assert |vs| * w == w + |vs[1..]| * w && |vs[1..]| * w >= 0;
      if first.failure.None? {
        assert first.cursor == off + w && off + w <= |buf|;
        WriteAllFrame(first.buf, tag, off + w, vs[1..]);
        assert forall k :: 0 <= k < |buf| && !(off <= k < off + w) ==> first.buf[k] == buf[k];
      } else {
        assert off + w > |buf|;
      }
    }
  }

  /** Writing a pointer field: the target comes from the pointer as the buffer holds it now,
      and the setter changes no byte outside the target span, so the pointer itself is left
      alone whenever it lies outside that span. */
  lemma PointerSetIsolated(buf: seq<byte>, b: Binding, items: seq<Value>)
    requires b.pointer && b.start + 4 <= |buf| && b.kind.LeafKind? && Width(b.kind.tag) > 0
    requires forall i :: 0 <= i < |items| ==> Writable(b.kind, items[i])
    requires var t := ReadLE(buf, b.start, 4);
             b.start + 4 <= t || t + |items| * Width(b.kind.tag) <= b.start
    ensures SetSpec(buf, b, List(items)).buf[b.start..b.start + 4] == buf[b.start..b.start + 4]
    ensures forall k :: 0 <= k < |buf| && !(ReadLE(buf, b.start, 4) <= k < ReadLE(buf, b.start, 4) + |items| * Width(b.kind.tag)) ==>
              SetSpec(buf, b, List(items)).buf[k] == buf[k]
  {
    WriteAllFrame(buf, b.kind.tag, ReadLE(buf, b.start, 4), items);
  }

  // ---------------------------------------------------------------------------
  // Live bindings: the parsed tree agrees with its buffer
  // ---------------------------------------------------------------------------

  /** Assigning field f its own cached value changes no byte of buf (and, except for a STR
      field, succeeds). */
  ghost predicate SetKeeps(buf: seq<byte>, f: Field) {
    && (f.binding.pointer ==> f.binding.start + 4 <= |buf|)
    && Settable(f.binding.kind, f.value)
    && SetSpec(buf, f.binding, f.value).buf == buf
    && (f.binding.kind.LeafKind? && f.binding.kind.tag != STR ==> SetSpec(buf, f.binding, f.value).failure.None?)
  }

  /** Every leaf setter reachable through v keeps buf. */
  ghost predicate ValueLive(buf: seq<byte>, v: Value)
    decreases v
  {
    match v
    case Record(fs) => forall i :: 0 <= i < |fs| ==> FieldLive(buf, fs[i])
    case List(items) => forall i :: 0 <= i < |items| ==> ValueLive(buf, items[i])
    case _ => true
  }

  ghost predicate FieldLive(buf: seq<byte>, f: Field)
    decreases f
  {
    match f.binding.kind
    case LeafKind(_) => SetKeeps(buf, f)
    case Nested => ValueLive(buf, f.value)
    case Custom => true
  }

  lemma {:induction false} LeafListKeeps(buf: seq<byte>, tag: int, n: nat, off: nat)
    requires ParseList(buf, Leaf(tag), n, off).Ok?
    ensures forall i :: 0 <= i < |ParseList(buf, Leaf(tag), n, off).value.0| ==>
              Writable(LeafKind(tag), ParseList(buf, Leaf(tag), n, off).value.0[i])
    ensures WriteAll(buf, LeafKind(tag), off, ParseList(buf, Leaf(tag), n, off).value.0).buf == buf
    ensures tag != STR ==> WriteAll(buf, LeafKind(tag), off, ParseList(buf, Leaf(tag), n, off).value.0).failure.None?
    decreases n
  {
    if n > 0 {
      var first := ReadLeaf(buf, tag, off);
      WriteWhatWasRead(buf, tag, off);
      LeafListKeeps(buf, tag, n - 1, first.value.1);
      var items := ParseList(buf, Leaf(tag), n, off).value.0;
      assert items[0] == first.value.0 && items[1..] == ParseList(buf, Leaf(tag), n - 1, first.value.1).value.0;
    }
  }

  lemma LeafCountKeeps(buf: seq<byte>, tag: int, count: nat, off: nat)
    requires ParseCount(buf, Leaf(tag), count, off).Ok?
    ensures Settable(LeafKind(tag), ParseCount(buf, Leaf(tag), count, off).value.0)
    ensures var v := ParseCount(buf, Leaf(tag), count, off).value.0;
            (if v.List? then WriteAll(buf, LeafKind(tag), off, v.items) else WriteLeaf(buf, LeafKind(tag), off, v)).buf == buf
    ensures tag != STR ==>
              var v := ParseCount(buf, Leaf(tag), count, off).value.0;
              (if v.List? then WriteAll(buf, LeafKind(tag), off, v.items) else WriteLeaf(buf, LeafKind(tag), off, v)).failure.None?
  {
    if count > 1 {
      LeafListKeeps(buf, tag, count, off);
    } else {
      WriteWhatWasRead(buf, tag, off);
    }
  }

  lemma {:induction false} NodeLive(buf: seq<byte>, node: Schema, off: nat)
    requires ParseNode(buf, node, off).Ok? && !node.Decoder?
    ensures ValueLive(buf, ParseNode(buf, node, off).value.0)
    decreases node, 0, 0
  {
    if node.Struct? {
      EntriesLive(buf, node.entries, off, {});
    }
  }

  lemma {:induction false} ListLive(buf: seq<byte>, node: Schema, n: nat, off: nat)
    requires ParseList(buf, node, n, off).Ok? && !node.Decoder?
    ensures forall i :: 0 <= i < |ParseList(buf, node, n, off).value.0| ==> ValueLive(buf, ParseList(buf, node, n, off).value.0[i])
    decreases node, 1, n
  {
    if n > 0 {
      var first := ParseNode(buf, node, off);
      NodeLive(buf, node, off);
      ListLive(buf, node, n - 1, first.value.1);
      var items := ParseList(buf, node, n, off).value.0;
      assert items[0] == first.value.0 && items[1..] == ParseList(buf, node, n - 1, first.value.1).value.0;
      assert forall i :: 1 <= i < |items| ==> items[i] == items[1..][i - 1];
    }
  }

  lemma {:induction false} EntryLive(buf: seq<byte>, e: Entry, off: nat)
    requires ParseEntry(buf, e, off).Ok?
    ensures FieldLive(buf, ParseEntry(buf, e, off).value.0)
    decreases e, 0, 0
  {
    var key := ParseKey(e.key).value;
    var f := ParseEntry(buf, e, off).value.0;
    var target := if key.pointer then ReadLE(buf, off, 4) else off;
    assert Target(buf, f.binding) == target;
    match e.node
    case Leaf(tag) =>
      LeafCountKeeps(buf, tag, key.count, target);
    case Decoder(_) =>
    case Struct(_) =>
      if key.count > 1 {
        ListLive(buf, e.node, key.count, target);
      } else {
        NodeLive(buf, e.node, target);
      }
  }

  lemma {:induction false} EntriesLive(buf: seq<byte>, entries: seq<Entry>, off: nat, seen: set<string>)
    requires ParseEntries(buf, entries, off, seen).Ok?
    ensures forall i :: 0 <= i < |ParseEntries(buf, entries, off, seen).value.0| ==>
              FieldLive(buf, ParseEntries(buf, entries, off, seen).value.0[i])
    decreases entries, 0, 0
  {
    if entries != [] {
      var first := ParseEntry(buf, entries[0], off).value;
      EntryLive(buf, entries[0], off);
      EntriesLive(buf, entries[1..], first.1, seen + {first.0.name});
      var rest := ParseEntries(buf, entries[1..], first.1, seen + {first.0.name}).value.0;
      assert ParseEntries(buf, entries, off, seen).value.0 == [first.0] + rest;
      FieldsLive(buf, first.0, rest);
    }
  }

  /** A live field in front of live fields. */
  lemma FieldsLive(buf: seq<byte>, f: Field, rest: seq<Field>)
    requires FieldLive(buf, f) && forall i :: 0 <= i < |rest| ==> FieldLive(buf, rest[i])
    ensures forall i :: 0 <= i < |[f] + rest| ==> FieldLive(buf, ([f] + rest)[i])
  {
    forall i | 0 <= i < |[f] + rest|
      ensures FieldLive(buf, ([f] + rest)[i])
    {
      if i > 0 {
        assert ([f] + rest)[i] == rest[i - 1];
      }
    }
  }

  /** The tree a parse returns is live: every leaf field, however deeply nested and whether
      reached through pointers or arrays, sits exactly where its setter writes, so assigning
      any field its own value leaves the buffer byte for byte unchanged. */
  lemma ParsedTreeIsLive(buf: seq<byte>, structure: seq<Entry>)
    requires ParseEntries(buf, structure, 0, {}).Ok?
    ensures forall i :: 0 <= i < |ParseEntries(buf, structure, 0, {}).value.0| ==>
              FieldLive(buf, ParseEntries(buf, structure, 0, {}).value.0[i])
  {
    EntriesLive(buf, structure, 0, {});
  }

  // ---------------------------------------------------------------------------
  // Records of plain keys
  // ---------------------------------------------------------------------------

  /** A key without '#' or ':': it names a single element read in place. */
  predicate PlainName(name: string) {
    1 <= |name| && ':' !in name && name[0] != '#'
  }

  /** A plain key names a single element. */
  lemma PlainKey(name: string)
    requires PlainName(name)
    ensures ParseKey(name) == Ok(Key(false, name, 1))
  {
    KeyRoundTrip(Key(false, name, 1));
    assert FormatKey(Key(false, name, 1)) == name;
  }

  /** An entry with a plain key takes the size of its node. */
  lemma PlainEntrySize(e: Entry)
    requires PlainName(e.key)
    ensures EntrySize(e) == StaticSize(e.node)
  {
    PlainKey(e.key);
    assert Reps(1) == 1;
  }

  /** An entry of size w in front of entries of size n. */
  lemma LeadingEntry(e: Entry, w: nat, rest: seq<Entry>, n: nat)
    requires EntrySize(e) == Some(w) && EntriesSize(rest) == Some(n)
    ensures EntriesSize([e] + rest) == Some(w + n)
  {
    assert ([e] + rest)[0] == e && ([e] + rest)[1..] == rest;
  }

  /** The entries from i on: entry i, then the entries after it. */
  lemma SuffixStep(entries: seq<Entry>, i: nat, w: nat, n: nat)
    requires i < |entries| && EntrySize(entries[i]) == Some(w) && EntriesSize(entries[i + 1..]) == Some(n)
    ensures EntriesSize(entries[i..]) == Some(w + n)
  {
    assert entries[i..][0] == entries[i] && entries[i..][1..] == entries[i + 1..];
  }
}
