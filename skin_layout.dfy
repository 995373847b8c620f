/** The sizes of the blocks of a skin file under the binary parser: how far the parser's
    cursor moves over each structure of skinStructure (js/SkinLoader.js). */
module SkinLayout {
  import opened Outcomes
  import opened Bytes
  import opened BinaryParser
  import opened SkinFormat
  import opened ParserLaws
  import Numerals

  /** Names that are all plain keys. */
  predicate PlainNames(names: seq<string>) {
    forall i :: 0 <= i < |names| ==> PlainName(names[i])
  }

  /** n plain fields of a w-byte scalar type take n * w bytes. */
  lemma {:induction false} FieldsSize(names: seq<string>, tag: int, w: nat)
    requires PlainNames(names) && Width(tag) == w > 0
    ensures EntriesSize(Fields(names, tag)) == Some(|names| * w)
  {
    if names != [] {
      var f := Fields(names, tag);
      assert f[1..] == Fields(names[1..], tag);
      FieldsSize(names[1..], tag, w);
      PlainEntrySize(f[0]);
    }
  }

  /** A plain w-byte field followed by a record of n bytes takes w + n bytes. */
  lemma LeadingField(name: string, tag: int, w: nat, rest: seq<Entry>, n: nat)
    requires PlainName(name) && Width(tag) == w > 0 && EntriesSize(rest) == Some(n)
    ensures EntriesSize([Entry(name, Leaf(tag))] + rest) == Some(w + n)
  {
    var s := [Entry(name, Leaf(tag))] + rest;
    assert s[0] == Entry(name, Leaf(tag)) && s[1..] == rest;
    PlainEntrySize(s[0]);
  }

  lemma MarginNames()
    ensures PlainName("height") && PlainNames(MarginSides)
  {
  }

  /** The margins are 12 bytes: the height and four words. */
  lemma MarginLayout()
    ensures EntriesSize(MarginStructure) == Some(12)
  {
    MarginNames();
    FieldsSize(MarginSides, WORD, 2);
    LeadingField("height", DWORD, 4, Fields(MarginSides, WORD), 8);
  }

  lemma FrameNames()
    ensures PlainNames(FrameColors)
  {
  }

  /** A frame colour set is 12 bytes: three colours. */
  lemma FrameLayout()
    ensures EntriesSize(FrameStructure) == Some(12)
  {
    FrameNames();
    FieldsSize(FrameColors, COLOR, 4);
  }

  lemma DesktopNames()
    ensures PlainName("size") && PlainNames(DesktopColors)
  {
  }

  /** The desktop block is 44 bytes: its size field and ten colours. */
  lemma DesktopLayout()
    ensures EntriesSize(DesktopStructure) == Some(44)
  {
    DesktopNames();
    FieldsSize(DesktopColors, COLOR, 4);
    LeadingField("size", DWORD, 4, Fields(DesktopColors, COLOR), 40);
  }

  /** A block of four plain-keyed structures of 12, 12, 12 and 44 bytes is 80 bytes. */
  lemma ParamsBlockSize(m: seq<Entry>, f: seq<Entry>, d: seq<Entry>, a: string, b: string, c: string, e: string)
    requires PlainName(a) && PlainName(b) && PlainName(c) && PlainName(e)
    requires EntriesSize(m) == Some(12) && EntriesSize(f) == Some(12)
    requires EntriesSize(d) == Some(44)
    ensures EntriesSize([Entry(a, Struct(m)), Entry(b, Struct(f)), Entry(c, Struct(f)), Entry(e, Struct(d))]) == Some(80)
  {
    var margin, active, inactive, dtp := Entry(a, Struct(m)), Entry(b, Struct(f)), Entry(c, Struct(f)), Entry(e, Struct(d));
    PlainEntrySize(margin);
    PlainEntrySize(active);
    PlainEntrySize(inactive);
    PlainEntrySize(dtp);
    LeadingEntry(dtp, 44, [], 0);
    LeadingEntry(inactive, 12, [dtp], 44);
    LeadingEntry(active, 12, [inactive, dtp], 56);
    LeadingEntry(margin, 12, [active, inactive, dtp], 68);
    assert [margin] + [active, inactive, dtp] == [margin, active, inactive, dtp];
  }


  lemma ParamsNames()
    ensures PlainName("margin") && PlainName("active") && PlainName("inactive") && PlainName("dtp")
  {
  }

  /** The parameters block is 80 bytes: margins 12, two frame colour sets of 12, desktop 44. */
  lemma ParamsLayout()
    ensures EntriesSize(ParamsStructure) == Some(80)
  {
    MarginLayout();
    FrameLayout();
    DesktopLayout();
    ParamsNames();
    ParamsBlockSize(MarginStructure, FrameStructure, DesktopStructure, "margin", "active", "inactive", "dtp");
  }

  lemma ButtonNames()
    ensures PlainName("type") && PlainNames(ButtonBox)
  {
  }

  /** A button record is 12 bytes: its type and four signed 16-bit coordinates. */
  lemma ButtonLayout()
    ensures EntriesSize(ButtonStructure) == Some(12)
  {
    ButtonNames();
    FieldsSize(ButtonBox, I16, 2);
    LeadingField("type", DWORD, 4, Fields(ButtonBox, I16), 8);
  }

  /** The sizes of the bitmap descriptor's entries: two words and a pointer. */
  lemma BitmapEntrySizes()
    ensures EntrySize(BitmapStructure[0]) == Some(2) && EntrySize(BitmapStructure[1]) == Some(2)
    ensures EntrySize(BitmapStructure[2]) == Some(4)
  {
    PlainEntrySize(BitmapStructure[0]);
    PlainEntrySize(BitmapStructure[1]);
    assert ParseKey(BitmapStructure[2].key) == Ok(Key(true, "data", 1)) by {
      KeyRoundTrip(Key(true, "data", 1));
      assert FormatKey(Key(true, "data", 1)) == BitmapStructure[2].key;
    }
  }

  /** A bitmap descriptor is 8 bytes: two words and the pointer to the bitmap data, which the
      decoder reads without moving the cursor. */
  lemma BitmapLayout()
    ensures EntriesSize(BitmapStructure) == Some(8)
  {
    BitmapEntrySizes();
    var b := BitmapStructure;
    assert b[3..] == [];
    SuffixStep(b, 2, 4, 0);
    SuffixStep(b, 1, 2, 4);
    SuffixStep(b, 0, 2, 6);
    assert b[0..] == b;
  }

  lemma ParamsKey()
    ensures ParseKey("#params") == Ok(Key(true, "params", 1))
  {
    KeyRoundTrip(Key(true, "params", 1));
    assert FormatKey(Key(true, "params", 1)) == "#params";
  }

  lemma BitmapsKey()
    ensures ParseKey("#bitmaps:6") == Ok(Key(true, "bitmaps", 6))
  {
    var bitmaps := Key(true, "bitmaps", 6);
    assert Numerals.ToRadix(6, 10) == "6";
    assert FormatKey(bitmaps) == "#bitmaps:6";
    KeyRoundTrip(bitmaps);
  }

  /** The three keys of the skin header that hold pointers. */
  lemma SkinPointerKeys()
    ensures ParseKey("#params").Ok? && ParseKey("#params").value.pointer
    ensures ParseKey("#buttons:3").Ok? && ParseKey("#buttons:3").value.pointer
    ensures ParseKey("#bitmaps:6").Ok? && ParseKey("#bitmaps:6").value.pointer
  {
    ParamsKey();
    PointerKeyExample();
    BitmapsKey();
  }

  /** Two plain double words followed by three pointers take 20 bytes. */
  lemma HeaderSize(a: string, b: string, c: string, d: string, e: string, p: Schema, q: Schema, r: Schema)
    requires PlainName(a) && PlainName(b)
    requires ParseKey(c).Ok? && ParseKey(c).value.pointer
    requires ParseKey(d).Ok? && ParseKey(d).value.pointer
    requires ParseKey(e).Ok? && ParseKey(e).value.pointer
    ensures EntriesSize([Entry(a, Leaf(DWORD)), Entry(b, Leaf(DWORD)), Entry(c, p), Entry(d, q), Entry(e, r)]) == Some(20)
  {
    var s := [Entry(a, Leaf(DWORD)), Entry(b, Leaf(DWORD)), Entry(c, p), Entry(d, q), Entry(e, r)];
    PlainEntrySize(s[0]);
    PlainEntrySize(s[1]);
    assert s[5..] == [];
    SuffixStep(s, 4, 4, 0);
    SuffixStep(s, 3, 4, 4);
    SuffixStep(s, 2, 4, 8);
    SuffixStep(s, 1, 4, 12);
    SuffixStep(s, 0, 4, 16);
    assert s[0..] == s;
  }

  lemma HeaderNames()
    ensures PlainName("magic") && PlainName("version")
  {
  }

  /** The skin header is 20 bytes: magic, version and the three pointers. */
  lemma SkinLayout()
    ensures EntriesSize(SkinStructure) == Some(20)
  {
    HeaderNames();
    SkinPointerKeys();
    HeaderSize("magic", "version", "#params", "#buttons:3", "#bitmaps:6",
      Struct(ParamsStructure), Struct(ButtonStructure), Struct(BitmapStructure));
  }

  /** A successful parse of a skin ends at offset 20, wherever the pointed-to blocks lie. */
  lemma SkinParseEnd(buf: seq<byte>)
    requires ParseEntries(buf, SkinStructure, 0, {}).Ok?
    ensures ParseEntries(buf, SkinStructure, 0, {}).value.1 == 20
  {
    SkinLayout();
    EntriesAdvance(buf, SkinStructure, 0, {});
  }
}
