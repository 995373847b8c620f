/** The SkinLoader object of js/SkinLoader.js: it unpacks a KPCK container, parses the skin
    bytes with the skin structure, checks the magic, and packs the bytes again on save.
    Everything that touches the DOM is left out. */
module Skin {
  import opened Outcomes
  import opened Bytes
  import opened BinaryParser
  import opened KPacker
  import opened SkinFormat

  /** "SKIN" and "KPCK" read as little-endian u32. */
  const SKIN_MAGIC: nat := 0x4E494B53
  const KPACK_MAGIC: nat := 0x4B43504B

  /** How read ends without an exception: a skin theme, data that parsed but is not a skin
      (read returns nothing), or an unpacking error that was reported and swallowed. */
  datatype Loaded = Theme(fields: seq<Field>) | NotASkin | UnpackFailed(error: Error)

  /** The value of the first field called `name`. */
  function FieldValue(fields: seq<Field>, name: string): (r: Option<Value>)
    ensures r.Some? <==> exists i :: 0 <= i < |fields| && fields[i].name == name
    ensures r.Some? ==> exists i :: 0 <= i < |fields| && fields[i].name == name && r.value == fields[i].value &&
                          forall j :: 0 <= j < i ==> fields[j].name != name
  {
    if fields == [] then None
    else if fields[0].name == name then Some(fields[0].value)
    else
      var r := FieldValue(fields[1..], name);
      assert forall i :: 1 <= i < |fields| ==> fields[i] == fields[1..][i - 1];
      r
  }

  /** Parsing the (unpacked) skin bytes and checking the magic field. */
  function Classify(binary: seq<byte>): Result<Loaded> {
    var fields :- Val(ParseEntries(binary, SkinStructure, 0, {}));
    if FieldValue(fields, "magic") == Some(Number(SKIN_MAGIC)) then Ok(Theme(fields)) else Ok(NotASkin)
  }

  /** read(skinData): a RangeError when there are not four bytes to read the magic from; a
      KPCK container is unpacked first, and an unpacking error ends read quietly. */
  function ReadSpec(skinData: seq<byte>, codec: Codec): Result<Loaded> {
    if |skinData| < 4 then Err(OutOfBounds)
    else if ReadLE(skinData, 0, 4) == KPACK_MAGIC then
      var unpacked := UnpackSpec(Some(skinData), codec);
      if unpacked.Err? then Ok(UnpackFailed(unpacked.error)) else Classify(unpacked.value)
    else Classify(skinData)
  }

  /** The bytes read leaves in `binary`, or None when it leaves `binary` as it was. */
  function BinarySpec(skinData: seq<byte>, codec: Codec): Option<seq<byte>> {
    if |skinData| < 4 then None
    else if ReadLE(skinData, 0, 4) == KPACK_MAGIC then
      var unpacked := UnpackSpec(Some(skinData), codec);
      if unpacked.Err? then None else Some(unpacked.value)
    else Some(skinData)
  }

  /** Saving a skin and reading the saved file gives the same outcome as reading the
      unpacked bytes, when the codec inverts its own compression on them. */
  lemma SaveThenRead(binary: seq<byte>, codec: Codec)
    requires |binary| < Pow256(4)
    requires InvertsOn(codec, binary)
    requires PackSpec(Some(binary), codec).Ok?
    ensures ReadSpec(PackSpec(Some(binary), codec).value, codec) == Classify(binary)
    ensures BinarySpec(PackSpec(Some(binary), codec).value, codec) == Some(binary)
  {
    var saved := PackSpec(Some(binary), codec).value;
    PackFramesForUnpack(binary, codec);
    PackUnpackRoundTrip(binary, codec);
    assert saved[0..4] == EncodeLE(MAGIC, 4);
    DecodeEncodeFits(MAGIC, 4);
  }

  /** Bytes that do not start with "KPCK" are parsed as they are. */
  lemma PlainSkinIsParsedDirectly(skinData: seq<byte>, codec: Codec)
    requires |skinData| >= 4 && ReadLE(skinData, 0, 4) != KPACK_MAGIC
    ensures ReadSpec(skinData, codec) == Classify(skinData)
    ensures BinarySpec(skinData, codec) == Some(skinData)
  {
  }

  /** A SkinLoader: the skin's file name and the current skin bytes, shared with the parser
      whose setters edit them. The LZMA codec stands for the global the packer calls. */
  class SkinLoader {
    const codec: Codec
    var name: string
    var binary: array?<byte>

    constructor (codec: Codec)
      ensures this.codec == codec && name == "theme.skn" && binary == null
    {
      this.codec := codec;
      name := "theme.skn";
      binary := null;
    }

    /** read(skinData): unpacks a KPCK container (swapping four of its bytes in place, as
        unpack does), parses the result with the skin structure and returns the theme when
        the magic is "SKIN". The parser is returned as well: the tree's setters are its
        `Set`, and they write into `binary`. */
    method Read(skinData: array<byte>) returns (r: Result<Loaded>, parser: BinaryParser.Parser?)
      modifies this, skinData
      ensures r == ReadSpec(old(skinData[..]), codec)
      ensures BinarySpec(old(skinData[..]), codec).None? ==> binary == old(binary)
      ensures BinarySpec(old(skinData[..]), codec).Some? ==> binary != null && binary[..] == BinarySpec(old(skinData[..]), codec).value
      ensures parser != null ==> parser.data == binary && r.Ok? && r.value.Theme?
      ensures r.Ok? && r.value.Theme? ==> parser != null && fresh(parser) && parser.parsed == Ok(r.value.fields)
      ensures old(skinData[..]) != skinData[..] ==> |old(skinData[..])| >= 4 && ReadLE(old(skinData[..]), 0, 4) == KPACK_MAGIC
      ensures skinData[..] == UnpackedInput(old(skinData[..]))
      ensures |old(skinData[..])| >= 4 && ReadLE(old(skinData[..]), 0, 4) != KPACK_MAGIC ==> binary == skinData
      ensures name == old(name)
    {
      parser := null;
      if skinData.Length < 4 {
        return Err(OutOfBounds), null;
      }
      var failed := LoadBinary(skinData);
      if failed.Some? {
        return failed.value, null;
      }
      var p := new BinaryParser.Parser(binary, SkinStructure);
      var data := p.Parse();
      if data.Err? {
        return Err(data.error), null;
      }
      if FieldValue(data.value, "magic") == Some(Number(SKIN_MAGIC)) {
        r, parser := Ok(Theme(data.value)), p;
      } else {
        r := Ok(NotASkin);
      }
    }

    /** The first half of read: a KPCK container is unpacked into a new `binary`, anything
        else becomes `binary` as it is. An unpacking error ends read, with that outcome. */
    method LoadBinary(skinData: array<byte>) returns (failed: Option<Result<Loaded>>)
      requires skinData.Length >= 4
      modifies this, skinData
      ensures failed.Some? <==> BinarySpec(old(skinData[..]), codec).None?
      ensures failed.Some? ==> failed.value == ReadSpec(old(skinData[..]), codec) && binary == old(binary)
      ensures failed.None? ==> binary != null && binary[..] == BinarySpec(old(skinData[..]), codec).value
      ensures failed.None? ==> ReadSpec(old(skinData[..]), codec) == Classify(binary[..])
      ensures old(skinData[..]) != skinData[..] ==> ReadLE(old(skinData[..]), 0, 4) == KPACK_MAGIC
      ensures skinData[..] == UnpackedInput(old(skinData[..]))
      ensures ReadLE(old(skinData[..]), 0, 4) != KPACK_MAGIC ==> binary == skinData
      ensures name == old(name)
    {
      var magic := ReadLE(skinData[..], 0, 4);
      if magic == KPACK_MAGIC {
        var unpacked := Unpack(skinData, codec);
        if unpacked.Err? {
          return Some(Ok(UnpackFailed(unpacked.error)));
        }
        var bytes := unpacked.value;
        binary := new byte[|bytes|](k requires 0 <= k < |bytes| => bytes[k]);
        assert binary[..] == bytes;
      } else {
        binary := skinData;
      }
      failed := None;
    }

    /** save(): packs the current bytes; a packing error is reported and nothing is
        downloaded. The result is the content of the file offered for download as `name`. */
    method Save() returns (r: Result<seq<byte>>)
      ensures r == PackSpec(if binary == null then None else Some(binary[..]), codec)
    {
      r := Pack(binary, codec);
    }
  }
}
