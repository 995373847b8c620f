/** skinStructure in js/SkinLoader.js: the layout of a KolibriOS skin file as a structure
    the binary parser reads, and the sizes of its blocks. */
module SkinFormat {
  import opened Outcomes
  import opened Bytes
  import opened BinaryParser
  import opened Bitmaps

  /** Consecutive fields of one scalar type, in the order of their names. */
  function Fields(names: seq<string>, tag: int): seq<Entry>
  {
    seq(|names|, i requires 0 <= i < |names| => Entry(names[i], Leaf(tag)))
  }

  const MarginSides: seq<string> := ["right", "left", "bottom", "top"]
  const MarginStructure: seq<Entry> := [Entry("height", Leaf(DWORD))] + Fields(MarginSides, WORD)
  const FrameColors: seq<string> := ["inner", "outer", "frame"]
  const FrameStructure: seq<Entry> := Fields(FrameColors, COLOR)
  const DesktopColors: seq<string> := [
    "taskbar", "taskbar_text", "work_dark", "work_light", "window_title",
    "work", "work_button", "work_button_text", "work_text", "work_graph"]
  const DesktopStructure: seq<Entry> := [Entry("size", Leaf(DWORD))] + Fields(DesktopColors, COLOR)
  const ParamsStructure: seq<Entry> := [
    Entry("margin", Struct(MarginStructure)), Entry("active", Struct(FrameStructure)),
    Entry("inactive", Struct(FrameStructure)), Entry("dtp", Struct(DesktopStructure))]
  const ButtonBox: seq<string> := ["left", "top", "width", "height"]
  const ButtonStructure: seq<Entry> := [Entry("type", Leaf(DWORD))] + Fields(ButtonBox, I16)
  const BitmapStructure: seq<Entry> := [
    Entry("kind", Leaf(WORD)), Entry("type", Leaf(WORD)), Entry("#data", Decoder(BitmapOf))]

  /** skinStructure: the header, then pointers to the parameters, to three buttons and to
      six bitmap descriptors. */
  const SkinStructure: seq<Entry> := [
    Entry("magic", Leaf(DWORD)), Entry("version", Leaf(DWORD)), Entry("#params", Struct(ParamsStructure)),
    Entry("#buttons:3", Struct(ButtonStructure)), Entry("#bitmaps:6", Struct(BitmapStructure))]
}
