/** The schema-driven binary parser of js/BinaryParser.js.

    A schema is an ordered list of entries `key -> node`. Each key follows the grammar
    `[#]name[:count]`; each node is a leaf type tag, a custom decoder or a nested schema.
    `Parser` walks a schema over one byte buffer with a single cursor, `offset`, and binds
    every field it reads to the place it was read from, so that `Set` can later write a new
    value back into the same bytes.

    The functions in the first half of the module say what reading and writing mean on a
    plain byte sequence; the class in the second half is the imperative parser, and each of
    its methods is proved to do what the corresponding function says. */
module BinaryParser {
  import opened Outcomes
  import opened Bytes
  import opened Numerals

  // ---------------------------------------------------------------------------
  // Type tags (the DataType table)
  // ---------------------------------------------------------------------------

  const BYTE: int := 1
  const CHAR: int := -1
  const WORD: int := 2
  const DWORD: int := 4
  const INT: int := -4
  const I16: int := -2
  const STR: int := 5
  const HEX6: int := 6
  const COLOR: int := 7

  /** Number of bytes a fixed-width reader consumes; 0 for STR and for unknown tags. */
  function Width(tag: int): nat {
    if tag == BYTE || tag == CHAR then 1
    else if tag == WORD || tag == I16 then 2
    else if tag == DWORD || tag == INT || tag == HEX6 || tag == COLOR then 4
    else 0
  }

  /** A tag that has a reader and a writer. */
  predicate IsTag(tag: int) {
    Width(tag) > 0 || tag == STR
  }

  // ---------------------------------------------------------------------------
  // Schemas, keys and parsed values
  // ---------------------------------------------------------------------------

  /** A schema node: a leaf tag, a custom decoder `(data, offset) -> value` that does not
      move the cursor, or a nested structure. */
  datatype Schema =
    | Leaf(tag: int)
    | Decoder(decode: (seq<byte>, nat) -> Result<Value>)
    | Struct(entries: seq<Entry>)

  datatype Entry = Entry(key: string, node: Schema)

  /** A parsed key: leading `#`, the name, and the repeat count (1 when absent). */
  datatype Key = Key(pointer: bool, name: string, count: nat)

  /** What a setter needs to know about its field: the writer to use (a leaf tag; a nested
      structure and a custom decoder have none), whether the field is a pointer, the cursor
      position at which the field began, and its repeat count. */
  datatype Kind = LeafKind(tag: int) | Nested | Custom
  datatype Binding = Binding(kind: Kind, pointer: bool, start: nat, count: nat)

  /** A field of the parsed tree: its name, its binding and its cached value. */
  datatype Field = Field(name: string, binding: Binding, value: Value)

  /** A property of a plain object returned by a custom decoder. */
  datatype Prop = Prop(name: string, value: Value)

  /** JavaScript values the parser produces or accepts:
      numbers (BYTE, WORD, DWORD, INT, I16), strings (CHAR, HEX6, COLOR) as sequences of
      Unicode scalar values, so a lone surrogate cannot occur,
      the raw bytes of a STR field, a nested structure, the array of a repeated field, and a
      plain object built by a custom decoder. */
  datatype Value =
    | Number(n: int)
    | Text(s: string)
    | Raw(b: seq<byte>)
    | Record(fields: seq<Field>)
    | List(items: seq<Value>)
    | Plain(props: seq<Prop>)

  function KindOf(node: Schema): Kind {
    match node
    case Leaf(tag) => LeafKind(tag)
    case Struct(_) => Nested
    case Decoder(_) => Custom
  }

  // ---------------------------------------------------------------------------
  // Key grammar `[#]name[:count]`
  // ---------------------------------------------------------------------------

  /** Index of the first ':' in s, or |s| when there is none. */
  function ColonIndex(s: string): (i: nat)
    ensures i <= |s| && ':' !in s[..i]
    ensures i < |s| ==> s[i] == ':'
  {
    if s == [] || s[0] == ':' then 0
    else
      var i := 1 + ColonIndex(s[1..]);
      assert s[..i] == [s[0]] + s[1..][..i - 1];
      i
  }

  /** The key grammar: one leading `#` marks a pointer and is stripped; the name is the
      non-empty text before the first ':'; the count is the decimal number after it, 1 when
      there is no ':'. Anything else makes the regular expression fail. */
  function ParseKey(key: string): (r: Result<Key>)
    ensures r.Ok? ==> 1 <= |r.value.name| && ':' !in r.value.name
    ensures r.Ok? ==> r.value.pointer == (|key| > 0 && key[0] == '#')
    ensures r.Err? ==> r.error == SchemaError
  {
    var pointer := |key| > 0 && key[0] == '#';
    var rest := if pointer then key[1..] else key;
    var i := ColonIndex(rest);
    var name := rest[..i];
    if |name| == 0 then Err(SchemaError)
    else if i == |rest| then Ok(Key(pointer, name, 1))
    else
      var digits := rest[i + 1..];
      if |digits| == 0 || !AllDigits(digits, 10) then Err(SchemaError)
      else Ok(Key(pointer, name, ValueOf(digits, 10)))
  }

  /** The canonical spelling of a key; `ParseKey` inverts it (parser_laws.dfy). */
  function FormatKey(k: Key): string {
    (if k.pointer then "#" else "") + k.name + (if k.count == 1 then "" else ":" + ToRadix(k.count, 10))
  }

  /** A count of 0 or 1 reads a single element; only a count above 1 reads an array. */
  function Reps(count: nat): (n: nat)
    ensures n >= 1
  {
    if count > 1 then count else 1
  }

  // ---------------------------------------------------------------------------
  // Leaf readers
  // ---------------------------------------------------------------------------

  /** `String.fromCharCode` of a signed byte: ToUint16 maps -128..-1 to U+FF80..U+FFFF. */
  function FromCharCode(x: int): (c: char)
    requires -128 <= x < 128
    ensures c as int % 256 == x % 256
  {
    var u := x % 65536;
    assert u < 128 || 65408 <= u;
    u as char
  }

  /** `n.toString(16).padStart(6, '0')`. */
  function Hex6(n: nat): string {
    PadStart(ToHex(n), 6)
  }

  /** The value a fixed-width reader returns for the unsigned little-endian integer u
      found in its bytes. */
  function LeafValue(tag: int, u: nat): Value
    requires Width(tag) > 0 && u < Pow256(Width(tag))
  {
    if tag == CHAR then Text([FromCharCode(ToSigned(u, 1))])
    else if tag == INT || tag == I16 then Number(ToSigned(u, Width(tag)))
    else if tag == HEX6 then Text(Hex6(u))
    else if tag == COLOR then Text("#" + Hex6(u))
    else Number(u)
  }

  /** readString: the bytes from `off` up to the first 0 byte (excluded) or the end of the
      buffer, and the cursor after the terminator; the loop never reads at or past
      `byteLength`. */
  function CString(buf: seq<byte>, off: nat): (r: (seq<byte>, nat))
    ensures off >= |buf| ==> r == ([], off)
    ensures off < |buf| ==> off + |r.0| <= |buf| && buf[off..off + |r.0|] == r.0
    ensures 0 !in r.0
    ensures off < |buf| ==>
              if off + |r.0| < |buf| then buf[off + |r.0|] == 0 && r.1 == off + |r.0| + 1
              else r.1 == |buf|
    decreases |buf| - off
  {
    if off >= |buf| then ([], off)
    else if buf[off] == 0 then ([], off + 1)
    else
      var rest := CString(buf, off + 1);
      ([buf[off]] + rest.0, rest.1)
  }

  /** One step of readString's loop: a 0 byte ends the text, any other byte is added to it. */
  lemma CStringFrom(buf: seq<byte>, off: nat, s: seq<byte>, whole: (seq<byte>, nat))
    requires off < |buf| && s + CString(buf, off).0 == whole.0 && CString(buf, off).1 == whole.1
    ensures buf[off] == 0 ==> s == whole.0 && off + 1 == whole.1
    ensures buf[off] != 0 ==> (s + [buf[off]]) + CString(buf, off + 1).0 == whole.0 && CString(buf, off + 1).1 == whole.1
  {
    CStringStep(buf, off);
    if buf[off] == 0 {
      assert s + [] == s;
    } else {
      var next := CString(buf, off + 1).0;
      assert s + ([buf[off]] + next) == (s + [buf[off]]) + next;
    }
  }

  /** readString's loop ends at the end of the buffer with the whole text read. */
  lemma CStringEnd(buf: seq<byte>, off: nat, s: seq<byte>, whole: (seq<byte>, nat))
    requires off >= |buf| && s + CString(buf, off).0 == whole.0 && CString(buf, off).1 == whole.1
    ensures s == whole.0 && off == whole.1
  {
    assert s + [] == s;
  }

  lemma CStringStep(buf: seq<byte>, off: nat)
    requires off < |buf|
    ensures CString(buf, off) ==
              if buf[off] == 0 then ([], off + 1)
              else ([buf[off]] + CString(buf, off + 1).0, CString(buf, off + 1).1)
  {
  }

  /** parseValue for a tag: the value read at `off` and the cursor after it. */
  function ReadLeaf(buf: seq<byte>, tag: int, off: nat): (r: Result<(Value, nat)>)
  {
    if tag == STR then
      var s := CString(buf, off);
      Ok((Raw(s.0), s.1))
    else if Width(tag) == 0 then Err(UnsupportedType)
    else if off + Width(tag) > |buf| then Err(OutOfBounds)
    else Ok((LeafValue(tag, ReadLE(buf, off, Width(tag))), off + Width(tag)))
  }

  // ---------------------------------------------------------------------------
  // The structure walk
  // ---------------------------------------------------------------------------

  /** Drops the cursor from a parse result. */
  function Val<T>(r: Result<(T, nat)>): Result<T> {
    if r.Ok? then Ok(r.value.0) else Err(r.error)
  }

  /** `acc` followed by what a parse of the remaining input yields. */
  function Prepend<T>(acc: seq<T>, r: Result<(seq<T>, nat)>): Result<(seq<T>, nat)> {
    if r.Ok? then Ok((acc + r.value.0, r.value.1)) else r
  }

  lemma PrependNil<T>(r: Result<(seq<T>, nat)>)
    ensures Prepend([], r) == r
  {
    if r.Ok? {
      assert [] + r.value.0 == r.value.0;
    }
  }

  lemma PrependPrepend<T>(acc: seq<T>, more: seq<T>, r: Result<(seq<T>, nat)>)
    ensures Prepend(acc, Prepend(more, r)) == Prepend(acc + more, r)
  {
    if r.Ok? {
      assert acc + (more + r.value.0) == (acc + more) + r.value.0;
    }
  }

  lemma EntriesStep(buf: seq<byte>, entries: seq<Entry>, i: nat, off: nat, seen: set<string>)
    requires i < |entries|
    ensures ParseEntries(buf, entries[i..], off, seen) ==
              var first := ParseEntry(buf, entries[i], off);
              if first.Err? then Err(first.error)
              else if first.value.0.name in seen then Err(SchemaError)
              else Prepend([first.value.0], ParseEntries(buf, entries[i + 1..], first.value.1, seen + {first.value.0.name}))
  {
    assert entries[i..][0] == entries[i] && entries[i..][1..] == entries[i + 1..];
  }

  /** readValue: one element of a node read at `off`. */
  function ParseNode(buf: seq<byte>, node: Schema, off: nat): Result<(Value, nat)>
    decreases node, 0, 0
  {
    match node
    case Leaf(tag) => ReadLeaf(buf, tag, off)
    case Decoder(decode) =>
      var v :- decode(buf, off);
      Ok((v, off))
    case Struct(entries) =>
      var r :- ParseEntries(buf, entries, off, {});
      Ok((Record(r.0), r.1))
  }

  /** `Array.from({length: n}, readValue)`: n elements read one after the other. */
  function ParseList(buf: seq<byte>, node: Schema, n: nat, off: nat): Result<(seq<Value>, nat)>
    decreases node, 1, n
  {
    if n == 0 then Ok(([], off))
    else
      var first :- ParseNode(buf, node, off);
      Prepend([first.0], ParseList(buf, node, n - 1, first.1))
  }

  /** The largest length a JavaScript array can have, 2^32 - 1. */
  const MAX_ARRAY_LENGTH: nat := 0xFFFF_FFFF

  /** `Array.from({length: n}, readValue)`: the array is created before any element is read,
      so a length beyond MAX_ARRAY_LENGTH is a RangeError that reads nothing. */
  function ParseArray(buf: seq<byte>, node: Schema, n: nat, off: nat): (r: Result<(seq<Value>, nat)>)
    decreases node, 2, 0
    ensures n > MAX_ARRAY_LENGTH ==> r == Err(OutOfBounds)
    ensures n <= MAX_ARRAY_LENGTH ==> r == ParseList(buf, node, n, off)
  {
    if n > MAX_ARRAY_LENGTH then Err(OutOfBounds) else ParseList(buf, node, n, off)
  }

  /** The elements of a field: one value when count <= 1, an array when count > 1. */
  function ParseCount(buf: seq<byte>, node: Schema, count: nat, off: nat): Result<(Value, nat)>
    decreases node, 3, 0
  {
    if count > 1 then
      var r :- ParseArray(buf, node, count, off);
      Ok((List(r.0), r.1))
    else ParseNode(buf, node, off)
  }

  /** Where a field's elements live: at `start`, or for a pointer field at the u32 stored
      at `start`. */
  function Target(buf: seq<byte>, b: Binding): nat
    requires b.pointer ==> b.start + 4 <= |buf|
  {
    if b.pointer then ReadLE(buf, b.start, 4) else b.start
  }

  /** One iteration of parseStructure's loop: the field for entry `e` read at `off`, and the
      cursor after it. A pointer field reads its elements at the stored target and leaves
      the cursor exactly 4 bytes after `off`. */
  function ParseEntry(buf: seq<byte>, e: Entry, off: nat): Result<(Field, nat)>
    decreases e, 0, 0
  {
    var key :- ParseKey(e.key);
    if key.pointer then
      if off + 4 > |buf| then Err(OutOfBounds)
      else
        var r :- ParseCount(buf, e.node, key.count, ReadLE(buf, off, 4));
        Ok((Field(key.name, Binding(KindOf(e.node), true, off, key.count), r.0), off + 4))
    else
      var r :- ParseCount(buf, e.node, key.count, off);
      Ok((Field(key.name, Binding(KindOf(e.node), false, off, key.count), r.0), r.1))
  }

  /** parseStructure from the entry list `entries` on, with `seen` the names already defined
      on the result object: redefining one is a TypeError of defineProperty. */
  function ParseEntries(buf: seq<byte>, entries: seq<Entry>, off: nat, seen: set<string>)
    : Result<(seq<Field>, nat)>
    decreases entries, 0, 0
  {
    if entries == [] then Ok(([], off))
    else
      var first :- ParseEntry(buf, entries[0], off);
      if first.0.name in seen then Err(SchemaError)
      else Prepend([first.0], ParseEntries(buf, entries[1..], first.1, seen + {first.0.name}))
  }

  // ---------------------------------------------------------------------------
  // Writers
  // ---------------------------------------------------------------------------

  /** Values of the JavaScript type each writer works on: numbers for the numeric tags,
      strings for CHAR, HEX6 and COLOR, bytes for STR. A field without a writer accepts
      anything, because it rejects everything. */
  predicate Writable(kind: Kind, v: Value) {
    match kind
    case LeafKind(tag) =>
      if tag == STR then v.Raw?
      else if tag == CHAR || tag == HEX6 || tag == COLOR then v.Text?
      else if Width(tag) > 0 then v.Number?
      else true
    case _ => true
  }

  /** What a setter accepts: an array writes each element, anything else is written once. */
  predicate Settable(kind: Kind, v: Value) {
    if v.List? then forall i :: 0 <= i < |v.items| ==> Writable(kind, v.items[i])
    else Writable(kind, v)
  }

  /** NaN (no digits) is stored as 0 by the DataView setters. */
  function NumberOrZero(x: Option<int>): int {
    if x.Some? then x.value else 0
  }

  /** `charCodeAt(0)`: the first UTF-16 code unit of s, which for a character beyond the
      Basic Multilingual Plane is its high surrogate; NaN, i.e. 0, for the empty string. */
  function CharCodeAt0(s: string): (u: nat)
    ensures u < 0x10000
    ensures |s| > 0 && (s[0] as int) < 0x10000 ==> u == s[0] as int
    ensures |s| > 0 && (s[0] as int) >= 0x10000 ==> 0xD800 <= u < 0xDC00
  {
    if |s| == 0 then 0
    else
      var c := s[0] as int;
      if c < 0x10000 then c else 0xD800 + (c - 0x10000) / 0x400
  }

  /** The integer a fixed-width writer hands to `setUint*`/`setInt*`: `charCodeAt(0)` for CHAR,
      `parseInt(v, 16)` for HEX6, `parseInt(v.slice(1), 16)` for COLOR, the number itself
      otherwise. `slice(1)` drops one UTF-16 code unit: after a first character beyond the
      Basic Multilingual Plane the rest starts with a low surrogate, which is no digit, so
      `parseInt` gives NaN. */
  function WriterBits(tag: int, v: Value): int
    requires Width(tag) > 0 && Writable(LeafKind(tag), v)
  {
    if tag == CHAR then CharCodeAt0(v.s)
    else if tag == HEX6 then NumberOrZero(ParseInt(v.s, 16))
    else if tag == COLOR then
      NumberOrZero(if |v.s| > 0 && v.s[0] as int >= 0x10000 then None
                   else ParseInt(if |v.s| == 0 then "" else v.s[1..], 16))
    else v.n
  }

  /** The buffer after a write, the cursor after it (also when an error interrupted it), and
      that error. */
  datatype Written = Written(buf: seq<byte>, cursor: nat, failure: Option<Error>)

  /** writeValue at `off`. A fixed-width write is all or nothing (DataView checks the whole
      span) and leaves the cursor alone when it fails; writeString stores byte by byte, so
      the bytes that fit are written before the RangeError, and the `offset++` of the store
      that fails has already moved the cursor one past the end. */
  function WriteLeaf(buf: seq<byte>, kind: Kind, off: nat, v: Value): (w: Written)
    requires Writable(kind, v)
    ensures |w.buf| == |buf|
  {
    if !kind.LeafKind? || !IsTag(kind.tag) then Written(buf, off, Some(UnsupportedType))
    else if kind.tag == STR then
      var enc := v.b + [0];
      if off + |enc| <= |buf| then Written(Overlay(buf, off, enc), off + |enc|, None)
      else Written(Overlay(buf, off, enc), (if off < |buf| then |buf| else off) + 1, Some(OutOfBounds))
    else if off + Width(kind.tag) > |buf| then Written(buf, off, Some(OutOfBounds))
    else
      Written(Overlay(buf, off, EncodeLE(WriterBits(kind.tag, v), Width(kind.tag))), off + Width(kind.tag), None)
  }

  /** `newValue.forEach(v => writeValue(type, v))`: the elements one after the other,
      stopping at the first exception. */
  function WriteAll(buf: seq<byte>, kind: Kind, off: nat, vs: seq<Value>): (w: Written)
    requires forall i :: 0 <= i < |vs| ==> Writable(kind, vs[i])
    ensures |w.buf| == |buf|
    decreases vs
  {
    if vs == [] then Written(buf, off, None)
    else
      var first := WriteLeaf(buf, kind, off, vs[0]);
      if first.failure.Some? then first else WriteAll(first.buf, kind, first.cursor, vs[1..])
  }

  /** The setter of a field: the target is re-derived from the buffer as it is now (the
      pointer is read again, never cached), then the new value is written there. When the
      pointer itself cannot be read the setter fails before touching the cursor; the cursor
      reported then is the field's start. */
  function SetSpec(buf: seq<byte>, b: Binding, v: Value): (w: Written)
    requires Settable(b.kind, v)
    ensures |w.buf| == |buf|
  {
    if b.pointer && b.start + 4 > |buf| then Written(buf, b.start, Some(OutOfBounds))
    else if v.List? then WriteAll(buf, b.kind, Target(buf, b), v.items)
    else WriteLeaf(buf, b.kind, Target(buf, b), v)
  }

  // ---------------------------------------------------------------------------
  // The parser object
  // ---------------------------------------------------------------------------

  /** A BinaryParser: one byte buffer (the DataView, never resized or replaced), the cursor,
      and the tree parsed at construction. */
  class Parser {
    const data: array<byte>
    var offset: nat
    var parsed: Result<seq<Field>>

    /** `new BinaryParser(buffer, structure)`: parses the whole structure from offset 0. */
    constructor (buffer: array<byte>, structure: seq<Entry>)
      ensures data == buffer && data[..] == old(buffer[..])
      ensures parsed == Val(ParseEntries(buffer[..], structure, 0, {}))
    {
      data := buffer;
      offset := 0;
      parsed := Err(SchemaError);
      new;
      parsed := ParseStructure(structure);
    }

    /** parse(): the tree built by the constructor. */
    function Parse(): Result<seq<Field>>
      reads this
    {
      parsed
    }

    /** read(bytes, getUintN): the w-byte little-endian value at the cursor, which then moves
        past it; a RangeError when the span passes the end of the buffer. */
    method Read(w: nat) returns (r: Result<nat>)
      modifies this
      ensures old(offset) + w <= data.Length ==>
                r == Ok(ReadLE(data[..], old(offset), w)) && offset == old(offset) + w
      ensures old(offset) + w > data.Length ==> r == Err(OutOfBounds) && offset == old(offset)
      ensures parsed == old(parsed)
    {
      if offset + w > data.Length {
        return Err(OutOfBounds);
      }
      r := Ok(ReadLE(data[..], offset, w));
      offset := offset + w;
    }

    /** readString: consumes bytes up to and including the first 0, never reading at or past
        the end of the buffer; the result excludes the terminator. */
    method ReadString() returns (s: seq<byte>)
      modifies this
      ensures (s, offset) == CString(data[..], old(offset))
      ensures parsed == old(parsed)
    {
      s := [];
      ghost var buf := data[..];
      ghost var whole := CString(buf, offset);
      assert [] + whole.0 == whole.0;
      // The cursor moves in a local and is stored on every exit; nothing reads the field
      // in between.
      var off := offset;
      while off < data.Length
        invariant s + CString(buf, off).0 == whole.0
        invariant CString(buf, off).1 == whole.1
        invariant parsed == old(parsed)
        decreases data.Length - off
      {
        var b := data[off];
        CStringFrom(buf, off, s, whole);
        off := off + 1;
        if b == 0 {
          offset := off;
          return;
        }
        s := s + [b];
      }
      CStringEnd(buf, off, s, whole);
      offset := off;
    }

    /** parseValue for a tag. */
    method ParseValue(tag: int) returns (r: Result<Value>)
      modifies this
      ensures r == Val(ReadLeaf(data[..], tag, old(offset)))
      ensures r.Ok? ==> offset == ReadLeaf(data[..], tag, old(offset)).value.1
      ensures r.Err? ==> offset == old(offset)
      ensures parsed == old(parsed)
    {
      if tag == STR {
        var s := ReadString();
        return Ok(Raw(s));
      }
      if Width(tag) == 0 {
        return Err(UnsupportedType);
      }
      var u :- Read(Width(tag));
      r := Ok(LeafValue(tag, u));
    }

    /** readValue: a nested structure, a custom decoder called at the cursor (which it does
        not move), or a leaf. */
    method ReadElement(node: Schema) returns (r: Result<Value>)
      modifies this
      decreases node, 0
      ensures r == Val(ParseNode(data[..], node, old(offset)))
      ensures r.Ok? ==> offset == ParseNode(data[..], node, old(offset)).value.1
      ensures parsed == old(parsed)
    {
      match node
      case Struct(entries) =>
        var fields :- ParseStructure(entries);
        r := Ok(Record(fields));
      case Decoder(decode) =>
        r := decode(data[..], offset);
      case Leaf(tag) =>
        r := ParseValue(tag);
    }

    /** Array.from({ length: count }, readValue): `count` elements read one after another. */
    method ReadArray(node: Schema, count: nat) returns (r: Result<seq<Value>>)
      modifies this
      decreases node, 1
      ensures r == Val(ParseArray(data[..], node, count, old(offset)))
      ensures r.Ok? ==> offset == ParseArray(data[..], node, count, old(offset)).value.1
      ensures count > MAX_ARRAY_LENGTH ==> offset == old(offset)
      ensures parsed == old(parsed)
    {
      if count > MAX_ARRAY_LENGTH {
        return Err(OutOfBounds);
      }
      ghost var buf := data[..];
      var items: seq<Value> := [];
      PrependNil(ParseList(buf, node, count, offset));
      for j := 0 to count
        invariant ParseList(buf, node, count, old(offset)) == Prepend(items, ParseList(buf, node, count - j, offset))
        invariant parsed == old(parsed)
      {
        var item := ReadElement(node);
        if item.Err? {
          return Err(item.error);
        }
        PrependPrepend(items, [item.value], ParseList(buf, node, count - j - 1, offset));
        items := items + [item.value];
      }
      assert items + [] == items;
      r := Ok(items);
    }

    /** One iteration of parseStructure's loop: parse the key, move the cursor to the
        pointer target if there is one, read the element(s), and for a pointer put the
        cursor 4 bytes after where the field began. */
    method ParseField(e: Entry) returns (r: Result<Field>)
      modifies this
      decreases e
      ensures r == Val(ParseEntry(data[..], e, old(offset)))
      ensures r.Ok? ==> offset == ParseEntry(data[..], e, old(offset)).value.1
      ensures parsed == old(parsed)
    {
      var start := offset;
      ghost var buf := data[..];
      var key :- ParseKey(e.key);
      var target := start;
      if key.pointer {
        if start + 4 > data.Length {
          return Err(OutOfBounds);
        }
        target := ReadLE(data[..], start, 4);
      }
      ghost var elements := ParseCount(buf, e.node, key.count, target);
      var value: Value;
      offset := target;
      if key.count > 1 {
        var items :- ReadArray(e.node, key.count);
        value := List(items);
      } else {
        value :- ReadElement(e.node);
      }
      assert elements == Ok((value, offset));
      if key.pointer {
        offset := start + 4;
      }
      r := Ok(Field(key.name, Binding(KindOf(e.node), key.pointer, start, key.count), value));
    }

    /** parseStructure: the fields of `entries` in order, read from the cursor on. */
    method ParseStructure(entries: seq<Entry>) returns (r: Result<seq<Field>>)
      modifies this
      decreases entries
      ensures r == Val(ParseEntries(data[..], entries, old(offset), {}))
      ensures r.Ok? ==> offset == ParseEntries(data[..], entries, old(offset), {}).value.1
      ensures parsed == old(parsed)
    {
      ghost var buf := data[..];
      var fields: seq<Field> := [];
      var names: set<string> := {};
      PrependNil(ParseEntries(buf, entries, offset, {}));
      assert entries[0..] == entries;
      for i := 0 to |entries|
        invariant ParseEntries(buf, entries, old(offset), {}) == Prepend(fields, ParseEntries(buf, entries[i..], offset, names))
        invariant parsed == old(parsed)
      {
        EntriesStep(buf, entries, i, offset, names);
        var fr := ParseField(entries[i]);
        if fr.Err? {
          return Err(fr.error);
        }
        var f := fr.value;
        if f.name in names {
          return Err(SchemaError);
        }
        PrependPrepend(fields, [f], ParseEntries(buf, entries[i + 1..], offset, names + {f.name}));
        fields := fields + [f];
        names := names + {f.name};
      }
      assert entries[|entries|..] == [];
      assert fields + [] == fields;
      r := Ok(fields);
    }

    /** write(bytes, setUintN, value): stores the low w bytes of n at the cursor and moves
        past them; a RangeError, with nothing written, when they do not fit. */
    method Write(w: nat, n: int) returns (ok: bool)
      modifies this, data
      ensures ok == (old(offset) + w <= data.Length)
      ensures ok ==> data[..] == Overlay(old(data[..]), old(offset), EncodeLE(n, w)) && offset == old(offset) + w
      ensures !ok ==> data[..] == old(data[..]) && offset == old(offset)
      ensures parsed == old(parsed)
    {
      if offset + w > data.Length {
        return false;
      }
      var bytes := EncodeLE(n, w);
      forall k | 0 <= k < w {
        data[offset + k] := bytes[k];
      }
      offset := offset + w;
      ok := true;
    }

    /** writeString: the bytes one at a time, then a single 0; a byte that falls past the end
        raises a RangeError after the earlier ones were stored. */
    method WriteString(s: seq<byte>) returns (ok: bool)
      modifies this, data
      ensures data[..] == Overlay(old(data[..]), old(offset), s + [0])
      ensures ok == (old(offset) + |s| + 1 <= data.Length)
      ensures ok ==> offset == old(offset) + |s| + 1
      ensures !ok ==> offset == (if old(offset) < data.Length then data.Length else old(offset)) + 1
      ensures parsed == old(parsed)
    {
      var enc := s + [0];
      ghost var before := data[..];
      ghost var start := offset;
      for j := 0 to |enc|
        invariant offset == start + j
        invariant j == 0 || start + j <= data.Length
        invariant data[..] == Overlay(before, start, enc[..j])
        invariant parsed == old(parsed)
      {
        if offset >= data.Length {
          assert data[..] == Overlay(before, start, enc);
          offset := offset + 1;
          return false;
        }
        data[offset] := enc[j];
        offset := offset + 1;
      }
      assert enc[..|enc|] == enc;
      ok := true;
    }

    /** writeValue(type, value): dispatch on the tag; a nested structure, a custom decoder or
        an unknown tag has no writer. */
    method WriteValue(kind: Kind, v: Value) returns (failure: Option<Error>)
      requires Writable(kind, v)
      modifies this, data
      ensures data[..] == WriteLeaf(old(data[..]), kind, old(offset), v).buf
      ensures failure == WriteLeaf(old(data[..]), kind, old(offset), v).failure
      ensures offset == WriteLeaf(old(data[..]), kind, old(offset), v).cursor
      ensures parsed == old(parsed)
    {
      if !kind.LeafKind? || !IsTag(kind.tag) {
        return Some(UnsupportedType);
      }
      var ok: bool;
      if kind.tag == STR {
        ok := WriteString(v.b);
      } else {
        ok := Write(Width(kind.tag), WriterBits(kind.tag, v));
      }
      failure := if ok then None else Some(OutOfBounds);
    }

    /** The setter bound to field f: re-derive the target, write the value (each element of
        an array in turn), update the cached value and put the cursor back at the field's
        start. */
    method Set(f: Field, v: Value) returns (r: Result<Field>)
      requires Settable(f.binding.kind, v)
      modifies this, data
      ensures data[..] == SetSpec(old(data[..]), f.binding, v).buf
      ensures r == if SetSpec(old(data[..]), f.binding, v).failure.None? then Ok(f.(value := v))
                   else Err(SetSpec(old(data[..]), f.binding, v).failure.value)
      ensures r.Ok? ==> offset == f.binding.start
      ensures r.Err? ==> offset == if f.binding.pointer && f.binding.start + 4 > data.Length then old(offset)
                                   else SetSpec(old(data[..]), f.binding, v).cursor
      ensures parsed == old(parsed)
    {
      var b := f.binding;
      if b.pointer {
        if b.start + 4 > data.Length {
          return Err(OutOfBounds);
        }
        offset := ReadLE(data[..], b.start, 4);
      } else {
        offset := b.start;
      }
      if v.List? {
        ghost var goal := WriteAll(data[..], b.kind, offset, v.items);
        for i := 0 to |v.items|
          invariant goal == WriteAll(data[..], b.kind, offset, v.items[i..])
          invariant parsed == old(parsed)
        {
          var failure := WriteValue(b.kind, v.items[i]);
          if failure.Some? {
            return Err(failure.value);
          }
        }
      } else {
        var failure := WriteValue(b.kind, v);
        if failure.Some? {
          return Err(failure.value);
        }
      }
      offset := b.start;
      r := Ok(f.(value := v));
    }
  }
}
