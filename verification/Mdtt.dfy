/**
 Metadata type definitions (src/file_source.rs): the depth-bounded recursive parser,
 the layout it reads, and the round trip between them.
 */
module Mdtt {
  import opened Bits
  import opened ByteFile
  import opened Results

  const MAX_META_TYPE_DEPTH: nat := 32
  const MAX_META_TYPE_ELEMENTS: nat := 4096
  const NAME_BYTES: nat := 128
  const FLAG_VALUES: nat := 64

  datatype MetaType = MtNone | MtBool | MtInteger | MtFloat | MtString | MtVector | MtArray | MtObject

  /** `elements` is empty for scalars; vectors and arrays have their element type, objects their fields. */
  datatype Definition = Definition(id: nat, metaType: MetaType, flags: nat, count: nat, elements: seq<Element>)

  datatype Element = Element(name: seq<byte>, flags: nat, definition: Definition)

  function MetaTypeOf(code: nat): Option<MetaType> {
    match code
    case 0 => Some(MtNone)
    case 1 => Some(MtBool)
    case 2 => Some(MtInteger)
    case 3 => Some(MtFloat)
    case 4 => Some(MtString)
    case 5 => Some(MtVector)
    case 6 => Some(MtArray)
    case 7 => Some(MtObject)
    case _ => None
  }

  /** How many elements follow a definition; none when an object declares too many. */
  function ElementCount(metaType: MetaType, count: nat): (n: Option<nat>)
    ensures n.Some? ==> n.value <= MAX_META_TYPE_ELEMENTS
  {
    match metaType
    case MtObject => if count > MAX_META_TYPE_ELEMENTS then None else Some(count)
    case MtArray | MtVector => Some(1)
    case _ => Some(0)
  }

  function TrimNul(name: seq<byte>): seq<byte> {
    if name != [] && name[|name| - 1] == 0 then TrimNul(name[..|name| - 1]) else name
  }

  // ---------------------------------------------------------------- the parser

  const PREFIX_BYTES: nat := 17
  const ELEMENT_PREFIX_BYTES: nat := 132

  datatype Parsed<T> = Parsed(value: T, next: nat)

  /** The definition at `p`, or none on a short read, a bad type code, too many fields or too much nesting. */
  function ParseDefinition(bytes: seq<byte>, p: nat, depth: nat): Option<Parsed<Definition>>
    requires depth <= MAX_META_TYPE_DEPTH + 1
    decreases MAX_META_TYPE_DEPTH + 1 - depth, MAX_META_TYPE_ELEMENTS + 1
  {
    if depth > MAX_META_TYPE_DEPTH || p + PREFIX_BYTES > |bytes| then None
    else match MetaTypeOf(UnsignedAt(bytes, p + 8, 1))
      case None => None
      case Some(metaType) =>
        var count := UnsignedAt(bytes, p + 13, 4);
        match ElementCount(metaType, count)
        case None => None
        case Some(n) =>
          match ParseElements(bytes, p + PREFIX_BYTES, depth, n)
          case None => None
          case Some(Parsed(elements, next)) =>
            var id, flags := UnsignedAt(bytes, p, 8), UnsignedAt(bytes, p + 9, 4) % FLAG_VALUES;
            Some(Parsed(Definition(id, metaType, flags, count, elements), next))
  }

  /** The next `n` elements of a definition nested `depth` levels down. */
  function ParseElements(bytes: seq<byte>, p: nat, depth: nat, n: nat): Option<Parsed<seq<Element>>>
    requires depth <= MAX_META_TYPE_DEPTH && n <= MAX_META_TYPE_ELEMENTS
    decreases MAX_META_TYPE_DEPTH + 1 - depth, n
  {
    if n == 0 then Some(Parsed([], p))
    else if p + ELEMENT_PREFIX_BYTES > |bytes| then None
    else match ParseDefinition(bytes, p + ELEMENT_PREFIX_BYTES, depth + 1)
      case None => None
      case Some(Parsed(definition, next)) =>
        match ParseElements(bytes, next, depth, n - 1)
        case None => None
        case Some(Parsed(rest, end)) =>
          Some(Parsed([ElementAt(bytes, p, definition)] + rest, end))
  }

  function ElementAt(bytes: seq<byte>, p: nat, definition: Definition): Element
    requires p + ELEMENT_PREFIX_BYTES <= |bytes|
  {
    Element(TrimNul(bytes[p..p + NAME_BYTES]), UnsignedAt(bytes, p + NAME_BYTES, 4), definition)
  }

  function Continue(done: seq<Element>, rest: Option<Parsed<seq<Element>>>): Option<Parsed<seq<Element>>> {
    match rest
    case None => None
    case Some(Parsed(elements, next)) => Some(Parsed(done + elements, next))
  }

  /** Trims trailing NULs the way the source trims a name. */
  method TrimName(name: seq<byte>) returns (trimmed: seq<byte>)
    ensures trimmed == TrimNul(name)
  {
    trimmed := name;
    while trimmed != [] && trimmed[|trimmed| - 1] == 0
      invariant TrimNul(trimmed) == TrimNul(name)
      decreases |trimmed|
    {
      trimmed := trimmed[..|trimmed| - 1];
    }
  }

  method ReadMetaTypeDefinition(reader: Reader, depth: nat) returns (definition: Option<Definition>)
    requires depth <= MAX_META_TYPE_DEPTH + 1
    modifies reader
    ensures definition.Some? <==> ParseDefinition(reader.file, old(reader.cursor), depth).Some?
    ensures definition.Some? ==>
              ParseDefinition(reader.file, old(reader.cursor), depth) == Some(Parsed(definition.value, reader.cursor))
    decreases MAX_META_TYPE_DEPTH + 1 - depth, 1
  {
    hide LittleEndian, ParseElements, TrimNul;
    if depth > MAX_META_TYPE_DEPTH {
      return None;
    }
    var id :- reader.ReadUnsigned(8);
    var code :- reader.ReadUnsigned(1);
    var metaType :- MetaTypeOf(code);
    var flags :- reader.ReadUnsigned(4);
    var count :- reader.ReadUnsigned(4);
    var n :- ElementCount(metaType, count);
    var elements :- ReadElements(reader, depth, n);
    definition := Some(Definition(id, metaType, flags % FLAG_VALUES, count, elements));
  }

  method ReadElements(reader: Reader, depth: nat, n: nat) returns (elements: Option<seq<Element>>)
    requires depth <= MAX_META_TYPE_DEPTH && n <= MAX_META_TYPE_ELEMENTS
    modifies reader
    ensures elements.Some? <==> ParseElements(reader.file, old(reader.cursor), depth, n).Some?
    ensures elements.Some? ==>
              ParseElements(reader.file, old(reader.cursor), depth, n) == Some(Parsed(elements.value, reader.cursor))
    decreases MAX_META_TYPE_DEPTH + 1 - depth, 0
  {
    hide LittleEndian, ParseDefinition, TrimNul;
    ghost var file, start := reader.file, reader.cursor;
    var read: seq<Element> := [];
    ContinueNothing(read, ParseElements(file, start, depth, n));
    for i := 0 to n
      invariant ParseElements(file, start, depth, n) == Continue(read, ParseElements(file, reader.cursor, depth, n - i))
    {
      ghost var p := reader.cursor;
      var name :- reader.ReadExact(NAME_BYTES);
      var trimmed := TrimName(name);
      var flags :- reader.ReadUnsigned(4);
      var definition :- ReadMetaTypeDefinition(reader, depth + 1);
      var element := Element(trimmed, flags, definition);
      assert element == ElementAt(file, p, definition);
      ContinueOne(read, element, ParseElements(file, reader.cursor, depth, n - i - 1));
      read := read + [element];
    }
    ContinueNothing(read, None);
    elements := Some(read);
  }

  lemma {:induction false} ContinueNothing(done: seq<Element>, rest: Option<Parsed<seq<Element>>>)
    ensures done == [] ==> Continue(done, rest) == rest
    ensures done + [] == done
  {
    if rest.Some? {
      assert [] + rest.value.value == rest.value.value;
    }
  }

  lemma {:induction false} ContinueOne(done: seq<Element>, element: Element, rest: Option<Parsed<seq<Element>>>)
    ensures Continue(done, Continue([element], rest)) == Continue(done + [element], rest)
  {
    if rest.Some? {
      assert done + ([element] + rest.value.value) == done + [element] + rest.value.value;
    }
  }

  // ---------------------------------------------------------------- the layout

  function MetaTypeCode(metaType: MetaType): byte {
    match metaType
    case MtNone => 0
    case MtBool => 1
    case MtInteger => 2
    case MtFloat => 3
    case MtString => 4
    case MtVector => 5
    case MtArray => 6
    case MtObject => 7
  }

  function PrintDefinition(d: Definition): seq<byte>
    decreases d
  {
    PrintPrefix(d) + PrintElements(d.elements)
  }

  function PrintPrefix(d: Definition): (bytes: seq<byte>)
    ensures |bytes| == PREFIX_BYTES
  {
    LittleEndianBytes(d.id, 8) + [MetaTypeCode(d.metaType)]
    + LittleEndianBytes(d.flags, 4) + LittleEndianBytes(d.count, 4)
  }

  function PrintElements(elements: seq<Element>): seq<byte>
    decreases elements
  {
    if elements == [] then []
    else
      PrintElementPrefix(elements[0]) + PrintDefinition(elements[0].definition) + PrintElements(elements[1..])
  }

  function PrintElementPrefix(e: Element): (bytes: seq<byte>)
    ensures |e.name| <= NAME_BYTES ==> |bytes| == ELEMENT_PREFIX_BYTES
  {
    e.name + Nuls(if |e.name| <= NAME_BYTES then NAME_BYTES - |e.name| else 0) + LittleEndianBytes(e.flags, 4)
  }

  /** The definitions that can be written down `depth` levels deep. */
  predicate Printable(d: Definition, depth: nat)
    decreases d
  {
    && depth <= 32
    && d.id < 0x1_0000_0000_0000_0000
    && d.flags < 64
    && d.count < 0x1_0000_0000
    && (match d.metaType
        case MtObject => |d.elements| == d.count <= 4096
        case MtArray | MtVector => |d.elements| == 1
        case _ => d.elements == [])
    && PrintableElements(d.elements, depth)
  }

  predicate PrintableElements(elements: seq<Element>, depth: nat)
    decreases elements
  {
    elements == []
    || (PrintableElement(elements[0])
        && Printable(elements[0].definition, depth + 1)
        && PrintableElements(elements[1..], depth))
  }

  predicate PrintableElement(e: Element) {
    && |e.name| <= 128
    && (e.name == [] || e.name[|e.name| - 1] != 0)
    && e.flags < 0x1_0000_0000
  }

  function Depth(d: Definition): nat
    decreases d
  {
    DepthOfElements(d.elements)
  }

  /** Levels of nesting below a definition with these elements. */
  function DepthOfElements(elements: seq<Element>): nat
    decreases elements
  {
    if elements == [] then 0
    else
      var first, rest := 1 + Depth(elements[0].definition), DepthOfElements(elements[1..]);
      if first < rest then rest else first
  }

  // ---------------------------------------------------------------- printing then parsing

  lemma {:induction false} PrefixReadsBack(before: seq<byte>, d: Definition, after: seq<byte>)
    requires d.id < 0x1_0000_0000_0000_0000 && d.flags < FLAG_VALUES && d.count < 0x1_0000_0000
    ensures var bytes, p := before + PrintPrefix(d) + after, |before|;
            && UnsignedAt(bytes, p, 8) == d.id
            && UnsignedAt(bytes, p + 8, 1) == MetaTypeCode(d.metaType)
            && UnsignedAt(bytes, p + 9, 4) == d.flags
            && UnsignedAt(bytes, p + 13, 4) == d.count
  {
    hide UnsignedAt, LittleEndianBytes, MetaTypeCode, Pow2;
    WordSizes();
    SingleByteField(d);
    var bytes, p := before + PrintPrefix(d) + after, |before|;
    PrefixFields(before, d, after);
    FieldReadsBack(bytes, p, d.id, 8);
    FieldReadsBack(bytes, p + 8, MetaTypeCode(d.metaType), 1);
    FieldReadsBack(bytes, p + 9, d.flags, 4);
    FieldReadsBack(bytes, p + 13, d.count, 4);
  }

  lemma {:induction false} PrefixFields(before: seq<byte>, d: Definition, after: seq<byte>)
    ensures var bytes, p := before + PrintPrefix(d) + after, |before|;
            && bytes[p..p + 8] == LittleEndianBytes(d.id, 8)
            && bytes[p + 8..p + 9] == [MetaTypeCode(d.metaType)]
            && bytes[p + 9..p + 13] == LittleEndianBytes(d.flags, 4)
            && bytes[p + 13..p + 17] == LittleEndianBytes(d.count, 4)
  {
    hide LittleEndianBytes, MetaTypeCode;
  }

  lemma {:induction false} SingleByteField(d: Definition)
    ensures LittleEndianBytes(MetaTypeCode(d.metaType), 1) == [MetaTypeCode(d.metaType)]
    ensures MetaTypeCode(d.metaType) < Pow2(8 * 1)
  {
    var code := MetaTypeCode(d.metaType);
    WordSizes();
    assert LittleEndianBytes(code / 256, 0) == [];
  }

  lemma {:induction false} TrimPadded(name: seq<byte>, n: nat)
    requires name == [] || name[|name| - 1] != 0
    ensures TrimNul(name + Nuls(n)) == name
    decreases n
  {
    var padded := name + Nuls(n);
    if n > 0 {
      assert padded[..|padded| - 1] == name + Nuls(n - 1);
      TrimPadded(name, n - 1);
    } else {
      assert padded == name;
    }
  }

  lemma {:induction false} ElementPrefixReadsBack(before: seq<byte>, e: Element, after: seq<byte>)
    requires PrintableElement(e)
    ensures |before| + ELEMENT_PREFIX_BYTES <= |before + PrintElementPrefix(e) + after|
    ensures ElementAt(before + PrintElementPrefix(e) + after, |before|, e.definition) == e
  {
    hide UnsignedAt, LittleEndianBytes, TrimNul, Nuls, Pow2;
    WordSizes();
    var name, flags := e.name + Nuls(NAME_BYTES - |e.name|), LittleEndianBytes(e.flags, 4);
    var bytes := before + (name + flags) + after;
    assert PrintElementPrefix(e) == name + flags;
    TrimPadded(e.name, NAME_BYTES - |e.name|);
    ElementFields(before, name, flags, after);
    FieldReadsBack(bytes, |before| + NAME_BYTES, e.flags, 4);
  }

  lemma {:induction false} ElementFields(before: seq<byte>, name: seq<byte>, flags: seq<byte>, after: seq<byte>)
    requires |name| == NAME_BYTES && |flags| == 4
    ensures var bytes, p := before + (name + flags) + after, |before|;
            && bytes[p..p + NAME_BYTES] == name
            && bytes[p + NAME_BYTES..p + NAME_BYTES + 4] == flags
  {
  }

  /** Parsing what was printed gives the definition back and stops right after it. */
  lemma {:induction false} PrintThenParse(before: seq<byte>, d: Definition, after: seq<byte>, depth: nat)
    requires Printable(d, depth)
    ensures ParseDefinition(before + PrintDefinition(d) + after, |before|, depth)
            == Some(Parsed(d, |before| + |PrintDefinition(d)|))
    decreases d, 1
  {
    hide UnsignedAt, PrintPrefix, PrintElements, ParseElements, MetaTypeOf, MetaTypeCode;
    var bytes := before + PrintDefinition(d) + after;
    var rest := PrintElements(d.elements);
    assert bytes == before + PrintPrefix(d) + (rest + after);
    PrefixReadsBack(before, d, rest + after);
    MetaTypeCodeInverse(d.metaType);
    assert bytes == before + PrintPrefix(d) + rest + after;
    ElementsPrintThenParse(before + PrintPrefix(d), d.elements, after, depth);
  }

  lemma {:induction false} MetaTypeCodeInverse(metaType: MetaType)
    ensures MetaTypeOf(MetaTypeCode(metaType)) == Some(metaType)
  {
  }

  lemma {:induction false} ElementsPrintThenParse(
    before: seq<byte>, elements: seq<Element>, after: seq<byte>, depth: nat)
    requires depth <= MAX_META_TYPE_DEPTH && |elements| <= MAX_META_TYPE_ELEMENTS
    requires PrintableElements(elements, depth)
    ensures ParseElements(before + PrintElements(elements) + after, |before|, depth, |elements|)
            == Some(Parsed(elements, |before| + |PrintElements(elements)|))
    decreases elements, 0
  {
    hide ElementAt, PrintElementPrefix, PrintDefinition, ParseDefinition, Printable, PrintableElement;
    var bytes := before + PrintElements(elements) + after;
    if elements != [] {
      var e, tail := elements[0], elements[1..];
      var prefix, body, rest := PrintElementPrefix(e), PrintDefinition(e.definition), PrintElements(tail);
      assert bytes == before + prefix + (body + rest + after);
      ElementPrefixReadsBack(before, e, body + rest + after);
      PrintableElementPrefix(e);
      assert bytes == before + prefix + body + (rest + after);
      PrintThenParse(before + prefix, e.definition, rest + after, depth + 1);
      assert bytes == before + prefix + body + rest + after;
      ElementsPrintThenParse(before + prefix + body, tail, after, depth);
      assert elements == [e] + tail;
    }
  }

  lemma {:induction false} PrintableElementPrefix(e: Element)
    requires PrintableElement(e)
    ensures |PrintElementPrefix(e)| == ELEMENT_PREFIX_BYTES
  {
  }

  // ---------------------------------------------------------------- parsing anything

  lemma {:induction false} TrimNulTrims(name: seq<byte>)
    ensures |TrimNul(name)| <= |name| && (TrimNul(name) == [] || TrimNul(name)[|TrimNul(name)| - 1] != 0)
  {
    if name != [] && name[|name| - 1] == 0 {
      TrimNulTrims(name[..|name| - 1]);
    }
  }

  /** On any bytes, a parsed definition is printable at its depth, and as long as its printed form. */
  lemma {:induction false} ParsedIsPrintable(bytes: seq<byte>, p: nat, depth: nat)
    requires depth <= MAX_META_TYPE_DEPTH + 1
    ensures match ParseDefinition(bytes, p, depth)
            case None => true
            case Some(Parsed(d, next)) => Printable(d, depth) && next == p + |PrintDefinition(d)| <= |bytes|
    decreases MAX_META_TYPE_DEPTH + 1 - depth, MAX_META_TYPE_ELEMENTS + 1
  {
    hide UnsignedAt, PrintPrefix, PrintElements, PrintableElements, ParseElements, MetaTypeOf;
    var parsed := ParseDefinition(bytes, p, depth);
    if parsed.Some? {
      var d := parsed.value.value;
      FieldBound(bytes, p, 8);
      FieldBound(bytes, p + 13, 4);
      var n := ElementCount(d.metaType, d.count).value;
      ParsedElementsArePrintable(bytes, p + PREFIX_BYTES, depth, n);
    }
  }

  lemma {:induction false} ParsedElementsArePrintable(bytes: seq<byte>, p: nat, depth: nat, n: nat)
    requires depth <= MAX_META_TYPE_DEPTH && n <= MAX_META_TYPE_ELEMENTS && p <= |bytes|
    ensures match ParseElements(bytes, p, depth, n)
            case None => true
            case Some(Parsed(elements, next)) =>
              && |elements| == n && PrintableElements(elements, depth)
              && next == p + |PrintElements(elements)| <= |bytes|
    decreases MAX_META_TYPE_DEPTH + 1 - depth, n
  {
    hide UnsignedAt, PrintElementPrefix, PrintDefinition, ParseDefinition, Printable, TrimNul;
    var parsed := ParseElements(bytes, p, depth, n);
    if n > 0 && parsed.Some? {
      ParsedIsPrintable(bytes, p + ELEMENT_PREFIX_BYTES, depth + 1);
      var Parsed(definition, next) := ParseDefinition(bytes, p + ELEMENT_PREFIX_BYTES, depth + 1).value;
      ParsedElementsArePrintable(bytes, next, depth, n - 1);
      TrimNulTrims(bytes[p..p + NAME_BYTES]);
      FieldBound(bytes, p + NAME_BYTES, 4);
      var elements := parsed.value.value;
      PrintableElementPrefix(elements[0]);
      assert elements[1..] == ParseElements(bytes, next, depth, n - 1).value.value;
    }
  }

  /** What the fixed fields say of a parsed definition: id, type code, known flag bits, count, and how many elements. */
  lemma {:induction false} ParsedFields(bytes: seq<byte>, p: nat, depth: nat)
    requires depth <= MAX_META_TYPE_DEPTH + 1 && ParseDefinition(bytes, p, depth).Some?
    ensures depth <= 32 && p + 17 <= |bytes|
    ensures var d := ParseDefinition(bytes, p, depth).value.value;
            && d.id == UnsignedAt(bytes, p, 8)
            && d.flags == UnsignedAt(bytes, p + 9, 4) % 64
            && d.count == UnsignedAt(bytes, p + 13, 4)
            && bytes[p + 8] < 8
            && d.metaType == [MtNone, MtBool, MtInteger, MtFloat, MtString, MtVector, MtArray, MtObject][bytes[p + 8]]
            && |d.elements| == (if bytes[p + 8] == 7 then d.count else if bytes[p + 8] >= 5 then 1 else 0)
            && |d.elements| <= 4096
  {
    hide UnsignedAt, ParseElements, PrintElements, PrintableElements, PrintPrefix;
    FieldBytes(bytes, p + 8);
    ParsedIsPrintable(bytes, p, depth);
  }

  /** What is refused before any element is read: too deep, too short, no such type, or an object of too many fields. */
  lemma {:induction false} RefusedDefinitions(bytes: seq<byte>, p: nat, depth: nat)
    requires depth <= MAX_META_TYPE_DEPTH + 1
    ensures depth > 32 || p + 17 > |bytes| ==> ParseDefinition(bytes, p, depth).None?
    ensures p + 17 <= |bytes| && bytes[p + 8] > 7 ==> ParseDefinition(bytes, p, depth).None?
    ensures p + 17 <= |bytes| && bytes[p + 8] == 7 && UnsignedAt(bytes, p + 13, 4) > 4096 ==>
              ParseDefinition(bytes, p, depth).None?
  {
    hide UnsignedAt, ParseElements;
    FieldBytes(bytes, p + 8);
  }

  /** Scalars need nothing but their seventeen bytes. */
  lemma {:induction false} ScalarsParse(bytes: seq<byte>, p: nat, depth: nat)
    requires depth <= 32 && p + 17 <= |bytes| && bytes[p + 8] <= 4
    ensures ParseDefinition(bytes, p, depth).Some? && ParseDefinition(bytes, p, depth).value.next == p + 17
  {
    hide UnsignedAt;
    FieldBytes(bytes, p + 8);
  }

  lemma {:induction false} PrintableIsShallow(d: Definition, depth: nat)
    requires Printable(d, depth)
    ensures depth + Depth(d) <= MAX_META_TYPE_DEPTH
    decreases d, 1
  {
    PrintableElementsAreShallow(d.elements, depth);
  }

  lemma {:induction false} PrintableElementsAreShallow(elements: seq<Element>, depth: nat)
    requires depth <= MAX_META_TYPE_DEPTH && PrintableElements(elements, depth)
    ensures depth + DepthOfElements(elements) <= MAX_META_TYPE_DEPTH
    decreases elements, 0
  {
    if elements != [] {
      PrintableIsShallow(elements[0].definition, depth + 1);
      PrintableElementsAreShallow(elements[1..], depth);
    }
  }

  /** The definitions the parser can return, over all payloads, are exactly the printable ones. */
  lemma {:induction false} ParserImage(d: Definition)
    ensures Printable(d, 0)
            <==> exists bytes: seq<byte>, next: nat :: ParseDefinition(bytes, 0, 0) == Some(Parsed(d, next))
    ensures Printable(d, 0) ==> Depth(d) <= 32
  {
    hide ParseDefinition, Printable, PrintDefinition;
    if Printable(d, 0) {
      PrintThenParse([], d, [], 0);
      PrintableIsShallow(d, 0);
      var bytes := [] + PrintDefinition(d) + [];
      assert ParseDefinition(bytes, 0, 0) == Some(Parsed(d, |PrintDefinition(d)|));
    }
    if exists bytes: seq<byte>, next: nat :: ParseDefinition(bytes, 0, 0) == Some(Parsed(d, next)) {
      var bytes: seq<byte>, next: nat :| ParseDefinition(bytes, 0, 0) == Some(Parsed(d, next));
      ParsedIsPrintable(bytes, 0, 0);
    }
  }
}
