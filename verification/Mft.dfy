/** `parse_mft_record` of src/fs/ntfs.rs: the walk over the attributes of a file record. */
module Mft {
  import opened Kernel
  import opened LittleEndian
  import opened Tiling
  import RunParser

  datatype Attribute = Attribute(
    code: nat,
    totalSize: nat,
    nonResident: bool,
    name: Option<string>,
    residentData: Option<seq<Byte>>,
    runList: seq<RunParser.Run>,
    dataSize: nat,
    initializedSize: nat)

  datatype Record = Record(flags: nat, sequenceNumber: nat, attributes: seq<Attribute>, bytesInUse: nat)

  /** The parser returns, or stops the kernel by slicing with a start after the end. */
  datatype Outcome = Returns(result: Result<Record>) | Panics

  const MFT_RECORD_SIZE: nat := 1024
  const MFT_RECORD_SIGNATURE: nat := 0x454C4946
  const END_MARKER: nat := 0xFFFF_FFFF

  /** `from_le_bytes` of the `n` bytes at `at` */
  function Number(data: seq<Byte>, at: nat, n: nat): nat
    requires at + n <= |data|
  {
    Value(data[at..at + n])
  }

  // ---------------------------------------------------------------- one attribute

  function Size(data: seq<Byte>, at: nat): nat
    requires at + 24 <= |data|
  {
    Number(data, at + 4, 4)
  }

  /** The walk ends at this offset. */
  predicate Ends(data: seq<Byte>, at: nat) {
    || at + 4 >= |data|
    || Number(data, at, 4) == END_MARKER
    || at + 24 > |data|
    || Size(data, at) == 0
    || at + Size(data, at) > |data|
  }

  predicate NonResident(data: seq<Byte>, at: nat)
    requires at + 24 <= |data|
  {
    data[at + 8] != 0
  }

  /** The header of a non-resident attribute is inside the data. */
  predicate HasRuns(data: seq<Byte>, at: nat)
    requires at + 24 <= |data|
  {
    NonResident(data, at) && at + 0x40 <= |data|
  }

  function RunOffset(data: seq<Byte>, at: nat): nat
    requires at + 0x40 <= |data|
  {
    Number(data, at + 0x20, 2)
  }

  /** The list of runs of the attribute starts after the attribute's end. */
  predicate BadRuns(data: seq<Byte>, at: nat)
    requires !Ends(data, at)
  {
    HasRuns(data, at) && RunOffset(data, at) > Size(data, at)
  }

  predicate Surrogate(u: nat) { 0xD800 <= u < 0xE000 }

  /** The UTF-16 code units of a byte string. */
  function Units(b: seq<Byte>): seq<nat>
    decreases |b|
  {
    if |b| < 2 then [] else [Value(b[..2])] + Units(b[2..])
  }

  /** `char::from_u32` of a code unit: a surrogate is no character */
  function Char(unit: nat): string { if unit < 0x10000 && !Surrogate(unit) then [unit as char] else [] }

  /** The characters of code units. */
  function Text(units: seq<nat>): string {
    if units == [] then []
    else Char(units[0]) + Text(units[1..])
  }

  function Name(data: seq<Byte>, at: nat): Option<string>
    requires !Ends(data, at)
  {
    var n: nat, start := data[at + 9], Number(data, at + 10, 2);
    if n > 0 && start + n * 2 <= Size(data, at) then Some(Text(Units(data[at + start..at + start + n * 2]))) else None
  }

  function ContentSize(data: seq<Byte>, at: nat): nat
    requires at + 24 <= |data|
  {
    Number(data, at + 0x10, 4)
  }

  function ContentStart(data: seq<Byte>, at: nat): nat
    requires at + 24 <= |data|
  {
    at + Number(data, at + 0x14, 2)
  }

  function Content(data: seq<Byte>, at: nat): Option<seq<Byte>>
    requires at + 24 <= |data|
  {
    var start, size := ContentStart(data, at), ContentSize(data, at);
    if start + size <= |data| then Some(data[start..start + size]) else None
  }

  /** The bytes of the attribute from its list of runs on. */
  function RunBytes(data: seq<Byte>, at: nat): seq<Byte>
    requires !Ends(data, at) && HasRuns(data, at) && !BadRuns(data, at)
  {
    data[at + RunOffset(data, at)..at + Size(data, at)]
  }

  function AttributeAt(data: seq<Byte>, at: nat): Attribute
    requires !Ends(data, at) && !BadRuns(data, at)
  {
    var code, size, name := Number(data, at, 4), Size(data, at), Name(data, at);
    if !NonResident(data, at) then
      var content := ContentSize(data, at);
      Attribute(code, size, false, name, Content(data, at), [], content, content)
    else if HasRuns(data, at) then
      Attribute(code, size, true, name, None, RunParser.Parse(RunBytes(data, at)), Number(data, at + 0x30, 8),
                Number(data, at + 0x38, 8))
    else Attribute(code, size, true, name, None, [], 0, 0)
  }

  // ---------------------------------------------------------------- the walk

  /** What the walk does at an offset: it ends, it panics, or it takes an attribute. */
  function LookAt(data: seq<Byte>, at: nat): Look<Attribute> {
    if Ends(data, at) then Stop
    else if BadRuns(data, at) then Fault
    else Item(Size(data, at), AttributeAt(data, at))
  }

  function Scan(data: seq<Byte>): nat -> Look<Attribute> { (at: nat) => LookAt(data, at) }

  lemma ScanBounded(data: seq<Byte>)
    ensures Bounded(Scan(data), |data|)
  {
  }

  predicate IsRecord(data: seq<Byte>) {
    |data| >= MFT_RECORD_SIZE && Number(data, 0, 4) == MFT_RECORD_SIGNATURE
  }

  function AttributesAt(data: seq<Byte>): nat
    requires IsRecord(data)
  {
    Number(data, 0x14, 2)
  }

  function RecordOf(data: seq<Byte>, attributes: seq<Attribute>): Record
    requires IsRecord(data)
  {
    Record(Number(data, 0x16, 2), Number(data, 0x10, 2), attributes, Number(data, 0x18, 4))
  }

  ghost function Attributes(data: seq<Byte>, at: nat): Option<seq<Attribute>> {
    ScanBounded(data);
    Walk(Scan(data), |data|, at)
  }

  /** `parse_mft_record` */
  ghost function ParseRecord(data: seq<Byte>): Outcome {
    if !IsRecord(data) then Returns(Err(IoError))
    else match Attributes(data, AttributesAt(data))
      case None => Panics
      case Some(attributes) => Returns(Ok(RecordOf(data, attributes)))
  }

  // ---------------------------------------------------------------- where attributes are

  /** There is an attribute at `at`, and its list of runs starts after its end. */
  predicate Faulty(data: seq<Byte>, at: nat) { !Ends(data, at) && BadRuns(data, at) }

  /** The offsets that the sizes lead to. */
  ghost function Offsets(data: seq<Byte>, at: nat): seq<nat> {
    ScanBounded(data);
    Starts(Scan(data), |data|, at)
  }

  /** Parsing panics if and only if one of the attributes that the sizes lead to is non-resident, with its header inside
      the data and its list of runs starting after its end. */
  lemma PanicsIff(data: seq<Byte>)
    ensures ParseRecord(data).Panics? <==>
      IsRecord(data) && exists s | s in Offsets(data, AttributesAt(data)) :: Faulty(data, s)
  {
    if IsRecord(data) {
      ScanBounded(data);
      WalkFailsIff(Scan(data), |data|, AttributesAt(data));
      forall s: nat ensures Scan(data)(s).Fault? <==> Faulty(data, s) {}
    }
  }

  function TotalSize(): Attribute -> nat { (a: Attribute) => a.totalSize }

  lemma ScanSized(data: seq<Byte>)
    ensures Sized(Scan(data), TotalSize())
  {
  }

  /** Attribute `k` is the one at `s`, with its bytes inside the data; after the last one the walk ends. */
  predicate Stands(data: seq<Byte>, s: nat, attributes: seq<Attribute>, k: nat)
    requires k <= |attributes|
  {
    if k == |attributes| then Ends(data, s)
    else
      && !Ends(data, s) && !BadRuns(data, s) && attributes[k] == AttributeAt(data, s)
      && 0 < attributes[k].totalSize <= |data| - s
  }

  lemma LookMeaning(data: seq<Byte>, s: nat, attributes: seq<Attribute>, k: nat)
    requires k <= |attributes|
    ensures LookAt(data, s) == ItemOrStop(attributes, TotalSize(), k) <==> Stands(data, s, attributes, k)
  {
  }

  /** Attribute `k` stands where the sizes of those before it end. */
  ghost predicate StandsInPlace(data: seq<Byte>, at: nat, attributes: seq<Attribute>, k: nat)
    requires k <= |attributes|
  {
    Stands(data, at + Span(attributes, TotalSize(), k), attributes, k)
  }

  /** The attributes stand one after the other from `at` on, each where the sizes of those before it end. */
  ghost predicate Tile(data: seq<Byte>, at: nat, attributes: seq<Attribute>) {
    forall k | 0 <= k <= |attributes| :: StandsInPlace(data, at, attributes, k)
  }

  lemma ScanMeaning(data: seq<Byte>, at: nat, attributes: seq<Attribute>, k: nat)
    requires k <= |attributes|
    ensures Scan(data)(at + Span(attributes, TotalSize(), k)) == ItemOrStop(attributes, TotalSize(), k)
      <==> StandsInPlace(data, at, attributes, k)
  {
    LookMeaning(data, at + Span(attributes, TotalSize(), k), attributes, k);
  }

  lemma LaidIsTile(data: seq<Byte>, at: nat, attributes: seq<Attribute>)
    ensures Laid(Scan(data), TotalSize(), at, attributes) <==> Tile(data, at, attributes)
  {
    forall k | 0 <= k <= |attributes|
      ensures Scan(data)(at + Span(attributes, TotalSize(), k)) == ItemOrStop(attributes, TotalSize(), k)
        <==> StandsInPlace(data, at, attributes, k)
    {
      ScanMeaning(data, at, attributes, k);
    }
  }

  lemma FoundIffScanned(data: seq<Byte>, at: nat, attributes: seq<Attribute>)
    ensures Attributes(data, at) == Some(attributes) <==> Laid(Scan(data), TotalSize(), at, attributes)
  {
    ScanBounded(data);
    ScanSized(data);
    FoundIffLaid(Scan(data), |data|, TotalSize(), at, attributes);
  }

  /** The attributes from `at` on are found if and only if they tile the data without gap or overlap. */
  lemma AttributesTile(data: seq<Byte>, at: nat, attributes: seq<Attribute>)
    ensures Attributes(data, at) == Some(attributes) <==> Tile(data, at, attributes)
  {
    FoundIffScanned(data, at, attributes);
    LaidIsTile(data, at, attributes);
  }

  // ---------------------------------------------------------------- the parser's loops

  /** The name in the code units from number `i` on. */
  ghost function TextFrom(b: seq<Byte>, i: nat): string
    requires 2 * i <= |b|
  {
    Text(Units(b[2 * i..]))
  }

  lemma TextStep(b: seq<Byte>, i: nat)
    requires 2 * i + 2 <= |b|
    ensures TextFrom(b, i) == Char(Value(b[2 * i..2 * i + 2])) + TextFrom(b, i + 1)
  {
    var c := b[2 * i..];
    assert c[..2] == b[2 * i..2 * i + 2] && c[2..] == b[2 * (i + 1)..];
    assert Units(c)[1..] == Units(c[2..]);
  }

  lemma UnitAt(data: seq<Byte>, start: nat, n: nat, i: nat, b: seq<Byte>)
    requires start + n * 2 <= |data| && i < n && b == data[start..start + n * 2]
    ensures Number(data, start + 2 * i, 2) == Value(b[2 * i..2 * i + 2])
  {
    SliceOfSlice(data, start, n * 2, 2 * i, 2);
  }

  lemma Appended(a: string, b: string, c: string)
    ensures a + (b + c) == a + b + c
  {
  }

  /** The loop over the characters of a name */
  method ReadName(data: seq<Byte>, start: nat, n: nat) returns (name: string)
    requires start + 2 * n <= |data|
    ensures name == Text(Units(data[start..start + n * 2]))
  {
    name := [];
    ghost var b := data[start..start + n * 2];
    assert b[2 * 0..] == b;
    for i := 0 to n
      invariant name + TextFrom(b, i) == TextFrom(b, 0)
    {
      TextStep(b, i);
      UnitAt(data, start, n, i, b);
      var text := Char(Number(data, start + 2 * i, 2));
      Appended(name, text, TextFrom(b, i + 1));
      name := name + text;
    }
  }

  method ReadResident(data: seq<Byte>, offset: nat) returns (content: Option<seq<Byte>>, size: nat)
    requires offset + 24 <= |data|
    ensures content == Content(data, offset) && size == ContentSize(data, offset)
  {
    size := Number(data, offset + 0x10, 4);
    var start := Number(data, offset + 0x14, 2);
    content := None;
    if offset + start + size <= |data| { content := Some(data[offset + start..offset + start + size]); }
  }

  method ReadAttributeName(data: seq<Byte>, offset: nat, size: nat) returns (name: Option<string>)
    requires !Ends(data, offset) && size == Size(data, offset)
    ensures name == Name(data, offset)
  {
    var length: nat, start := data[offset + 9], Number(data, offset + 10, 2);
    if length == 0 || start + length * 2 > size { return None; }
    var text := ReadName(data, offset + start, length);
    return Some(text);
  }

  method ReadNonResident(data: seq<Byte>, offset: nat, blank: Attribute) returns (r: Look<Attribute>)
    requires !Ends(data, offset) && NonResident(data, offset)
    requires blank == Attribute(Number(data, offset, 4), Size(data, offset), true, Name(data, offset), None, [], 0, 0)
    ensures r == LookAt(data, offset)
  {
    var attribute, size := blank, blank.totalSize;
    if offset + 0x40 <= |data| {
      attribute := attribute.(
        dataSize := Number(data, offset + 0x30, 8), initializedSize := Number(data, offset + 0x38, 8));
      var start := Number(data, offset + 0x20, 2);
      if start > size { return Fault; }
      var runs := RunParser.ParseRunList(data[offset + start..offset + size]);
      attribute := attribute.(runList := runs);
    }
    return Item(size, attribute);
  }

  /** One round of the loop of `parse_mft_record` */
  method ReadAttribute(data: seq<Byte>, offset: nat) returns (r: Look<Attribute>)
    ensures r == LookAt(data, offset)
  {
    if offset + 4 >= |data| { return Stop; }
    var code := Number(data, offset, 4);
    if code == END_MARKER || offset + 24 > |data| { return Stop; }
    var size := Number(data, offset + 4, 4);
    if size == 0 || offset + size > |data| { return Stop; }
    var name := ReadAttributeName(data, offset, size);
    if data[offset + 8] != 0 {
      r := ReadNonResident(data, offset, Attribute(code, size, true, name, None, [], 0, 0));
    } else {
      var content, contentSize := ReadResident(data, offset);
      r := Item(size, Attribute(code, size, false, name, content, [], contentSize, contentSize));
    }
  }

  ghost function Prepend(a: seq<Attribute>, b: Option<seq<Attribute>>): Option<seq<Attribute>> {
    if b.None? then None else Some(a + b.value)
  }

  lemma AttributesStep(data: seq<Byte>, at: nat, look: Look<Attribute>)
    requires look == LookAt(data, at)
    ensures look.Stop? ==> Attributes(data, at) == Some([])
    ensures look.Fault? ==> Attributes(data, at) == None
    ensures look.Item? ==> 0 < look.size <= |data| - at
    ensures look.Item? ==> Attributes(data, at) == Prepend([look.value], Attributes(data, at + look.size))
  {
    assert look == Scan(data)(at);
  }

  lemma PrependTwice(a: seq<Attribute>, x: Attribute, b: Option<seq<Attribute>>)
    ensures Prepend(a, Prepend([x], b)) == Prepend(a + [x], b)
  {
    if b.Some? { assert a + ([x] + b.value) == a + [x] + b.value; }
  }

  lemma PrependNothing(a: seq<Attribute>, b: Option<seq<Attribute>>)
    ensures Prepend([], b) == b && Prepend(a, Some([])) == Some(a)
  {
    assert a + [] == a;
    if b.Some? { assert [] + b.value == b.value; }
  }

  /** The loop of `parse_mft_record` */
  method ReadAttributes(data: seq<Byte>, start: nat) returns (r: Option<seq<Attribute>>)
    ensures r == Attributes(data, start)
  {
    var attributes := [];
    var offset := start;
    PrependNothing([], Attributes(data, start));
    var look := ReadAttribute(data, offset);
    while look.Item?
      invariant look == LookAt(data, offset)
      invariant Prepend(attributes, Attributes(data, offset)) == Attributes(data, start)
      decreases |data| - offset
    {
      AttributesStep(data, offset, look);
      PrependTwice(attributes, look.value, Attributes(data, offset + look.size));
      attributes := attributes + [look.value];
      offset := offset + look.size;
      look := ReadAttribute(data, offset);
    }
    AttributesStep(data, offset, look);
    PrependNothing(attributes, None);
    r := if look.Stop? then Some(attributes) else None;
  }

  /** `parse_mft_record` */
  method ParseMftRecord(data: seq<Byte>) returns (r: Outcome)
    ensures r == ParseRecord(data)
  {
    if |data| < MFT_RECORD_SIZE || Number(data, 0, 4) != MFT_RECORD_SIGNATURE { return Returns(Err(IoError)); }
    var attributes := ReadAttributes(data, Number(data, 0x14, 2));
    if attributes.None? { return Panics; }
    return Returns(Ok(Record(Number(data, 0x16, 2), Number(data, 0x10, 2), attributes.value, Number(data, 0x18, 4))));
  }
}
