/** File records as a format: what `parse_mft_record` of src/fs/ntfs.rs makes of a record laid out byte by byte. */
module MftFormat {
  import opened Kernel
  import opened Bits
  import opened LittleEndian
  import opened Mft
  import opened Tiling
  import RunParser

  // ---------------------------------------------------------------- an attribute by itself

  /** The bytes of one attribute, all of whose parts lie inside it. */
  predicate SelfContained(img: seq<Byte>) {
    && |img| >= 24 && Number(img, 0, 4) != END_MARKER && Size(img, 0) == |img|
    && if NonResident(img, 0) then |img| >= 0x40 && RunOffset(img, 0) <= |img|
       else ContentStart(img, 0) + ContentSize(img, 0) <= |img|
  }

  lemma SelfContainedStands(img: seq<Byte>)
    requires SelfContained(img)
    ensures !Ends(img, 0) && !BadRuns(img, 0)
  {
  }

  /** The bytes `img` stand at `at`. */
  predicate Window(data: seq<Byte>, at: nat, img: seq<Byte>) { at + |img| <= |data| && data[at..at + |img|] == img }

  lemma SameNumber(data: seq<Byte>, at: nat, img: seq<Byte>, i: nat, n: nat)
    requires Window(data, at, img) && i + n <= |img|
    ensures data[at + i..at + i + n] == img[i..i + n] && Number(data, at + i, n) == Number(img, i, n)
  {
    SliceOfSlice(data, at, |img|, i, n);
  }

  lemma SameHeader(data: seq<Byte>, at: nat, img: seq<Byte>)
    requires Window(data, at, img) && SelfContained(img)
    ensures !Ends(data, at) && Number(data, at, 4) == Number(img, 0, 4) && Size(data, at) == |img|
    ensures data[at + 8] == img[8] && data[at + 9] == img[9]
  {
    SameNumber(data, at, img, 0, 4);
    SameNumber(data, at, img, 4, 4);
    assert img[8] == data[at..at + |img|][8] && img[9] == data[at..at + |img|][9];
  }

  lemma SameName(data: seq<Byte>, at: nat, img: seq<Byte>)
    requires Window(data, at, img) && SelfContained(img) && !Ends(data, at) && !Ends(img, 0)
    ensures Name(data, at) == Name(img, 0)
  {
    SameHeader(data, at, img);
    SameNumber(data, at, img, 10, 2);
    var n: nat, start := img[9], Number(img, 10, 2);
    if start + n * 2 <= |img| { SameNumber(data, at, img, start, n * 2); }
  }

  lemma LocalResident(data: seq<Byte>, at: nat, img: seq<Byte>)
    requires Window(data, at, img) && SelfContained(img) && !Ends(data, at) && !Ends(img, 0) && img[8] == 0
    ensures !BadRuns(data, at) && !BadRuns(img, 0) && AttributeAt(data, at) == AttributeAt(img, 0)
  {
    SameHeader(data, at, img);
    SameName(data, at, img);
    SameNumber(data, at, img, 0x10, 4);
    SameNumber(data, at, img, 0x14, 2);
    SameNumber(data, at, img, ContentStart(img, 0), ContentSize(img, 0));
  }

  lemma SameRuns(data: seq<Byte>, at: nat, img: seq<Byte>, start: nat)
    requires Window(data, at, img) && |img| >= 0x40 && start == RunOffset(img, 0) <= |img|
    ensures RunOffset(data, at) == start && data[at + start..at + |img|] == img[start..]
    ensures Number(data, at + 0x30, 8) == Number(img, 0x30, 8) && Number(data, at + 0x38, 8) == Number(img, 0x38, 8)
  {
    SameNumber(data, at, img, 0x20, 2);
    SameNumber(data, at, img, 0x30, 8);
    SameNumber(data, at, img, 0x38, 8);
    SameNumber(data, at, img, start, |img| - start);
  }

  lemma SameNonResident(data: seq<Byte>, at: nat, img: seq<Byte>)
    requires !Ends(data, at) && !Ends(img, 0) && HasRuns(data, at) && HasRuns(img, 0)
    requires !BadRuns(data, at) && !BadRuns(img, 0) && RunBytes(data, at) == RunBytes(img, 0)
    requires Number(data, at, 4) == Number(img, 0, 4) && Size(data, at) == Size(img, 0)
    requires Name(data, at) == Name(img, 0)
    requires Number(data, at + 0x30, 8) == Number(img, 0x30, 8) && Number(data, at + 0x38, 8) == Number(img, 0x38, 8)
    ensures AttributeAt(data, at) == AttributeAt(img, 0)
  {
  }

  lemma LocalNonResident(data: seq<Byte>, at: nat, img: seq<Byte>)
    requires Window(data, at, img) && SelfContained(img) && !Ends(data, at) && !Ends(img, 0) && img[8] != 0
    ensures !BadRuns(data, at) && !BadRuns(img, 0) && AttributeAt(data, at) == AttributeAt(img, 0)
  {
    SameHeader(data, at, img);
    SameName(data, at, img);
    SameRuns(data, at, img, RunOffset(img, 0));
    assert RunBytes(data, at) == RunBytes(img, 0);
    SameNonResident(data, at, img);
  }

  /** A self-contained attribute is parsed the same wherever it stands and whatever is around it. */
  lemma Local(data: seq<Byte>, at: nat, img: seq<Byte>)
    requires Window(data, at, img) && SelfContained(img)
    ensures !Ends(data, at) && !BadRuns(data, at) && Size(data, at) == |img|
    ensures !Ends(img, 0) && !BadRuns(img, 0) && AttributeAt(data, at) == AttributeAt(img, 0)
  {
    SelfContainedStands(img);
    SameHeader(data, at, img);
    if img[8] == 0 {
      LocalResident(data, at, img);
    } else {
      LocalNonResident(data, at, img);
    }
  }

  // ---------------------------------------------------------------- attributes described

  /** `x` is written as `n` bytes at `at`. */
  predicate Written(img: seq<Byte>, at: nat, x: nat, n: nat) { x < Pow2(8 * n) && Window(img, at, Digits(x, n)) }

  lemma WrittenNumber(img: seq<Byte>, at: nat, x: nat, n: nat)
    requires Written(img, at, x, n)
    ensures at + n <= |img| && Number(img, at, n) == x
  {
    ValueOfDigits(x, n);
  }

  function UnitBytes(units: seq<nat>): (b: seq<Byte>)
    ensures |b| == 2 * |units|
  {
    if units == [] then [] else Digits(units[0], 2) + UnitBytes(units[1..])
  }

  lemma UnitWidth()
    ensures Pow2(16) == 0x10000
  {
    Pow2Plus8(0);
    Pow2Plus8(8);
  }

  lemma {:induction false} UnitsOfBytes(units: seq<nat>)
    requires forall u | u in units :: u < 0x10000
    ensures Units(UnitBytes(units)) == units
  {
    if units != [] {
      var b := UnitBytes(units);
      UnitWidth();
      assert units[0] in units && forall u | u in units[1..] :: u in units;
      ValueOfDigits(units[0], 2);
      UnitsOfBytes(units[1..]);
      assert b[..2] == Digits(units[0], 2) && b[2..] == UnitBytes(units[1..]);
    }
  }

  /** Code units spell a text: its characters are the units that are no surrogates, in their order. */
  predicate Spells(units: seq<nat>, text: string) {
    if units == [] then text == ""
    else if Surrogate(units[0]) then Spells(units[1..], text)
    else text != "" && text[0] as int == units[0] && Spells(units[1..], text[1..])
  }

  /** What units are read as is what they spell, and nothing else. */
  lemma {:induction false} TextIffSpelled(units: seq<nat>, text: string)
    requires forall u | u in units :: u < 0x10000
    ensures text == Text(units) <==> Spells(units, text)
  {
    if units != [] {
      assert units[0] in units && forall u | u in units[1..] :: u in units;
      if Surrogate(units[0]) {
        TextIffSpelled(units[1..], text);
      } else if text != "" {
        TextIffSpelled(units[1..], text[1..]);
        assert text == [text[0]] + text[1..];
      }
    }
  }

  /** Without surrogates every unit is the code of one character. */
  lemma {:induction false} TextPlain(units: seq<nat>)
    requires forall u | u in units :: u < 0x10000 && !Surrogate(u)
    ensures |Text(units)| == |units| && forall i | 0 <= i < |units| :: Text(units)[i] as int == units[i]
  {
    if units != [] {
      assert units[0] in units && forall u | u in units[1..] :: u in units;
      TextPlain(units[1..]);
    }
  }

  /** Units are read one by one: those of two names, one after the other, as the one text after the other. */
  lemma {:induction false} TextConcat(a: seq<nat>, b: seq<nat>)
    ensures Text(a + b) == Text(a) + Text(b)
  {
    if a == [] {
      assert a + b == b;
    } else {
      assert (a + b)[1..] == a[1..] + b;
      TextConcat(a[1..], b);
    }
  }

  lemma SurrogateAlone(u: nat)
    requires Surrogate(u)
    ensures Text([u]) == ""
  {
    assert [u][1..] == [];
  }

  /** A surrogate adds nothing, wherever it stands. */
  lemma TextWithoutSurrogate(a: seq<nat>, u: nat, b: seq<nat>)
    requires Surrogate(u)
    ensures Text(a + [u] + b) == Text(a + b)
  {
    TextConcat(a + [u], b);
    TextConcat(a, [u]);
    TextConcat(a, b);
    SurrogateAlone(u);
  }

  /** What an attribute is to say: its code and name, and its content or its runs. */
  datatype Body =
    | Resident(content: seq<Byte>)
    | Runs(plans: seq<RunParser.Plan>, dataSize: nat, initializedSize: nat)

  datatype Description = Description(code: nat, name: Option<string>, body: Body)

  function AttributeOf(d: Description, size: nat): Attribute {
    match d.body
    case Resident(content) => Attribute(d.code, size, false, d.name, Some(content), [], |content|, |content|)
    case Runs(plans, dataSize, initializedSize) =>
      Attribute(d.code, size, true, d.name, None, RunParser.RunsOf(plans), dataSize, initializedSize)
  }

  /** `n` code units at `nameAt` spell a name; there is none if there are no units or not all of them are inside. */
  predicate NameLayout(img: seq<Byte>, name: Option<string>, units: seq<nat>, n: nat, nameAt: nat) {
    match name
    case None => n == 0 || nameAt + 2 * n > |img|
    case Some(text) =>
      && 0 < n == |units| && Window(img, nameAt, UnitBytes(units)) && (forall u | u in units :: u < 0x10000)
      && Spells(units, text)
  }

  /** The first part of the bytes of an attribute; its name is written in code units at `nameAt`. */
  predicate HeaderLayout(img: seq<Byte>, code: nat, name: Option<string>, units: seq<nat>, nameAt: nat) {
    && |img| >= 24 && code != END_MARKER && Written(img, 0, code, 4) && Written(img, 4, |img|, 4)
    && Written(img, 10, nameAt, 2) && NameLayout(img, name, units, img[9], nameAt)
  }

  predicate ResidentLayout(img: seq<Byte>, content: seq<Byte>, at: nat) {
    && |img| >= 24 && img[8] == 0
    && Written(img, 0x10, |content|, 4) && Written(img, 0x14, at, 2) && Window(img, at, content)
  }

  /** The runs stand from `at` to the end, with anything after them that is not a complete run. */
  predicate RunsLayout(img: seq<Byte>, plans: seq<RunParser.Plan>, at: nat, dataSize: nat, initializedSize: nat) {
    && |img| >= 0x40 && img[8] != 0 && Written(img, 0x20, at, 2) && at <= |img|
    && Written(img, 0x30, dataSize, 8) && Written(img, 0x38, initializedSize, 8)
    && (forall p | p in plans :: RunParser.Fits(p))
    && var b := RunParser.Join(RunParser.EncodeAll(plans));
       b <= img[at..] && RunParser.Stops(img[at + |b|..])
  }

  /** The bytes `img` say what `d` describes. */
  predicate Layout(img: seq<Byte>, d: Description, units: seq<nat>, nameAt: nat, at: nat) {
    && HeaderLayout(img, d.code, d.name, units, nameAt)
    && match d.body
       case Resident(content) => ResidentLayout(img, content, at)
       case Runs(plans, dataSize, initializedSize) => RunsLayout(img, plans, at, dataSize, initializedSize)
  }

  lemma HeaderParsed(img: seq<Byte>, code: nat, name: Option<string>, units: seq<nat>, nameAt: nat)
    requires HeaderLayout(img, code, name, units, nameAt)
    ensures !Ends(img, 0) && Number(img, 0, 4) == code && Size(img, 0) == |img| && Name(img, 0) == name
  {
    WrittenNumber(img, 0, code, 4);
    WrittenNumber(img, 4, |img|, 4);
    WrittenNumber(img, 10, nameAt, 2);
    if name.Some? {
      UnitsOfBytes(units);
      TextIffSpelled(units, name.value);
    }
  }

  lemma ResidentParsed(img: seq<Byte>, content: seq<Byte>, at: nat)
    requires ResidentLayout(img, content, at)
    ensures ContentStart(img, 0) == at && ContentSize(img, 0) == |content| && Content(img, 0) == Some(content)
  {
    WrittenNumber(img, 0x10, |content|, 4);
    WrittenNumber(img, 0x14, at, 2);
  }

  lemma RunsParsed(img: seq<Byte>, plans: seq<RunParser.Plan>, at: nat, dataSize: nat, initializedSize: nat)
    requires RunsLayout(img, plans, at, dataSize, initializedSize)
    ensures RunOffset(img, 0) == at && RunParser.Parse(img[at..]) == RunParser.RunsOf(plans)
    ensures Number(img, 0x30, 8) == dataSize && Number(img, 0x38, 8) == initializedSize
  {
    WrittenNumber(img, 0x20, at, 2);
    WrittenNumber(img, 0x30, dataSize, 8);
    WrittenNumber(img, 0x38, initializedSize, 8);
    var b := RunParser.Join(RunParser.EncodeAll(plans));
    assert img[at..] == b + img[at + |b|..];
    RunParser.RoundTrip(plans, img[at + |b|..]);
  }

  lemma ResidentAttribute(img: seq<Byte>)
    requires !Ends(img, 0) && img[8] == 0
    ensures !BadRuns(img, 0)
    ensures AttributeAt(img, 0) == Attribute(Number(img, 0, 4), Size(img, 0), false, Name(img, 0), Content(img, 0), [],
                                             ContentSize(img, 0), ContentSize(img, 0))
  {
  }

  lemma RunsAttribute(img: seq<Byte>, at: nat)
    requires !Ends(img, 0) && |img| >= 0x40 && img[8] != 0 && RunOffset(img, 0) == at <= Size(img, 0) == |img|
    ensures !BadRuns(img, 0)
    ensures AttributeAt(img, 0) == Attribute(Number(img, 0, 4), Size(img, 0), true, Name(img, 0), None,
                                             RunParser.Parse(img[at..]), Number(img, 0x30, 8), Number(img, 0x38, 8))
  {
    assert img[at..|img|] == img[at..];
  }

  lemma ResidentLayoutParsed(img: seq<Byte>, d: Description, units: seq<nat>, nameAt: nat, at: nat)
    requires Layout(img, d, units, nameAt, at) && d.body.Resident?
    ensures SelfContained(img) && !Ends(img, 0) && !BadRuns(img, 0) && AttributeAt(img, 0) == AttributeOf(d, |img|)
  {
    HeaderParsed(img, d.code, d.name, units, nameAt);
    ResidentParsed(img, d.body.content, at);
    ResidentAttribute(img);
  }

  lemma RunsLayoutParsed(img: seq<Byte>, d: Description, units: seq<nat>, nameAt: nat, at: nat)
    requires Layout(img, d, units, nameAt, at) && d.body.Runs?
    ensures SelfContained(img) && !Ends(img, 0) && !BadRuns(img, 0) && AttributeAt(img, 0) == AttributeOf(d, |img|)
  {
    HeaderParsed(img, d.code, d.name, units, nameAt);
    RunsParsed(img, d.body.plans, at, d.body.dataSize, d.body.initializedSize);
    RunsAttribute(img, at);
  }

  /** An attribute laid out as described is self-contained and parsed as described. */
  lemma LayoutParsed(img: seq<Byte>, d: Description, units: seq<nat>, nameAt: nat, at: nat)
    requires Layout(img, d, units, nameAt, at)
    ensures SelfContained(img) && !Ends(img, 0) && !BadRuns(img, 0) && AttributeAt(img, 0) == AttributeOf(d, |img|)
  {
    if d.body.Resident? {
      ResidentLayoutParsed(img, d, units, nameAt, at);
    } else {
      RunsLayoutParsed(img, d, units, nameAt, at);
    }
  }

  // ---------------------------------------------------------------- records described

  /** One attribute of a record: its bytes, what they say, and where in them its parts stand. */
  datatype Part = Part(img: seq<Byte>, says: Description, units: seq<nat>, nameAt: nat, at: nat)

  predicate GoodPart(p: Part) { Layout(p.img, p.says, p.units, p.nameAt, p.at) }

  function Described(parts: seq<Part>): seq<Attribute> {
    seq(|parts|, i requires 0 <= i < |parts| => AttributeOf(parts[i].says, |parts[i].img|))
  }

  /** Where part `k` stands when the first one stands at `at`. */
  function PartAt(at: nat, parts: seq<Part>, k: nat): nat
    requires k <= |parts|
  {
    at + Span(Described(parts), TotalSize(), k)
  }

  lemma PartParsed(data: seq<Byte>, at: nat, p: Part)
    requires GoodPart(p) && Window(data, at, p.img)
    ensures LookAt(data, at) == Item(|p.img|, AttributeOf(p.says, |p.img|))
  {
    LayoutParsed(p.img, p.says, p.units, p.nameAt, p.at);
    Local(data, at, p.img);
  }

  const MARKER: seq<Byte> := [0xFF, 0xFF, 0xFF, 0xFF]

  predicate BadSize(data: seq<Byte>, at: nat, size: nat) {
    Written(data, at + 4, size, 4) && (size == 0 || at + size > |data|)
  }

  /** No attribute starts at `at`: the marker stands there, whatever follows it, or there are too few bytes for a
      header, or the size said is zero or more than the bytes that are left. */
  ghost predicate Closed(data: seq<Byte>, at: nat) {
    || Window(data, at, MARKER) || at + 24 > |data|
    || exists size :: BadSize(data, at, size)
  }

  lemma FourBytes()
    ensures Pow2(8 * 4) == 0x1_0000_0000
  {
    UnitWidth();
    Pow2Add(16, 16);
  }

  lemma MarkerNumber()
    ensures Digits(END_MARKER, 4) == MARKER
  {
    assert Digits(0xFF, 1) == [0xFF];
    assert Digits(0xFFFF, 2) == [0xFF] + Digits(0xFF, 1);
    assert Digits(0xFF_FFFF, 3) == [0xFF] + Digits(0xFFFF, 2);
    assert Digits(0xFFFF_FFFF, 4) == [0xFF] + Digits(0xFF_FFFF, 3);
  }

  lemma NumberWritten(data: seq<Byte>, at: nat, n: nat)
    requires at + n <= |data|
    ensures Written(data, at, Number(data, at, n), n)
  {
    ValueBound(data[at..at + n]);
    DigitsOfValue(data[at..at + n]);
  }

  /** The walk ends exactly where no attribute starts. */
  lemma EndsIffClosed(data: seq<Byte>, at: nat)
    ensures Ends(data, at) <==> Closed(data, at)
  {
    if at + 4 <= |data| {
      MarkerNumber();
      FourBytes();
      NumberWritten(data, at, 4);
      if Window(data, at, MARKER) { WrittenNumber(data, at, END_MARKER, 4); }
    }
    if at + 24 <= |data| {
      NumberWritten(data, at + 4, 4);
      forall size | BadSize(data, at, size) ensures size == Size(data, at) { WrittenNumber(data, at + 4, size, 4); }
      assert BadSize(data, at, Size(data, at)) <==> Size(data, at) == 0 || at + Size(data, at) > |data|;
    }
  }

  /** The parts, each laid out as it is described, stand one after the other from `at` on, and no attribute starts after
      them. */
  ghost predicate InOrder(data: seq<Byte>, at: nat, parts: seq<Part>) {
    && (forall p | p in parts :: GoodPart(p))
    && (forall k | 0 <= k < |parts| :: Window(data, PartAt(at, parts, k), parts[k].img))
    && Closed(data, PartAt(at, parts, |parts|))
  }

  lemma PartFound(data: seq<Byte>, s: nat, parts: seq<Part>, k: nat)
    requires k < |parts| && GoodPart(parts[k]) && Window(data, s, parts[k].img)
    ensures Scan(data)(s) == ItemOrStop(Described(parts), TotalSize(), k)
  {
    PartParsed(data, s, parts[k]);
  }

  lemma EndFound(data: seq<Byte>, s: nat, parts: seq<Part>)
    requires Closed(data, s)
    ensures Scan(data)(s) == ItemOrStop(Described(parts), TotalSize(), |parts|)
  {
    EndsIffClosed(data, s);
  }

  /** The walk finds attribute `k` where the sizes of those before it end. */
  ghost predicate FoundAt(data: seq<Byte>, at: nat, values: seq<Attribute>, k: nat)
    requires k <= |values|
  {
    Scan(data)(at + Span(values, TotalSize(), k)) == ItemOrStop(values, TotalSize(), k)
  }

  lemma PlaceFound(data: seq<Byte>, at: nat, parts: seq<Part>, k: nat)
    requires k <= |parts| && InOrder(data, at, parts)
    ensures FoundAt(data, at, Described(parts), k)
  {
    var s := PartAt(at, parts, k);
    if k < |parts| { PartFound(data, s, parts, k); } else { EndFound(data, s, parts); }
  }

  lemma AllFoundLaid(data: seq<Byte>, at: nat, values: seq<Attribute>)
    requires forall k | 0 <= k <= |values| :: FoundAt(data, at, values, k)
    ensures Laid(Scan(data), TotalSize(), at, values)
  {
    forall k | 0 <= k <= |values|
      ensures Scan(data)(at + Span(values, TotalSize(), k)) == ItemOrStop(values, TotalSize(), k)
    {
      assert FoundAt(data, at, values, k);
    }
  }

  lemma InOrderLaid(data: seq<Byte>, at: nat, parts: seq<Part>)
    requires InOrder(data, at, parts)
    ensures Laid(Scan(data), TotalSize(), at, Described(parts))
  {
    forall k | 0 <= k <= |parts| ensures FoundAt(data, at, Described(parts), k) { PlaceFound(data, at, parts, k); }
    AllFoundLaid(data, at, Described(parts));
  }

  /** Every record of at least 1024 bytes with the signature, whose attributes, resident or not, named or not, are laid
      out one after the other, is parsed as exactly the attributes described. */
  lemma RecordRoundTrip(data: seq<Byte>, at: nat, flags: nat, sequenceNumber: nat, bytesInUse: nat, parts: seq<Part>)
    requires |data| >= MFT_RECORD_SIZE && Written(data, 0, MFT_RECORD_SIGNATURE, 4)
    requires Written(data, 0x10, sequenceNumber, 2) && Written(data, 0x14, at, 2) && Written(data, 0x16, flags, 2)
    requires Written(data, 0x18, bytesInUse, 4) && InOrder(data, at, parts)
    ensures ParseRecord(data) == Returns(Ok(Record(flags, sequenceNumber, Described(parts), bytesInUse)))
  {
    WrittenNumber(data, 0, MFT_RECORD_SIGNATURE, 4);
    WrittenNumber(data, 0x10, sequenceNumber, 2);
    WrittenNumber(data, 0x14, at, 2);
    WrittenNumber(data, 0x16, flags, 2);
    WrittenNumber(data, 0x18, bytesInUse, 4);
    InOrderLaid(data, at, parts);
    FoundIffScanned(data, at, Described(parts));
  }
}
