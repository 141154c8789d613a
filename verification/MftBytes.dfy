/** What `parse_mft_record` of src/fs/ntfs.rs returns, said by the bytes of any record, well laid out or not. */
module MftBytes {
  import opened Kernel
  import opened LittleEndian
  import opened Mft
  import opened MftFormat
  import opened Tiling
  import RunParser

  // ---------------------------------------------------------------- one attribute

  /** The bytes of the attribute at `at` name it. */
  predicate NameSaid(data: seq<Byte>, at: nat, size: nat, name: Option<string>, units: seq<nat>, nameAt: nat)
    requires 24 <= |data| - at && size <= |data| - at
  {
    Written(data, at + 10, nameAt, 2) && NameLayout(data[at..at + size], name, units, data[at + 9], nameAt)
  }

  /** The attribute is resident; its content is said to be at `contentAt` and is given if all of it is in the data. */
  predicate ContentSaid(data: seq<Byte>, at: nat, a: Attribute, contentAt: nat)
    requires 24 <= |data| - at
  {
    && data[at + 8] == 0 && !a.nonResident && a.runList == [] && a.initializedSize == a.dataSize
    && Written(data, at + 0x10, a.dataSize, 4) && Written(data, at + 0x14, contentAt, 2)
    && match a.residentData
       case None => at + contentAt + a.dataSize > |data|
       case Some(content) => |content| == a.dataSize && Window(data, at + contentAt, content)
  }

  /** The attribute is not resident; its sizes and runs are given if the header that holds them is in the data. */
  predicate RunsSaid(data: seq<Byte>, at: nat, a: Attribute, runAt: nat)
    requires 24 <= |data| - at && a.totalSize <= |data| - at
  {
    && data[at + 8] != 0 && a.nonResident && a.residentData == None
    && if at + 0x40 <= |data| then
         && Written(data, at + 0x20, runAt, 2) && runAt <= a.totalSize
         && a.runList == RunParser.Parse(data[at + runAt..at + a.totalSize])
         && Written(data, at + 0x30, a.dataSize, 8) && Written(data, at + 0x38, a.initializedSize, 8)
       else a.runList == [] && a.dataSize == a.initializedSize == 0
  }

  /** The bytes at `at` say what `a` says. */
  predicate Said(data: seq<Byte>, at: nat, a: Attribute, units: seq<nat>, nameAt: nat, partAt: nat) {
    && 24 <= |data| - at && !Window(data, at, MARKER)
    && Written(data, at, a.code, 4) && Written(data, at + 4, a.totalSize, 4) && 0 < a.totalSize <= |data| - at
    && NameSaid(data, at, a.totalSize, a.name, units, nameAt)
    && (ContentSaid(data, at, a, partAt) || RunsSaid(data, at, a, partAt))
  }

  ghost predicate SaidSomehow(data: seq<Byte>, at: nat, a: Attribute) {
    exists units, nameAt, partAt :: Said(data, at, a, units, nameAt, partAt)
  }

  lemma {:induction false} BytesOfUnits(b: seq<Byte>, n: nat)
    requires |b| == 2 * n
    ensures UnitBytes(Units(b)) == b && |Units(b)| == n && forall u | u in Units(b) :: u < 0x10000
    decreases n
  {
    if n > 0 {
      UnitWidth();
      ValueBound(b[..2]);
      DigitsOfValue(b[..2]);
      BytesOfUnits(b[2..], n - 1);
      assert Units(b)[1..] == Units(b[2..]);
      assert b == b[..2] + b[2..];
    }
  }

  lemma TextRead(b: seq<Byte>, units: seq<nat>, text: string)
    requires b == UnitBytes(units) && (forall u | u in units :: u < 0x10000) && Spells(units, text)
    ensures Text(Units(b)) == text
  {
    UnitsOfBytes(units);
    TextIffSpelled(units, text);
  }

  lemma NameRead(data: seq<Byte>, at: nat, size: nat, name: Option<string>, units: seq<nat>, nameAt: nat)
    requires !Ends(data, at) && size == Size(data, at) && NameSaid(data, at, size, name, units, nameAt)
    ensures name == Name(data, at)
  {
    WrittenNumber(data, at + 10, nameAt, 2);
    if name.Some? {
      var n := |units|;
      SliceOfSlice(data, at, size, nameAt, n * 2);
      TextRead(data[at + nameAt..at + nameAt + n * 2], units, name.value);
    }
  }

  lemma TextFound(b: seq<Byte>, n: nat) returns (units: seq<nat>)
    requires |b| == n * 2
    ensures |units| == n && UnitBytes(units) == b && (forall u | u in units :: u < 0x10000)
    ensures Spells(units, Text(Units(b)))
  {
    units := Units(b);
    BytesOfUnits(b, n);
    TextIffSpelled(units, Text(units));
  }

  lemma NameLaid(data: seq<Byte>, at: nat, size: nat, n: nat, nameAt: nat) returns (units: seq<nat>)
    requires at + size <= |data| && 0 < n && nameAt + n * 2 <= size
    ensures NameLayout(
      data[at..at + size], Some(Text(Units(data[at + nameAt..at + nameAt + n * 2]))), units, n, nameAt)
  {
    units := TextFound(data[at + nameAt..at + nameAt + n * 2], n);
    SliceOfSlice(data, at, size, nameAt, n * 2);
  }

  lemma NameFound(data: seq<Byte>, at: nat, size: nat, name: Option<string>) returns (units: seq<nat>, nameAt: nat)
    requires !Ends(data, at) && size == Size(data, at) && name == Name(data, at)
    ensures NameSaid(data, at, size, name, units, nameAt)
  {
    nameAt := Number(data, at + 10, 2);
    NumberWritten(data, at + 10, 2);
    var n: nat := data[at + 9];
    units := [];
    if n > 0 && nameAt + n * 2 <= size { units := NameLaid(data, at, size, n, nameAt); }
  }

  lemma ContentRead(data: seq<Byte>, at: nat, a: Attribute, contentAt: nat)
    requires 24 <= |data| - at && ContentSaid(data, at, a, contentAt)
    ensures !NonResident(data, at) && a.dataSize == ContentSize(data, at) && a.residentData == Content(data, at)
  {
    WrittenNumber(data, at + 0x10, a.dataSize, 4);
    WrittenNumber(data, at + 0x14, contentAt, 2);
  }

  lemma RunsRead(data: seq<Byte>, at: nat, a: Attribute, runAt: nat)
    requires 24 <= |data| - at && a.totalSize <= |data| - at && at + 0x40 <= |data| && RunsSaid(data, at, a, runAt)
    ensures RunOffset(data, at) == runAt <= a.totalSize
    ensures a.dataSize == Number(data, at + 0x30, 8) && a.initializedSize == Number(data, at + 0x38, 8)
  {
    WrittenNumber(data, at + 0x20, runAt, 2);
    WrittenNumber(data, at + 0x30, a.dataSize, 8);
    WrittenNumber(data, at + 0x38, a.initializedSize, 8);
  }

  predicate SameHead(data: seq<Byte>, at: nat, a: Attribute)
    requires !Ends(data, at)
  {
    a.code == Number(data, at, 4) && a.totalSize == Size(data, at) && a.name == Name(data, at)
  }

  lemma HeadRead(data: seq<Byte>, at: nat, code: nat, size: nat)
    requires 24 <= |data| - at && !Window(data, at, MARKER)
    requires Written(data, at, code, 4) && Written(data, at + 4, size, 4) && 0 < size <= |data| - at
    ensures !Ends(data, at) && code == Number(data, at, 4) && size == Size(data, at)
  {
    WrittenNumber(data, at, code, 4);
    WrittenNumber(data, at + 4, size, 4);
    NumberWritten(data, at, 4);
    MarkerNumber();
  }

  lemma HeaderRead(data: seq<Byte>, at: nat, a: Attribute, units: seq<nat>, nameAt: nat, partAt: nat)
    requires Said(data, at, a, units, nameAt, partAt)
    ensures !Ends(data, at)
    ensures SameHead(data, at, a)
  {
    HeadRead(data, at, a.code, a.totalSize);
    NameRead(data, at, a.totalSize, a.name, units, nameAt);
  }

  lemma ResidentIs(data: seq<Byte>, at: nat, a: Attribute)
    requires !Ends(data, at) && SameHead(data, at, a) && !NonResident(data, at) && !a.nonResident && a.runList == []
    requires a.residentData == Content(data, at) && a.dataSize == a.initializedSize == ContentSize(data, at)
    ensures !BadRuns(data, at) && AttributeAt(data, at) == a
  {
  }

  lemma NonResidentIs(data: seq<Byte>, at: nat, a: Attribute, b: seq<Byte>)
    requires !Ends(data, at) && SameHead(data, at, a) && HasRuns(data, at) && a.nonResident && a.residentData == None
    requires RunOffset(data, at) <= a.totalSize && b == RunBytes(data, at) && a.runList == RunParser.Parse(b)
    requires a.dataSize == Number(data, at + 0x30, 8) && a.initializedSize == Number(data, at + 0x38, 8)
    ensures !BadRuns(data, at) && AttributeAt(data, at) == a
  {
  }

  lemma HeadlessIs(data: seq<Byte>, at: nat, a: Attribute)
    requires !Ends(data, at) && SameHead(data, at, a) && NonResident(data, at) && at + 0x40 > |data|
    requires a.nonResident && a.residentData == None && a.runList == [] && a.dataSize == a.initializedSize == 0
    ensures !BadRuns(data, at) && AttributeAt(data, at) == a
  {
  }

  lemma ContentSaidIs(data: seq<Byte>, at: nat, a: Attribute, partAt: nat)
    requires !Ends(data, at) && SameHead(data, at, a) && ContentSaid(data, at, a, partAt)
    ensures !BadRuns(data, at) && AttributeAt(data, at) == a
  {
    ContentRead(data, at, a, partAt);
    ResidentIs(data, at, a);
  }

  lemma RunsSaidIs(data: seq<Byte>, at: nat, a: Attribute, partAt: nat)
    requires !Ends(data, at) && SameHead(data, at, a) && RunsSaid(data, at, a, partAt)
    ensures !BadRuns(data, at) && AttributeAt(data, at) == a
  {
    if at + 0x40 <= |data| {
      RunsRead(data, at, a, partAt);
      NonResidentIs(data, at, a, data[at + partAt..at + a.totalSize]);
    } else {
      HeadlessIs(data, at, a);
    }
  }

  lemma SaidIsRead(data: seq<Byte>, at: nat, a: Attribute, units: seq<nat>, nameAt: nat, partAt: nat)
    requires Said(data, at, a, units, nameAt, partAt)
    ensures !Ends(data, at) && !BadRuns(data, at) && AttributeAt(data, at) == a
  {
    HeaderRead(data, at, a, units, nameAt, partAt);
    if ContentSaid(data, at, a, partAt) {
      ContentSaidIs(data, at, a, partAt);
    } else {
      RunsSaidIs(data, at, a, partAt);
    }
  }

  lemma HeaderFound(data: seq<Byte>, at: nat)
    requires !Ends(data, at)
    ensures !Window(data, at, MARKER)
    ensures Written(data, at, Number(data, at, 4), 4) && Written(data, at + 4, Size(data, at), 4)
  {
    NumberWritten(data, at, 4);
    NumberWritten(data, at + 4, 4);
    EndsIffClosed(data, at);
  }

  lemma ContentFound(data: seq<Byte>, at: nat, a: Attribute) returns (contentAt: nat)
    requires !Ends(data, at) && !BadRuns(data, at) && !NonResident(data, at) && a == AttributeAt(data, at)
    ensures ContentSaid(data, at, a, contentAt)
  {
    contentAt := Number(data, at + 0x14, 2);
    NumberWritten(data, at + 0x10, 4);
    NumberWritten(data, at + 0x14, 2);
  }

  lemma RunsAre(data: seq<Byte>, at: nat, a: Attribute, b: seq<Byte>)
    requires !Ends(data, at) && HasRuns(data, at) && !BadRuns(data, at) && a == AttributeAt(data, at)
    requires b == RunBytes(data, at)
    ensures a.nonResident && a.residentData == None && a.totalSize == Size(data, at)
    ensures a.runList == RunParser.Parse(b)
    ensures a.dataSize == Number(data, at + 0x30, 8) && a.initializedSize == Number(data, at + 0x38, 8)
  {
  }

  lemma RunsSaidBy(data: seq<Byte>, at: nat, a: Attribute, runAt: nat, b: seq<Byte>)
    requires at + 0x40 <= |data| && a.totalSize <= |data| - at && data[at + 8] != 0
    requires a.nonResident && a.residentData == None && runAt == RunOffset(data, at) <= a.totalSize
    requires b == data[at + runAt..at + a.totalSize] && a.runList == RunParser.Parse(b)
    requires a.dataSize == Number(data, at + 0x30, 8) && a.initializedSize == Number(data, at + 0x38, 8)
    ensures RunsSaid(data, at, a, runAt)
  {
    NumberWritten(data, at + 0x20, 2);
    NumberWritten(data, at + 0x30, 8);
    NumberWritten(data, at + 0x38, 8);
  }

  lemma RunsFound(data: seq<Byte>, at: nat, a: Attribute) returns (runAt: nat)
    requires !Ends(data, at) && !BadRuns(data, at) && NonResident(data, at) && a == AttributeAt(data, at)
    ensures RunsSaid(data, at, a, runAt)
  {
    runAt := 0;
    if at + 0x40 <= |data| {
      runAt := RunOffset(data, at);
      var b := RunBytes(data, at);
      RunsAre(data, at, a, b);
      RunsSaidBy(data, at, a, runAt, b);
    }
  }

  lemma ReadIsSaid(data: seq<Byte>, at: nat, a: Attribute)
    requires !Ends(data, at) && !BadRuns(data, at) && a == AttributeAt(data, at)
    ensures SaidSomehow(data, at, a)
  {
    HeaderFound(data, at);
    var units, nameAt := NameFound(data, at, a.totalSize, a.name);
    var partAt;
    if NonResident(data, at) { partAt := RunsFound(data, at, a); } else { partAt := ContentFound(data, at, a); }
    assert Said(data, at, a, units, nameAt, partAt);
  }

  /** One round of the loop takes an attribute exactly when the bytes say it, field by field, whether or not its parts
      lie inside it. */
  lemma TakenIffSaid(data: seq<Byte>, at: nat, a: Attribute)
    ensures LookAt(data, at) == Item(a.totalSize, a) <==> SaidSomehow(data, at, a)
  {
    if LookAt(data, at) == Item(a.totalSize, a) { ReadIsSaid(data, at, a); }
    if SaidSomehow(data, at, a) {
      var units, nameAt, partAt :| Said(data, at, a, units, nameAt, partAt);
      SaidIsRead(data, at, a, units, nameAt, partAt);
    }
  }

  // ---------------------------------------------------------------- the record

  /** Attribute `k` is said where the sizes of those before it end; no attribute starts after the last one. */
  ghost predicate SaidInPlace(data: seq<Byte>, at: nat, attributes: seq<Attribute>, k: nat)
    requires k <= |attributes|
  {
    var s := at + Span(attributes, TotalSize(), k);
    if k == |attributes| then Closed(data, s) else SaidSomehow(data, s, attributes[k])
  }

  ghost predicate AllSaid(data: seq<Byte>, at: nat, attributes: seq<Attribute>) {
    forall k | 0 <= k <= |attributes| :: SaidInPlace(data, at, attributes, k)
  }

  lemma InPlaceIff(data: seq<Byte>, at: nat, attributes: seq<Attribute>, k: nat)
    requires k <= |attributes|
    ensures SaidInPlace(data, at, attributes, k) <==>
      Scan(data)(at + Span(attributes, TotalSize(), k)) == ItemOrStop(attributes, TotalSize(), k)
  {
    var s := at + Span(attributes, TotalSize(), k);
    if k == |attributes| { EndsIffClosed(data, s); } else { TakenIffSaid(data, s, attributes[k]); }
  }

  /** The attributes found from `at` on are exactly those that the bytes say. */
  lemma AttributesIffSaid(data: seq<Byte>, at: nat, attributes: seq<Attribute>)
    ensures Attributes(data, at) == Some(attributes) <==> AllSaid(data, at, attributes)
  {
    FoundIffScanned(data, at, attributes);
    forall k | 0 <= k <= |attributes|
      ensures SaidInPlace(data, at, attributes, k) <==>
        Scan(data)(at + Span(attributes, TotalSize(), k)) == ItemOrStop(attributes, TotalSize(), k)
    {
      InPlaceIff(data, at, attributes, k);
    }
  }

  const FILE: seq<Byte> := [0x46, 0x49, 0x4C, 0x45]

  lemma SignatureBytes()
    ensures Digits(MFT_RECORD_SIGNATURE, 4) == FILE
  {
    assert Digits(0x45, 1) == [0x45];
    assert Digits(0x454C, 2) == [0x4C] + Digits(0x45, 1);
    assert Digits(0x454C49, 3) == [0x49] + Digits(0x454C, 2);
    assert Digits(0x454C4946, 4) == [0x46] + Digits(0x454C49, 3);
  }

  /** Data is rejected, with an I/O error, exactly when it is shorter than 1024 bytes or does not start with `FILE`. */
  lemma RejectedIff(data: seq<Byte>)
    ensures ParseRecord(data) == Returns(Err(IoError)) <==> |data| < 1024 || !Window(data, 0, FILE)
    ensures forall e | ParseRecord(data) == Returns(Err(e)) :: e == IoError
  {
    SignatureBytes();
    FourBytes();
    if |data| >= 1024 {
      NumberWritten(data, 0, 4);
      if Window(data, 0, FILE) { WrittenNumber(data, 0, MFT_RECORD_SIGNATURE, 4); }
    }
  }

  /** The bytes of the whole record say what `r` says. */
  ghost predicate RecordSaid(data: seq<Byte>, r: Record, at: nat) {
    && |data| >= 1024 && Window(data, 0, FILE) && Written(data, 0x10, r.sequenceNumber, 2)
    && Written(data, 0x14, at, 2) && Written(data, 0x16, r.flags, 2) && Written(data, 0x18, r.bytesInUse, 4)
    && AllSaid(data, at, r.attributes)
  }

  /** A record is returned exactly when the bytes say it. */
  lemma RecordIffSaid(data: seq<Byte>, r: Record)
    ensures ParseRecord(data) == Returns(Ok(r)) <==> exists at :: RecordSaid(data, r, at)
  {
    RejectedIff(data);
    if IsRecord(data) {
      NumberWritten(data, 0x10, 2);
      NumberWritten(data, 0x14, 2);
      NumberWritten(data, 0x16, 2);
      NumberWritten(data, 0x18, 4);
      AttributesIffSaid(data, AttributesAt(data), r.attributes);
      if ParseRecord(data) == Returns(Ok(r)) { assert RecordSaid(data, r, AttributesAt(data)); }
      forall at | RecordSaid(data, r, at) ensures ParseRecord(data) == Returns(Ok(r)) {
        WrittenNumber(data, 0x10, r.sequenceNumber, 2);
        WrittenNumber(data, 0x14, at, 2);
        WrittenNumber(data, 0x16, r.flags, 2);
        WrittenNumber(data, 0x18, r.bytesInUse, 4);
      }
    }
  }
}
