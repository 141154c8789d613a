/** A file record that stops `parse_mft_record` of src/fs/ntfs.rs. */
module MftCases {
  import opened Kernel
  import opened LittleEndian
  import opened Mft

  /** A record of 1024 bytes with one attribute at offset 56: type 0x80, 72 bytes long, non-resident, its list of runs
      said to start at its byte 255. */
  function RecordByte(i: nat): Byte {
    if i == 0 then 0x46 else if i == 1 then 0x49 else if i == 2 then 0x4C else if i == 3 then 0x45
    else if i == 0x14 then 56
    else if i == 56 then 0x80
    else if i == 60 then 72
    else if i == 64 then 1
    else if i == 88 then 255
    else 0
  }

  function BadRecord(): (r: seq<Byte>)
    ensures |r| == 1024
  {
    seq(1024, i requires 0 <= i => RecordByte(i))
  }

  lemma Value2(a: Byte, b: Byte)
    ensures Value([a, b]) == a as nat + 256 * b as nat
  {
    assert [a, b][1..] == [b] && [b][1..] == [];
    assert Value([b]) == b;
  }

  lemma Value4(a: Byte, b: Byte, c: Byte, d: Byte)
    ensures Value([a, b, c, d]) == a as nat + 256 * b as nat + 65536 * c as nat + 0x100_0000 * d as nat
  {
    Value2(c, d);
    assert [a, b, c, d][1..] == [b, c, d] && [b, c, d][1..] == [c, d];
  }

  lemma Number2(data: seq<Byte>, at: nat, a: nat, b: nat)
    requires at + 2 <= |data| && a == data[at] && b == data[at + 1]
    ensures Number(data, at, 2) == a + 256 * b
  {
    assert data[at..at + 2] == [data[at], data[at + 1]];
    Value2(data[at], data[at + 1]);
  }

  lemma Number4(data: seq<Byte>, at: nat, a: nat, b: nat, c: nat, d: nat)
    requires at + 4 <= |data| && a == data[at] && b == data[at + 1] && c == data[at + 2] && d == data[at + 3]
    ensures Number(data, at, 4) == a + 256 * b + 65536 * c + 0x100_0000 * d
  {
    assert data[at..at + 4] == [data[at], data[at + 1], data[at + 2], data[at + 3]];
    Value4(data[at], data[at + 1], data[at + 2], data[at + 3]);
  }

  lemma BadRecordHeader(data: seq<Byte>)
    requires data == BadRecord()
    ensures IsRecord(data) && AttributesAt(data) == 56
  {
    Number4(data, 0, 0x46, 0x49, 0x4C, 0x45);
    Number2(data, 0x14, 56, 0);
  }

  lemma BadRecordAttribute(data: seq<Byte>)
    requires data == BadRecord()
    ensures Faulty(data, 56)
  {
    Number4(data, 56, 0x80, 0, 0, 0);
    Number4(data, 60, 72, 0, 0, 0);
    Number2(data, 88, 255, 0);
  }

  /** A list of runs that starts after the end of its attribute: parsing stops the kernel. */
  lemma BadRecordPanics()
    ensures ParseRecord(BadRecord()).Panics?
  {
    var data := BadRecord();
    BadRecordHeader(data);
    BadRecordAttribute(data);
    ScanBounded(data);
    assert 56 in Offsets(data, 56);
    PanicsIff(data);
  }
}
