/** The run lists of src/fs/ntfs.rs as a format: `parse_run_list` against the encoding of runs. */
module RunParser {
  import opened Kernel
  import opened Bits
  import opened LittleEndian
  import opened RunList

  datatype Run = Run(length: nat, offset: int)

  /** The length bytes and the offset bytes of one run. */
  datatype Fields = Fields(length: seq<Byte>, offset: seq<Byte>)

  predicate WellFormed(f: Fields) { 1 <= |f.length| < 16 && |f.offset| < 16 }

  /** One run in the list: the header holds the two widths. */
  function Bytes(f: Fields): seq<Byte>
    requires WellFormed(f)
  {
    [16 * |f.offset| + |f.length|] + f.length + f.offset
  }

  function Join(fs: seq<Fields>): seq<Byte>
    requires forall f | f in fs :: WellFormed(f)
  {
    if fs == [] then [] else Bytes(fs[0]) + Join(fs[1..])
  }

  function Decode(f: Fields): Run {
    Run(DecodeLength(f.length), if f.offset == [] then 0 else DecodeOffset(f.offset))
  }

  function Runs(fs: seq<Fields>): seq<Run> { if fs == [] then [] else [Decode(fs[0])] + Runs(fs[1..]) }

  // ---------------------------------------------------------------- the parser

  function SizeLen(header: Byte): nat { And(header, 0x0F) }

  function OffsetLen(header: Byte): nat { And(Shr(header, 4), 0x0F) }

  lemma Nibbles(header: Byte)
    ensures SizeLen(header) == header % 16 && OffsetLen(header) == header / 16
  {
    assert Pow2(4) == 16;
    AndLowMask(header, 4);
    ShrIsDiv(header, 4);
    AndLowMask(header / 16, 4);
    DivBelow(header, 16, 16);
    SmallMod(header / 16, 16);
  }

  lemma HeaderWidths(f: Fields, header: Byte)
    requires WellFormed(f) && header == 16 * |f.offset| + |f.length|
    ensures SizeLen(header) == |f.length| && OffsetLen(header) == |f.offset|
  {
    Nibbles(header);
    DivUnique(header, 16, |f.offset|, |f.length|);
  }

  /** The bytes of the first run with its header. */
  function Width(d: seq<Byte>): nat
    requires d != []
  {
    1 + SizeLen(d[0]) + OffsetLen(d[0])
  }

  /** No complete run is left. */
  predicate Stops(d: seq<Byte>) { d == [] || d[0] == 0 || SizeLen(d[0]) == 0 || Width(d) > |d| }

  function First(d: seq<Byte>): Fields
    requires !Stops(d)
  {
    var n := 1 + SizeLen(d[0]);
    Fields(d[1..n], d[n..Width(d)])
  }

  function Split(d: seq<Byte>): seq<Fields>
    decreases |d|
  {
    if Stops(d) then [] else [First(d)] + Split(d[Width(d)..])
  }

  /** What is left where the parser stops. */
  function Rest(d: seq<Byte>): seq<Byte>
    decreases |d|
  {
    if Stops(d) then d else Rest(d[Width(d)..])
  }

  function Parse(d: seq<Byte>): seq<Run> { Runs(Split(d)) }

  // ---------------------------------------------------------------- the format

  lemma FirstBytes(d: seq<Byte>)
    requires !Stops(d)
    ensures WellFormed(First(d)) && Bytes(First(d)) == d[..Width(d)] && Bytes(First(d)) + d[Width(d)..] == d
  {
    Nibbles(d[0]);
  }

  /** What is parsed, put together again, is the data up to the point where no complete run follows. */
  lemma {:induction false} SplitExplains(d: seq<Byte>)
    ensures forall f | f in Split(d) :: WellFormed(f)
    ensures Join(Split(d)) + Rest(d) == d && Stops(Rest(d))
    decreases |d|
  {
    if !Stops(d) {
      var tail := d[Width(d)..];
      FirstBytes(d);
      SplitExplains(tail);
      JoinOne(First(d), Split(tail), d, tail);
    }
  }

  lemma JoinOne(f: Fields, rest: seq<Fields>, d: seq<Byte>, tail: seq<Byte>)
    requires WellFormed(f) && (forall g | g in rest :: WellFormed(g))
    requires Bytes(f) + tail == d
    ensures forall g | g in [f] + rest :: WellFormed(g)
    ensures forall end: seq<Byte> :: Join(rest) + end == tail ==> Join([f] + rest) + end == d
  {
    assert ([f] + rest)[1..] == rest;
    forall end: seq<Byte> | Join(rest) + end == tail ensures Join([f] + rest) + end == d {
      assert Bytes(f) + Join(rest) + end == Bytes(f) + (Join(rest) + end);
    }
  }

  lemma StartsWith(f: Fields, rest: seq<Byte>)
    requires WellFormed(f)
    ensures var d := Bytes(f) + rest; !Stops(d) && First(d) == f && d[Width(d)..] == rest
  {
    HeaderWidths(f, 16 * |f.offset| + |f.length|);
  }

  predicate StartsRun(d: seq<Byte>, f: Fields, rest: seq<Byte>) { WellFormed(f) && d == Bytes(f) + rest }

  /** The parser stops exactly where the data does not start with a complete run. */
  lemma StopsIff(d: seq<Byte>)
    ensures Stops(d) <==> !exists f, rest :: StartsRun(d, f, rest)
  {
    if !Stops(d) {
      FirstBytes(d);
      assert StartsRun(d, First(d), d[Width(d)..]);
    }
    forall f, rest | StartsRun(d, f, rest) ensures !Stops(d) { StartsWith(f, rest); }
  }

  lemma SplitCons(d: seq<Byte>, f: Fields, rest: seq<Byte>)
    requires WellFormed(f) && d == Bytes(f) + rest
    ensures Split(d) == [f] + Split(rest) && Rest(d) == Rest(rest)
  {
    StartsWith(f, rest);
  }

  lemma JoinCons(fs: seq<Fields>, rest: seq<Byte>)
    requires fs != [] && (forall f | f in fs :: WellFormed(f))
    ensures Join(fs) + rest == Bytes(fs[0]) + (Join(fs[1..]) + rest)
  {
    var a, b := Bytes(fs[0]), Join(fs[1..]);
    assert a + b + rest == a + (b + rest);
  }

  /** Every list of well-formed runs, with anything after it that is not a complete run, is parsed as those runs. */
  lemma {:induction false} SplitOfJoin(fs: seq<Fields>, rest: seq<Byte>)
    requires (forall f | f in fs :: WellFormed(f)) && Stops(rest)
    ensures Split(Join(fs) + rest) == fs && Rest(Join(fs) + rest) == rest
  {
    if fs == [] {
      assert Join(fs) + rest == rest;
    } else {
      var tail := Join(fs[1..]) + rest;
      SplitOfJoin(fs[1..], rest);
      JoinCons(fs, rest);
      SplitCons(Join(fs) + rest, fs[0], tail);
    }
  }

  lemma CutStep(d: seq<Byte>, c: seq<Byte>, n: nat)
    requires n <= |d| && c == d[..n] && !Stops(c)
    ensures !Stops(d) && Width(d) == Width(c) <= n && First(c) == First(d)
    ensures c[Width(c)..] == d[Width(d)..][..n - Width(d)]
  {
    assert c[0] == d[0];
  }

  lemma PrefixCons(f: Fields, a: seq<Fields>, b: seq<Fields>)
    requires a <= b
    ensures [f] + a <= [f] + b
  {
  }

  /** Data cut off anywhere yields the first of the runs that the whole data yields. */
  lemma {:induction false} CutIsPrefix(d: seq<Byte>, n: nat)
    requires n <= |d|
    ensures Split(d[..n]) <= Split(d)
    decreases |d|
  {
    var c := d[..n];
    if !Stops(c) {
      CutStep(d, c, n);
      var w := Width(d);
      CutIsPrefix(d[w..], n - w);
      PrefixCons(First(d), Split(d[w..][..n - w]), Split(d[w..]));
    }
  }

  lemma {:induction false} RunsOfPrefix(a: seq<Fields>, b: seq<Fields>)
    requires a <= b
    ensures Runs(a) <= Runs(b)
  {
    if a != [] { RunsOfPrefix(a[1..], b[1..]); }
  }

  /** The runs parsed from data cut off anywhere are the first of those parsed from the whole data. */
  lemma CutParsesPrefix(d: seq<Byte>, n: nat)
    requires n <= |d|
    ensures Parse(d[..n]) <= Parse(d)
  {
    CutIsPrefix(d, n);
    RunsOfPrefix(Split(d[..n]), Split(d));
  }

  // ---------------------------------------------------------------- encoding runs

  /** The top byte holds the sign. */
  lemma SignByte(b: seq<Byte>)
    requires b != []
    ensures b[|b| - 1] < 128 <==> Value(b) < Pow2(8 * |b| - 1)
  {
    var n := |b| - 1;
    var p := Pow2(8 * n);
    PrefixStep(b, n);
    assert b[..n + 1] == b;
    ValueBound(b[..n]);
    Pow2Add(7, 8 * n);
    assert Pow2(7) == 128;
    SignArithmetic(Value(b[..n]), b[n], p);
  }

  lemma SignArithmetic(low: nat, top: nat, p: nat)
    requires low < p
    ensures top < 128 <==> low + top * p < 128 * p
  {
    if top < 128 { MulStep(top, 128, p); } else { MulMonotone(128, top, p); }
  }

  /** `v` fits in `w` bytes of two's complement. */
  predicate InRange(v: int, w: nat)
    requires w > 0
  {
    0 <= v + Pow2(8 * w - 1) && v < Pow2(8 * w - 1)
  }

  /** The bytes of a signed number. */
  function SignedDigits(v: int, w: nat): (r: seq<Byte>)
    requires w > 0 && InRange(v, w)
    ensures |r| == w
  {
    if v >= 0 then Digits(v, w) else DoubleRange(w); Digits(v + Pow2(8 * w), w)
  }

  lemma DoubleRange(w: nat)
    requires w > 0
    ensures Pow2(8 * w) == 2 * Pow2(8 * w - 1)
  {
  }

  lemma SignedRoundTrip(v: int, w: nat)
    requires w > 0 && InRange(v, w)
    ensures TwosComplement(SignedDigits(v, w)) == v
  {
    DoubleRange(w);
    ValueOfDigits(if v >= 0 then v else v + Pow2(8 * w), w);
    SignByte(SignedDigits(v, w));
  }

  /** A run and the widths it is written with. */
  datatype Plan = Plan(run: Run, lengthWidth: nat, offsetWidth: nat)

  /** The widths can be written in a header and hold the run, and its offset is one that is read correctly. */
  predicate Fits(p: Plan) {
    && 1 <= p.lengthWidth < 16 && p.run.length < Pow2(8 * p.lengthWidth) && p.run.length < TWO_64
    && p.offsetWidth < 16
    && if p.offsetWidth == 0 then p.run.offset == 0
       else
         && InRange(p.run.offset, p.offsetWidth)
         && (p.offsetWidth <= 7 || 0 <= p.run.offset < TWO_63 || p.run.offset == -1)
  }

  function Encode(p: Plan): (f: Fields)
    requires Fits(p)
    ensures WellFormed(f)
  {
    Fields(
      Digits(p.run.length, p.lengthWidth),
      if p.offsetWidth == 0 then [] else SignedDigits(p.run.offset, p.offsetWidth))
  }

  lemma DecodeEncode(p: Plan)
    requires Fits(p)
    ensures Decode(Encode(p)) == p.run
  {
    var f := Encode(p);
    ValueOfDigits(p.run.length, p.lengthWidth);
    LengthCorrectIff(f.length);
    if p.offsetWidth > 0 {
      SignedRoundTrip(p.run.offset, p.offsetWidth);
      OffsetCorrectIff(f.offset);
    }
  }

  function EncodeAll(ps: seq<Plan>): (fs: seq<Fields>)
    requires forall p | p in ps :: Fits(p)
    ensures forall f | f in fs :: WellFormed(f)
  {
    if ps == [] then [] else [Encode(ps[0])] + EncodeAll(ps[1..])
  }

  function RunsOf(ps: seq<Plan>): seq<Run> { if ps == [] then [] else [ps[0].run] + RunsOf(ps[1..]) }

  lemma {:induction false} DecodeEncodeAll(ps: seq<Plan>)
    requires forall p | p in ps :: Fits(p)
    ensures Runs(EncodeAll(ps)) == RunsOf(ps)
  {
    if ps != [] {
      DecodeEncode(ps[0]);
      DecodeEncodeAll(ps[1..]);
      assert EncodeAll(ps)[1..] == EncodeAll(ps[1..]);
    }
  }

  /** Every list of runs, each written with any widths that hold it, and followed by a zero byte, by the end of the data
      or by an incomplete run, is parsed as exactly those runs. */
  lemma RoundTrip(ps: seq<Plan>, rest: seq<Byte>)
    requires (forall p | p in ps :: Fits(p)) && Stops(rest)
    ensures Parse(Join(EncodeAll(ps)) + rest) == RunsOf(ps)
  {
    SplitOfJoin(EncodeAll(ps), rest);
    DecodeEncodeAll(ps);
  }

  lemma EightBytes(v: int)
    requires InRange(v, 8) && v < 0
    ensures DecodeOffset(SignedDigits(v, 8)) == -1
  {
    var b := SignedDigits(v, 8);
    SignedRoundTrip(v, 8);
    assert b[8..] == [];
    WideWord(b, 0);
  }

  lemma ParseOneRun(f: Fields)
    requires WellFormed(f)
    ensures Parse(Bytes(f)) == [Decode(f)]
  {
    assert Bytes(f) + [] == Bytes(f);
    SplitCons(Bytes(f), f, []);
    assert Split(Bytes(f)) == [f];
    assert Runs([f]) == [Decode(f)];
  }

  /** A negative offset of eight bytes other than -1 is not read back: the sign fill sets all its bits. */
  lemma EightByteOffsetLost(length: seq<Byte>, v: int)
    requires 1 <= |length| < 16 && InRange(v, 8) && v < -1
    ensures Parse(Bytes(Fields(length, SignedDigits(v, 8)))) == [Run(DecodeLength(length), -1)]
  {
    EightBytes(v);
    ParseOneRun(Fields(length, SignedDigits(v, 8)));
  }

  // ---------------------------------------------------------------- the parser's loops

  /** The loop that puts a word together from bytes */
  method GatherBytes(data: seq<Byte>, offset: nat, n: nat) returns (word: nat)
    requires offset + n <= |data|
    ensures word == Gather(data[offset..offset + n], n)
  {
    word := 0;
    ghost var b := data[offset..offset + n];
    for i := 0 to n
      invariant word == Gather(b, i)
    {
      word := Or(word, Shl64(data[offset + i], i * 8));
    }
  }

  /** The runs from position `at` on. */
  ghost function ParseFrom(data: seq<Byte>, at: nat): seq<Run>
    requires at <= |data|
  {
    Parse(data[at..])
  }

  lemma ParseStep(data: seq<Byte>, at: nat)
    requires at <= |data|
    ensures var d := data[at..];
      ParseFrom(data, at) == if Stops(d) then [] else [Decode(First(d))] + ParseFrom(data, at + Width(d))
  {
    var d := data[at..];
    if !Stops(d) {
      assert Split(d)[1..] == Split(d[Width(d)..]);
      assert d[Width(d)..] == data[at + Width(d)..];
    }
  }

  /** The offset of a run whose bytes are all there */
  method ReadOffset(data: seq<Byte>, offset: nat, n: nat) returns (r: int)
    requires 0 < n && offset + n <= |data|
    ensures r == DecodeOffset(data[offset..offset + n])
  {
    var word := GatherBytes(data, offset, n);
    if And(data[offset + n - 1], 0x80) != 0 {
      word := Or(word, Shl64(TWO_64 - 1, n * 8));
    }
    r := Signed(word);
  }

  /** One round of the loop of `parse_run_list`: a run and where it ends, or no more runs */
  method ReadRun(data: seq<Byte>, start: nat) returns (run: Option<Run>, offset: nat)
    requires start < |data|
    ensures run == if Stops(data[start..]) then None else Some(Decode(First(data[start..])))
    ensures run.Some? ==> offset == start + Width(data[start..])
  {
    offset := start;
    var header := data[offset];
    if header == 0 { return None, offset; }
    offset := offset + 1;
    var sizeLen, offsetLen := And(header, 0x0F), And(Shr(header, 4), 0x0F);
    if sizeLen == 0 || offset + sizeLen > |data| { return None, offset; }
    var length := GatherBytes(data, offset, sizeLen);
    assert data[offset..offset + sizeLen] == data[start..][1..1 + sizeLen];
    offset := offset + sizeLen;
    if offsetLen == 0 { return Some(Run(length, 0)), offset; }
    if offset + offsetLen > |data| { return None, offset; }
    var runOffset := ReadOffset(data, offset, offsetLen);
    assert data[offset..offset + offsetLen] == data[start..][1 + sizeLen..1 + sizeLen + offsetLen];
    offset := offset + offsetLen;
    return Some(Run(length, runOffset)), offset;
  }

  method NextRun(data: seq<Byte>, start: nat) returns (run: Option<Run>, offset: nat)
    requires start < |data|
    ensures run.None? ==> ParseFrom(data, start) == []
    ensures run.Some? ==>
      start < offset <= |data| && ParseFrom(data, start) == [run.value] + ParseFrom(data, offset)
  {
    run, offset := ReadRun(data, start);
    ParseStep(data, start);
  }

  /** `parse_run_list` */
  method ParseRunList(data: seq<Byte>) returns (runs: seq<Run>)
    ensures runs == Parse(data)
  {
    runs := [];
    var offset := 0;
    assert data[0..] == data;
    while offset < |data|
      invariant 0 <= offset <= |data| && runs + ParseFrom(data, offset) == ParseFrom(data, 0)
    {
      var run, next := NextRun(data, offset);
      if run.None? { return; }
      runs := runs + [run.value];
      offset := next;
    }
    ParseStep(data, offset);
  }
}
