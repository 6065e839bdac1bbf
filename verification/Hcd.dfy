/** The translation of Intel HEX records into the HCI vendor commands of an HCD file: a command is
    an opcode, the number of its parameter bytes, and those bytes (Bluetooth Core Specification,
    HCI Functional Specification, section 5.4.1). */
module Hcd {
  import opened Bytes
  import opened HexRecord

  const EINVAL: int := 22
  const HEADER: nat := 3         // opcode and length
  const ADDRESS: nat := 4
  const LONGEST: nat := 251      // more data does not leave room for the address in the length byte
  const DATA: byte := 0
  const END_OF_FILE: byte := 1
  const EXTENDED_LINEAR_ADDRESS: byte := 4
  const LAUNCH_ADDRESS: u32 := 0xFFFF_FFFF

  // The upper address half of type-04 records; an offset below 64 kiB added to it does not wrap.
  type segment = x: int | 0 <= x <= 0xFFFF_0000

  datatype Frame = WriteRam(address: u32, data: seq<byte>) | LaunchRam(address: u32)

  // ---------------------------------------------------------------- frames as bytes

  function AddressBytes(a: u32): (s: seq<byte>)
    ensures |s| == ADDRESS
  {
    [Shifted(a, 0) % 0x100, Shifted(a, 1) % 0x100, Shifted(a, 2) % 0x100, Shifted(a, 3) % 0x100]
  }

  function AddressOf(s: seq<byte>): (a: u32)
    requires |s| == ADDRESS
    ensures forall x: u32 | s == AddressBytes(x) :: a == x
  {
    AddressJoins();
    LittleEndian(s[0], s[1], s[2], s[3])
  }

  lemma AddressJoins()
    ensures forall x: u32 :: var s := AddressBytes(x); LittleEndian(s[0], s[1], s[2], s[3]) == x
  {
    forall x: u32
      ensures var s := AddressBytes(x); LittleEndian(s[0], s[1], s[2], s[3]) == x
    {
      LittleEndianJoin(x);
    }
  }

  function LengthByte(count: nat): byte
  {
    (count + ADDRESS) % 256
  }

  function Prefix(op: byte, count: nat, a: u32): (s: seq<byte>)
    ensures |s| == HEADER + ADDRESS
  {
    [op, 0xFC, LengthByte(count)] + AddressBytes(a)
  }

  function FrameBytes(f: Frame): seq<byte>
  {
    match f
    case WriteRam(a, data) => Prefix(0x4C, |data|, a) + data
    case LaunchRam(a) => Prefix(0x4E, 0, a)
  }

  function Emit(frames: seq<Frame>): seq<byte>
  {
    if frames == [] then [] else FrameBytes(frames[0]) + Emit(frames[1..])
  }

  // ---------------------------------------------------------------- reading frames back

  /** One command with parameters `p`. */
  function Command(op0: byte, op1: byte, p: seq<byte>): Option<Frame>
  {
    if op1 != 0xFC || |p| < ADDRESS then None
    else if op0 == 0x4C then Some(WriteRam(AddressOf(p[..ADDRESS]), p[ADDRESS..]))
    else if op0 == 0x4E && |p| == ADDRESS then Some(LaunchRam(AddressOf(p[..ADDRESS])))
    else None
  }

  /** The commands in `s`, each as long as its length byte says; None when `s` is not a whole number
      of them. */
  function Parse(s: seq<byte>): Option<seq<Frame>>
  {
    if s == [] then Some([])
    else if |s| < HEADER || |s| < HEADER + s[2] then None
    else
      match Command(s[0], s[1], s[HEADER..HEADER + s[2]])
      case None => None
      case Some(f) =>
        match Parse(s[HEADER + s[2]..])
        case None => None
        case Some(rest) => Some([f] + rest)
  }

  predicate Fits(f: Frame)
  {
    f.WriteRam? ==> |f.data| <= LONGEST
  }

  predicate Countable(f: Frame)
  {
    f.WriteRam? ==> |f.data| < 256
  }

  lemma Slices(head: seq<byte>, p: seq<byte>, rest: seq<byte>)
    ensures var s := head + p + rest;
      |s| == |head| + |p| + |rest| && s[..|head|] == head && s[|head|..|head| + |p|] == p && s[|head| + |p|..] == rest
  {
  }

  function Payload(f: Frame): seq<byte>
  {
    if f.WriteRam? then f.data else []
  }

  function Head(f: Frame): (s: seq<byte>)
    ensures |s| == HEADER
  {
    [if f.WriteRam? then 0x4C else 0x4E, 0xFC, LengthByte(|Payload(f)|)]
  }

  lemma CommandReads(f: Frame)
    ensures FrameBytes(f) == Head(f) + (AddressBytes(f.address) + Payload(f))
    ensures Command(Head(f)[0], Head(f)[1], AddressBytes(f.address) + Payload(f)) == Some(f)
  {
    var p := AddressBytes(f.address) + Payload(f);
    Associate(Head(f), AddressBytes(f.address), Payload(f));
    assert p[..ADDRESS] == AddressBytes(f.address) && p[ADDRESS..] == Payload(f);
  }

  lemma FrontOf(f: Frame, rest: seq<byte>)
    ensures var s := FrameBytes(f) + rest;
      |s| == HEADER + ADDRESS + |Payload(f)| + |rest| && s[0] == Head(f)[0] && s[1] == Head(f)[1] && s[2] == Head(f)[2]
    ensures var s, n := FrameBytes(f) + rest, HEADER + ADDRESS + |Payload(f)|;
      s[HEADER..n] == AddressBytes(f.address) + Payload(f) && s[n..] == rest
  {
    CommandReads(f);
    Slices(Head(f), AddressBytes(f.address) + Payload(f), rest);
    assert (FrameBytes(f) + rest)[..HEADER] == Head(f);
  }

  lemma ParseFits(f: Frame, rest: seq<byte>)
    requires Countable(f) && Fits(f)
    ensures Parse(FrameBytes(f) + rest) == match Parse(rest) case None => None case Some(fs) => Some([f] + fs)
  {
    FrontOf(f, rest);
    CommandReads(f);
    assert Head(f)[2] == ADDRESS + |Payload(f)|;
  }

  lemma TooShort(s: seq<byte>)
    requires HEADER <= |s| && s[2] < ADDRESS
    ensures Parse(s) == None
  {
  }

  lemma ParseWraps(f: Frame, rest: seq<byte>)
    requires Countable(f) && !Fits(f)
    ensures Parse(FrameBytes(f) + rest) == None
  {
    FrontOf(f, rest);
    TooShort(FrameBytes(f) + rest);
  }

  /** The bytes read back as the frames they were made of, unless a data block is so long that its
      length byte wraps; then they do not read back at all. */
  lemma {:induction false} ParseEmit(frames: seq<Frame>)
    requires forall f | f in frames :: Countable(f)
    ensures Parse(Emit(frames)) == if forall f | f in frames :: Fits(f) then Some(frames) else None
  {
    hide Fits, Countable, FrameBytes;
    if frames != [] {
      var rest := frames[1..];
      ParseEmit(rest);
      if Fits(frames[0]) {
        ParseFits(frames[0], Emit(rest));
      } else {
        ParseWraps(frames[0], Emit(rest));
      }
      assert frames == [frames[0]] + rest;
      assert frames[0] in frames && forall f | f in rest :: f in frames;
    }
  }

  lemma {:induction false} EmitOne(a: seq<Frame>, f: Frame)
    ensures Emit(a + [f]) == Emit(a) + FrameBytes(f)
  {
    if a == [] {
      assert a + [f] == [f];
    } else {
      EmitOne(a[1..], f);
      assert (a + [f])[1..] == a[1..] + [f];
      Associate(FrameBytes(a[0]), Emit(a[1..]), FrameBytes(f));
    }
  }

  // ---------------------------------------------------------------- the converter

  predicate HexLines(lines: seq<string>)
  {
    forall line | line in lines :: HexLine(line)
  }

  predicate IsKind(line: string, kind: byte)
    requires HexLine(line)
  {
    Accepted(line) && ReadRecord(line).kind == kind
  }

  /** A data record, or one that sets the upper half of the address: the converter reads on after it. */
  predicate Continues(line: string)
    requires HexLine(line)
  {
    IsKind(line, DATA) || IsKind(line, EXTENDED_LINEAR_ADDRESS)
  }

  /** The number of lines before the first one that ends the conversion. */
  function Continued(lines: seq<string>): (n: nat)
    requires HexLines(lines)
    ensures n <= |lines| && (n < |lines| ==> !Continues(lines[n]))
    ensures forall i | 0 <= i < n :: Continues(lines[i])
  {
    if lines == [] || !Continues(lines[0]) then 0 else 1 + Continued(lines[1..])
  }

  predicate Completes(lines: seq<string>)
    requires HexLines(lines)
  {
    Continued(lines) < |lines| && IsKind(lines[Continued(lines)], END_OF_FILE)
  }

  /** The records of those lines. */
  function Records(lines: seq<string>): (records: seq<Record>)
    requires HexLines(lines)
    ensures |records| == Continued(lines)
    ensures forall i | 0 <= i < |records| :: records[i] == ReadRecord(lines[i])
  {
    seq(Continued(lines), i requires 0 <= i < Continued(lines) => ReadRecord(lines[i]))
  }

  /** What a type-04 record holds: its first two data bytes, or its only one and its checksum. */
  function UpperBits(r: Record): (upper: nat)
    requires Representable(r) && |r.data| > 0
    ensures upper < 0x1_0000
    ensures |r.data| > 1 ==> upper == BigEndian(0, r.data[0], r.data[1])
  {
    BigEndian(0, RecordBytes(r)[4], RecordBytes(r)[5])
  }

  /** The address field of a type-04 record does not reach past the line. */
  predicate Complete(r: Record)
  {
    Representable(r) && (r.kind == EXTENDED_LINEAR_ADDRESS ==> |r.data| > 0)
  }

  predicate Readable(records: seq<Record>)
  {
    forall i | 0 <= i < |records| :: Complete(records[i])
  }

  /** The address that `r` leaves to the records behind it. */
  function NextUpper(r: Record, upper: segment): segment
    requires Complete(r)
  {
    if r.kind == EXTENDED_LINEAR_ADDRESS then UpperBits(r) * 0x1_0000 else upper
  }

  function DataFrame(r: Record, upper: segment): (f: Frame)
    requires Representable(r)
    ensures Countable(f)
  {
    WriteRam(upper + r.offset, r.data)
  }

  function Upper(records: seq<Record>): segment
    requires Readable(records)
  {
    if records == [] then 0
    else
      NextUpper(records[|records| - 1], Upper(records[..|records| - 1]))
  }

  function DataFrames(records: seq<Record>): (frames: seq<Frame>)
    requires Readable(records)
    ensures forall f | f in frames :: Countable(f)
  {
    if records == [] then []
    else
      var before, last := records[..|records| - 1], records[|records| - 1];
      if last.kind == DATA then DataFrames(before) + [DataFrame(last, Upper(before))] else DataFrames(before)
  }

  /** What the lines are translated into. */
  function Frames(lines: seq<string>): seq<Frame>
    requires HexLines(lines) && Readable(Records(lines))
  {
    var written := DataFrames(Records(lines));
    if Completes(lines) then written + [LaunchRam(LAUNCH_ADDRESS)] else written
  }

  lemma CountField(line: string)
    requires HexLine(line) && Accepted(line)
    ensures |line| == 2 * |ReadRecord(line).data| + 11 && HexToInt(line, 1) == |ReadRecord(line).data|
  {
    assert LineBytes(line)[0] == HexToInt(line, 1);
  }

  lemma OffsetField(line: string)
    requires HexLine(line) && Accepted(line)
    ensures |line| >= 11 && LongHexToInt(line, 3) == ReadRecord(line).offset
  {
    assert LineBytes(line)[1] == HexToInt(line, 3) && LineBytes(line)[2] == HexToInt(line, 5);
  }

  lemma KindField(line: string)
    requires HexLine(line) && Accepted(line)
    ensures |line| >= 11 && HexToInt(line, 7) == ReadRecord(line).kind
  {
    assert LineBytes(line)[3] == HexToInt(line, 7);
  }

  lemma DataField(line: string, i: nat)
    requires HexLine(line) && Accepted(line) && i < |ReadRecord(line).data|
    ensures 9 + i * 2 + 2 <= |line| && HexToInt(line, 9 + i * 2) == ReadRecord(line).data[i]
  {
    assert LineBytes(line)[4 + i] == HexToInt(line, 1 + 2 * (4 + i));
  }

  /** What one more record adds to the address and to the frames. */
  lemma OneMoreRecord(records: seq<Record>, r: Record)
    requires Readable(records) && Readable(records + [r])
    ensures Complete(r) && Upper(records + [r]) == NextUpper(r, Upper(records))
    ensures DataFrames(records + [r]) ==
              if r.kind == DATA then DataFrames(records) + [DataFrame(r, Upper(records))] else DataFrames(records)
  {
    var all := records + [r];
    assert all[..|all| - 1] == records && all[|all| - 1] == r && r in all;
  }

  /** The first seven bytes of a command. */
  method FillHeader(obuf: array<byte>, count: byte, destination: u32)
    requires obuf.Length == 7
    modifies obuf
    ensures obuf[..] == Prefix(0x4C, count, destination)
  {
    obuf[0] := 0x4C;
    obuf[1] := 0xFC;
    obuf[2] := LengthByte(count);
    obuf[3] := Shifted(destination, 0) % 0x100;
    obuf[4] := Shifted(destination, 1) % 0x100;
    obuf[5] := Shifted(destination, 2) % 0x100;
    obuf[6] := Shifted(destination, 3) % 0x100;
  }

  /** Appends the data bytes of `line` one by one. */
  method WriteBytes(line: string, obuf: array<byte>, file: seq<byte>) returns (file': seq<byte>)
    requires HexLine(line) && Accepted(line) && obuf.Length == 7
    modifies obuf
    ensures file' == file + ReadRecord(line).data
  {
    CountField(line);
    ghost var data := ReadRecord(line).data;
    file' := file;
    var i := 0;
    while i < HexToInt(line, 1)
      invariant 0 <= i <= |data|
      invariant file' == file + data[..i]
    {
      DataField(line, i);
      obuf[0] := HexToInt(line, 9 + i * 2);
      file' := file' + [obuf[0]];
      TakeOneMore(data, i);
      Associate(file, data[..i], [data[i]]);
      i := i + 1;
    }
  }

  lemma FrameBytesAppend(file: seq<byte>, head: seq<byte>, r: Record, upper: segment, destination: u32)
    requires Representable(r) && destination == upper + r.offset && head == Prefix(0x4C, |r.data|, destination)
    ensures file + head + r.data == file + FrameBytes(DataFrame(r, upper))
  {
    Associate(file, head, r.data);
  }

  /** Appends the command for the data record `line` to `file`. */
  method WriteData(line: string, addr: segment, obuf: array<byte>, file: seq<byte>) returns (file': seq<byte>)
    requires HexLine(line) && IsKind(line, DATA) && obuf.Length == 7
    modifies obuf
    ensures file' == file + FrameBytes(DataFrame(ReadRecord(line), addr))
  {
    CountField(line);
    OffsetField(line);
    var destination := addr + LongHexToInt(line, 3);
    FillHeader(obuf, HexToInt(line, 1), destination);
    ghost var head := obuf[..];
    file' := WriteBytes(line, obuf, file + obuf[..]);
    FrameBytesAppend(file, head, ReadRecord(line), addr, destination);
  }

  lemma LaunchBytes()
    ensures FrameBytes(LaunchRam(LAUNCH_ADDRESS)) == [0x4E, 0xFC, 0x04, 0xFF, 0xFF, 0xFF, 0xFF]
  {
    assert AddressBytes(LAUNCH_ADDRESS) == [0xFF, 0xFF, 0xFF, 0xFF];
  }

  lemma DataBytes(r: Record, addr: segment)
    requires Representable(r)
    ensures FrameBytes(DataFrame(r, addr)) ==
              [0x4C, 0xFC, (|r.data| + 4) % 256] + AddressBytes(addr + r.offset) + r.data
  {
  }

  lemma UpperReads(line: string)
    requires HexLine(line) && Accepted(line) && |ReadRecord(line).data| > 0
    ensures |line| >= 13 && LongHexToInt(line, 9) == UpperBits(ReadRecord(line))
  {
    var s := LineBytes(line);
    BytesReadBack(s, ReadRecord(line));
    assert s[4] == HexToInt(line, 9) && s[5] == HexToInt(line, 11);
  }

  /** One accepted record: the new address and file, and whether the conversion ends with it. */
  method ConvertRecord(line: string, addr: segment, obuf: array<byte>, file: seq<byte>)
    returns (addr': segment, file': seq<byte>, ended: bool, ret: int)
    requires HexLine(line) && Accepted(line) && Complete(ReadRecord(line))
    requires obuf.Length == 7
    modifies obuf
    ensures ended <==> !Continues(line)
    ensures ended <==> ReadRecord(line).kind != 0 && ReadRecord(line).kind != 4
    ensures ended ==> ret == if ReadRecord(line).kind == 1 then 0 else -22
    ensures ReadRecord(line).kind == 0 ==>
              var r := ReadRecord(line);
              file' == file + ([0x4C, 0xFC, (|r.data| + 4) % 256] + AddressBytes(addr + r.offset) + r.data)
    ensures ReadRecord(line).kind == 1 ==> file' == file + [0x4E, 0xFC, 0x04, 0xFF, 0xFF, 0xFF, 0xFF]
    ensures ReadRecord(line).kind > 1 ==> file' == file
    ensures ReadRecord(line).kind == 4 && |ReadRecord(line).data| > 1 ==>
              addr' == 0x100_0000 * (ReadRecord(line).data[0] as int) + 0x1_0000 * (ReadRecord(line).data[1] as int)
    ensures ReadRecord(line).kind != 4 ==> addr' == addr
    ensures file' == if IsKind(line, DATA) then file + FrameBytes(DataFrame(ReadRecord(line), addr))
                     else if IsKind(line, END_OF_FILE) then file + FrameBytes(LaunchRam(LAUNCH_ADDRESS)) else file
    ensures addr' == NextUpper(ReadRecord(line), addr)
  {
    hide FrameBytes, DataFrame, ReadRecord, Accepted, HexToInt, AddressBytes, Prefix;
    KindField(line);
    addr', file', ended, ret := addr, file, false, 0;
    var kind := HexToInt(line, 7);
    if kind == EXTENDED_LINEAR_ADDRESS {
      UpperReads(line);
      addr' := LongHexToInt(line, 9) * 0x1_0000;
    } else if kind == DATA {
      DataBytes(ReadRecord(line), addr);
      file' := WriteData(line, addr, obuf, file);
    } else if kind == END_OF_FILE {
      LaunchBytes();
      file' := file + [0x4E, 0xFC, 0x04, 0xFF, 0xFF, 0xFF, 0xFF];
      ended := true;
    } else {
      ended, ret := true, -EINVAL;
    }
  }

  /** What `records` have led to. */
  ghost predicate After(records: seq<Record>, addr: segment, file: seq<byte>)
  {
    Readable(records) && addr == Upper(records) && file == Emit(DataFrames(records))
  }

  lemma AfterNone()
    ensures After([], 0, [])
  {
  }

  lemma AfterOneMore(records: seq<Record>, r: Record, addr: segment, file: seq<byte>, addr': segment, file': seq<byte>)
    requires After(records, addr, file) && Complete(r)
    requires file' == if r.kind == DATA then file + FrameBytes(DataFrame(r, addr)) else file
    requires addr' == NextUpper(r, addr)
    ensures After(records + [r], addr', file')
  {
    OneMoreRecord(records, r);
    EmitOne(DataFrames(records), DataFrame(r, addr));
  }

  lemma Finished(lines: seq<string>, n: nat)
    requires HexLines(lines) && n <= Continued(lines) && (n == |lines| || !Continues(lines[n]))
    ensures n == |Records(lines)| && Records(lines)[..n] == Records(lines)
  {
    if n < |lines| {
      NextContinues(lines, n);
    }
  }

  lemma AfterAll(lines: seq<string>, records: seq<Record>, addr: segment, file: seq<byte>)
    requires HexLines(lines) && records == Records(lines) && After(records, addr, file)
    ensures Emit(Frames(lines)) == if Completes(lines) then file + FrameBytes(LaunchRam(LAUNCH_ADDRESS)) else file
  {
    EmitOne(DataFrames(records), LaunchRam(LAUNCH_ADDRESS));
  }

  lemma NextContinues(lines: seq<string>, n: nat)
    requires HexLines(lines) && n <= Continued(lines) && n < |lines|
    ensures Continues(lines[n]) <==> n < Continued(lines)
  {
  }

  lemma OtherComplete(line: string)
    requires HexLine(line) && Accepted(line) && !Continues(line)
    ensures Complete(ReadRecord(line))
  {
  }

  lemma NextReadable(lines: seq<string>, n: nat)
    requires HexLines(lines) && Readable(Records(lines)) && n <= Continued(lines) && n < |lines| && Accepted(lines[n])
    ensures Complete(ReadRecord(lines[n])) && (Continues(lines[n]) <==> n < Continued(lines))
  {
    NextContinues(lines, n);
    if n == Continued(lines) {
      OtherComplete(lines[n]);
    } else {
      assert Complete(Records(lines)[n]);
    }
  }

  lemma NextRecord(lines: seq<string>, n: nat)
    requires HexLines(lines) && n < Continued(lines)
    ensures Records(lines)[..n] + [ReadRecord(lines[n])] == Records(lines)[..n + 1]
  {
    TakeOneMore(Records(lines), n);
  }

  /** Converts `lines` into the bytes of `file`; 0 is returned when a type-01 record ends them. */
  method Convert(lines: seq<string>) returns (file: seq<byte>, ret: int)
    requires HexLines(lines) && Readable(Records(lines))
    ensures file == Emit(Frames(lines))
    ensures ret == if Completes(lines) then 0 else -22
  {
    hide ReadRecord, Accepted, Frames, FrameBytes, NextUpper, Upper, DataFrames, AddressBytes, Emit, DataFrame;
    AfterNone();
    file := [];
    var addr: segment := 0;
    var obuf := new byte[7];
    var next := 0;
    ghost var records := [];
    while next < |lines|
      invariant next <= |Records(lines)| && records == Records(lines)[..next]
      invariant After(records, addr, file)
    {
      var line := lines[next];
      var good := CheckHexLine(line);
      if !good {
        break;
      }
      NextReadable(lines, next);
      var addr', file', ended, status := ConvertRecord(line, addr, obuf, file);
      if ended {
        Finished(lines, next);
        AfterAll(lines, records, addr, file);
        return file', status;
      }
      AfterOneMore(records, ReadRecord(line), addr, file, addr', file');
      NextRecord(lines, next);
      records := records + [ReadRecord(line)];
      addr, file, next := addr', file', next + 1;
    }
    Finished(lines, next);
    AfterAll(lines, records, addr, file);
    ret := -EINVAL;
  }

  // ---------------------------------------------------------------- what each type of record does

  lemma JoinHexLines(a: seq<string>, b: seq<string>)
    ensures HexLines(a + b) <==> HexLines(a) && HexLines(b)
  {
    if HexLines(a + b) {
      assert forall line | line in a :: line in a + b;
      assert forall line | line in b :: line in a + b;
    }
  }

  lemma {:induction false} ContinuedConcat(lines: seq<string>, more: seq<string>)
    requires HexLines(lines) && HexLines(more) && Continued(lines) == |lines|
    ensures HexLines(lines + more) && Continued(lines + more) == |lines| + Continued(more)
    decreases |lines|
  {
    hide Continues, HexLine;
    JoinHexLines(lines, more);
    if lines == [] {
      assert lines + more == more;
    } else {
      assert lines == lines[..1] + lines[1..];
      JoinHexLines(lines[..1], lines[1..]);
      ContinuedConcat(lines[1..], more);
      assert (lines + more)[0] == lines[0] && (lines + more)[1..] == lines[1..] + more;
    }
  }

  lemma SameRecords(lines: seq<string>, more: seq<string>)
    requires HexLines(lines) && HexLines(more) && Continued(lines) == |lines|
    ensures HexLines(lines + more) && Records(lines + more) == Records(lines) + Records(more)
  {
    hide Continues, HexLine, ReadRecord, Accepted, Continued;
    ContinuedConcat(lines, more);
    var all := lines + more;
    forall i | 0 <= i < |Records(all)|
      ensures Records(all)[i] == (Records(lines) + Records(more))[i]
    {
      assert i < |lines| ==> all[i] == lines[i];
      assert i >= |lines| ==> all[i] == more[i - |lines|];
    }
  }

  lemma PrintedKind(r: Record)
    requires Representable(r)
    ensures Continues(PrintRecord(r)) <==> r.kind in {0, 4}
    ensures IsKind(PrintRecord(r), END_OF_FILE) <==> r.kind == 1
  {
    hide PrintRecord, ReadRecord, Accepted;
    PrintReads(r);
  }

  /** A line that has the conversion read on. */
  lemma RecordGoesOn(lines: seq<string>, r: Record)
    requires HexLines(lines) && Continued(lines) == |lines| && Representable(r) && r.kind in {0, 4}
    ensures var all := lines + [PrintRecord(r)];
            HexLines(all) && Continued(all) == |all| && Records(all) == Records(lines) + [r]
  {
    hide Continues, PrintRecord, ReadRecord, Accepted;
    PrintReads(r);
    PrintedKind(r);
    var one := [PrintRecord(r)];
    assert one[1..] == [] && Continued(one) == 1;
    ContinuedConcat(lines, one);
    SameRecords(lines, one);
    assert Records(one) == [r];
  }

  /** A line that ends the conversion, whatever comes behind it. */
  lemma RecordStops(lines: seq<string>, r: Record, rest: seq<string>)
    requires HexLines(lines) && HexLines(rest) && Continued(lines) == |lines| && Representable(r) && r.kind !in {0, 4}
    ensures var all := lines + ([PrintRecord(r)] + rest);
            && HexLines(all) && Continued(all) == |lines| && Records(all) == Records(lines)
            && (Completes(all) <==> r.kind == 1)
  {
    hide Continues, PrintRecord, ReadRecord, Accepted, IsKind;
    PrintedKind(r);
    var tail := [PrintRecord(r)] + rest;
    JoinHexLines([PrintRecord(r)], rest);
    assert tail[0] == PrintRecord(r) && Continued(tail) == 0;
    ContinuedConcat(lines, tail);
    SameRecords(lines, tail);
    assert Records(tail) == [];
    assert (lines + tail)[|lines|] == PrintRecord(r);
  }

  /** By the numbers of the standard: a record of type 4 moves the address of the records behind it, type 0
      becomes a write command there, type 1 ends the conversion with the launch, every other type without. */
  lemma RecordEffects(lines: seq<string>, r: Record, rest: seq<string>)
    requires HexLines(lines) && HexLines(rest) && Continued(lines) == |lines| && Readable(Records(lines))
    requires Representable(r) && (r.kind == 4 ==> |r.data| == 2)
    ensures var all := lines + [PrintRecord(r)];
      r.kind == 4 ==>
        && HexLines(all) && Continued(all) == |all| && Readable(Records(all))
        && Upper(Records(all)) == 0x100_0000 * (r.data[0] as int) + 0x1_0000 * (r.data[1] as int)
        && DataFrames(Records(all)) == DataFrames(Records(lines))
    ensures var all := lines + [PrintRecord(r)];
      r.kind == 0 ==>
        && HexLines(all) && Continued(all) == |all| && Readable(Records(all))
        && Upper(Records(all)) == Upper(Records(lines))
        && DataFrames(Records(all)) == DataFrames(Records(lines)) + [WriteRam(Upper(Records(lines)) + r.offset, r.data)]
    ensures var all := lines + ([PrintRecord(r)] + rest);
      r.kind != 0 && r.kind != 4 ==>
        && HexLines(all) && Readable(Records(all)) && (Completes(all) <==> r.kind == 1)
        && Frames(all) == DataFrames(Records(lines)) + (if r.kind == 1 then [LaunchRam(0xFFFF_FFFF)] else [])
  {
    hide Continues, PrintRecord, ReadRecord, Accepted, IsKind, Upper, DataFrames;
    if r.kind == 0 || r.kind == 4 {
      RecordGoesOn(lines, r);
      OneMoreRecord(Records(lines), r);
    } else {
      RecordStops(lines, r, rest);
    }
  }

  // ---------------------------------------------------------------- the output reads back

  predicate ShortRecords(records: seq<Record>)
  {
    forall r | r in records && r.kind == DATA :: |r.data| <= LONGEST
  }

  lemma {:induction false} FramesFit(records: seq<Record>)
    requires Readable(records)
    ensures (forall f | f in DataFrames(records) :: Fits(f)) <==> ShortRecords(records)
  {
    if records != [] {
      var before, last := records[..|records| - 1], records[|records| - 1];
      assert records == before + [last] && last in records;
      FramesFit(before);
      OneMoreRecord(before, last);
      if last.kind == DATA {
        assert DataFrame(last, Upper(before)) in DataFrames(records);
        assert forall f | f in DataFrames(before) :: f in DataFrames(records);
      }
    }
  }

  /** The output parses into the data records before the end of the conversion, at their addresses,
      and the launch command behind them when a type-01 record ended it. This holds exactly if none
      of those data records has more than 251 bytes; else the output does not parse. */
  lemma OutputReadsBack(lines: seq<string>)
    requires HexLines(lines) && Readable(Records(lines))
    ensures Parse(Emit(Frames(lines))) == if ShortRecords(Records(lines)) then Some(Frames(lines)) else None
  {
    var written := DataFrames(Records(lines));
    FramesFit(Records(lines));
    ParseEmit(Frames(lines));
    assert forall f | f in written :: f in Frames(lines);
  }

  /** A data record whose command cannot be read back: 252 bytes and an address make a length of 0. */
  lemma LongRecordLost() returns (lines: seq<string>)
    ensures HexLines(lines) && Readable(Records(lines)) && Parse(Emit(Frames(lines))) == None
  {
    var r := Record(0, DATA, seq(252, _ => 0));
    lines := [PrintRecord(r)];
    PrintReads(r);
    assert Continues(lines[0]) && Continued(lines) == 1;
    assert Records(lines)[0] == r && r in Records(lines);
    OutputReadsBack(lines);
  }
}
