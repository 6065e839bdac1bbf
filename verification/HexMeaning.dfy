/** The memory that HEX records describe, read off the records themselves, and the memory that the
    commands of an HCD file write: they are the same. */
module HexMeaning {
  import opened Bytes
  import opened HexRecord
  import opened Hcd

  type Memory = map<u32, byte>

  function Lookup(m: Memory, a: u32): Option<byte>
  {
    if a in m then Some(m[a]) else None
  }

  // ---------------------------------------------------------------- what the records describe

  // Record types are given by the standard's own numbers here: 0 for data, 4 for an address.

  /** A type-04 record holds the upper 16 bits of the addresses that follow it. */
  predicate WellFormed(r: Record)
  {
    Representable(r) && (r.kind == 4 ==> |r.data| == 2)
  }

  predicate AllWellFormed(records: seq<Record>)
  {
    forall i | 0 <= i < |records| :: WellFormed(records[i])
  }

  function Base(records: seq<Record>): segment
    requires AllWellFormed(records)
  {
    if records == [] then 0
    else
      var earlier, last := records[..|records| - 1], records[|records| - 1];
      if last.kind == 4 then 0x100_0000 * (last.data[0] as int) + 0x1_0000 * (last.data[1] as int)
      else Base(earlier)
  }

  /** How far address `a` lies behind `start`, addresses wrapping around at 4 GiB. */
  function Distance(start: u32, a: u32): nat
  {
    Mod32(a - start)
  }

  /** The byte that data block `data` at `start` puts at `a`, if it reaches there. */
  function Covering(start: u32, data: seq<byte>, a: u32): Option<byte>
  {
    var i := Distance(start, a);
    if i < |data| then Some(data[i]) else None
  }

  function OrElse(first: Option<byte>, second: Option<byte>): Option<byte>
  {
    if first.Some? then first else second
  }

  /** The byte at `a`: the one of the last data record that covers `a`, else the one that was there. */
  function HexByte(records: seq<Record>, a: u32, before: Memory): Option<byte>
    requires AllWellFormed(records)
  {
    if records == [] then Lookup(before, a)
    else
      var earlier, last := records[..|records| - 1], records[|records| - 1];
      if last.kind == 0 then OrElse(Covering(Base(earlier) + last.offset, last.data, a), HexByte(earlier, a, before))
      else HexByte(earlier, a, before)
  }

  // ---------------------------------------------------------------- what the commands do

  /** Writes `data` byte by byte from `a` on. */
  function Store(m: Memory, a: u32, data: seq<byte>): Memory
  {
    if data == [] then m
    else
      var n := |data| - 1;
      Store(m, a, data[..n])[Mod32(a + n) := data[n]]
  }

  function Replay(m: Memory, frames: seq<Frame>): Memory
  {
    if frames == [] then m
    else
      match frames[|frames| - 1]
      case WriteRam(a, data) => Store(Replay(m, frames[..|frames| - 1]), a, data)
      case LaunchRam(_) => Replay(m, frames[..|frames| - 1])
  }

  lemma DistanceTo(start: u32, a: u32, n: nat)
    requires n < WORD
    ensures Mod32(start + n) == a <==> Distance(start, a) == n
  {
  }

  lemma {:induction false} StoreByte(m: Memory, start: u32, data: seq<byte>, a: u32)
    requires |data| <= WORD
    ensures Lookup(Store(m, start, data), a) == OrElse(Covering(start, data, a), Lookup(m, a))
  {
    if data != [] {
      var n := |data| - 1;
      StoreByte(m, start, data[..n], a);
      DistanceTo(start, a, n);
    }
  }

  // ---------------------------------------------------------------- the translation keeps it

  lemma Split(records: seq<Record>) returns (before: seq<Record>, last: Record)
    requires records != [] && AllWellFormed(records)
    ensures records == before + [last] && AllWellFormed(before) && WellFormed(last)
    ensures Readable(records) && Readable(before)
  {
    before, last := records[..|records| - 1], records[|records| - 1];
  }

  lemma {:induction false} UpperIsBase(records: seq<Record>)
    requires AllWellFormed(records)
    ensures Readable(records) && Upper(records) == Base(records)
    decreases |records|
  {
    if records != [] {
      var before, last := Split(records);
      UpperIsBase(before);
      OneMoreRecord(before, last);
      assert records[..|records| - 1] == before;
    }
  }

  lemma ReplayLast(m: Memory, frames: seq<Frame>, start: u32, data: seq<byte>, a: u32)
    requires |data| < 256
    ensures Lookup(Replay(m, frames + [WriteRam(start, data)]), a) ==
              OrElse(Covering(start, data, a), Lookup(Replay(m, frames), a))
  {
    var all := frames + [WriteRam(start, data)];
    assert all[..|all| - 1] == frames;
    StoreByte(Replay(m, frames), start, data, a);
  }

  lemma HexByteLast(records: seq<Record>, a: u32, m: Memory, earlier: seq<Record>, last: Record)
    requires AllWellFormed(records) && records == earlier + [last] && AllWellFormed(earlier) && WellFormed(last)
    ensures HexByte(records, a, m) ==
              if last.kind == 0 then
                OrElse(Covering(Base(earlier) + last.offset, last.data, a), HexByte(earlier, a, m))
              else HexByte(earlier, a, m)
  {
    assert records[..|records| - 1] == earlier;
  }

  lemma OneMoreMeans(m: Memory, a: u32, frames: seq<Frame>, frames': seq<Frame>,
                     records: seq<Record>, records': seq<Record>, last: Record)
    requires AllWellFormed(records) && AllWellFormed(records') && WellFormed(last) && records' == records + [last]
    requires last.kind != 0 ==> frames' == frames
    requires last.kind == 0 ==> frames' == frames + [WriteRam(Base(records) + last.offset, last.data)]
    requires Lookup(Replay(m, frames), a) == HexByte(records, a, m)
    ensures Lookup(Replay(m, frames'), a) == HexByte(records', a, m)
  {
    HexByteLast(records', a, m, records, last);
    if last.kind == 0 {
      ReplayLast(m, frames, Base(records) + last.offset, last.data, a);
    }
  }

  /** Replaying the commands made of `records` gives the memory that the records describe. */
  lemma {:induction false} FramesMeanRecords(records: seq<Record>, m: Memory, a: u32)
    requires AllWellFormed(records)
    ensures Readable(records) && Lookup(Replay(m, DataFrames(records)), a) == HexByte(records, a, m)
    decreases |records|
  {
    if records != [] {
      var before, last := Split(records);
      FramesMeanRecords(before, m, a);
      UpperIsBase(before);
      OneMoreRecord(before, last);
      OneMoreMeans(m, a, DataFrames(before), DataFrames(records), before, records, last);
    }
  }

  /** The converter's output, read as commands and replayed, leaves every byte of the memory as the
      HEX records say; and it can be read as commands if and only if no data record is too long. */
  lemma MeaningPreserved(lines: seq<string>, m: Memory)
    requires HexLines(lines) && AllWellFormed(Records(lines))
    ensures Readable(Records(lines))
    ensures var parsed := Parse(Emit(Frames(lines)));
      && (parsed.Some? <==> ShortRecords(Records(lines)))
      && (parsed.Some? ==> forall a :: Lookup(Replay(m, parsed.value), a) == HexByte(Records(lines), a, m))
  {
    var records := Records(lines);
    UpperIsBase(records);
    OutputReadsBack(lines);
    forall a: u32
      ensures Lookup(Replay(m, Frames(lines)), a) == HexByte(records, a, m)
    {
      FramesMeanRecords(records, m, a);
      if Completes(lines) {
        assert Frames(lines)[..|Frames(lines)| - 1] == DataFrames(records);
      }
    }
  }

  // ---------------------------------------------------------------- a file by its bytes

  const ADDRESS_LINE: string := ":020000040020DA"
  const DATA_LINE: string := ":011234005564"
  const LAST_LINE: string := ":00000001FF"

  lemma HexSnoc(s: seq<byte>, b: byte, t: seq<byte>)
    requires t == s + [b]
    ensures Hex(t) == Hex(s) + [HexDigit(b / 16), HexDigit(b % 16)]
    ensures Sum(t) == Sum(s) + b
  {
    assert t[..|t| - 1] == s;
  }

  lemma HexNone()
    ensures Hex([]) == "" && Sum([]) == 0
  {
  }

  lemma AddressPrinted()
    ensures PrintRecord(Record(0, 4, [0x00, 0x20])) == ADDRESS_LINE
  {
    hide Hex, Sum;
    HexNone();
    HexSnoc([], 2, [2]);
    HexSnoc([2], 0, [2, 0]);
    HexSnoc([2, 0], 0, [2, 0, 0]);
    HexSnoc([2, 0, 0], 4, [2, 0, 0, 4]);
    HexSnoc([2, 0, 0, 4], 0, [2, 0, 0, 4, 0]);
    HexSnoc([2, 0, 0, 4, 0], 0x20, [2, 0, 0, 4, 0, 0x20]);
    HexSnoc([2, 0, 0, 4, 0, 0x20], 0xDA, [2, 0, 0, 4, 0, 0x20, 0xDA]);
    assert [2, 0, 0, 4] + [0x00, 0x20] == [2, 0, 0, 4, 0, 0x20];
    assert RecordBytes(Record(0, 4, [0x00, 0x20])) == [2, 0, 0, 4, 0, 0x20, 0xDA];
  }

  lemma DataPrinted()
    ensures PrintRecord(Record(0x1234, 0, [0x55])) == DATA_LINE
  {
    hide Hex, Sum;
    HexNone();
    HexSnoc([], 1, [1]);
    HexSnoc([1], 0x12, [1, 0x12]);
    HexSnoc([1, 0x12], 0x34, [1, 0x12, 0x34]);
    HexSnoc([1, 0x12, 0x34], 0, [1, 0x12, 0x34, 0]);
    HexSnoc([1, 0x12, 0x34, 0], 0x55, [1, 0x12, 0x34, 0, 0x55]);
    HexSnoc([1, 0x12, 0x34, 0, 0x55], 0x64, [1, 0x12, 0x34, 0, 0x55, 0x64]);
    assert [1, 0x12, 0x34, 0] + [0x55] == [1, 0x12, 0x34, 0, 0x55];
    assert RecordBytes(Record(0x1234, 0, [0x55])) == [1, 0x12, 0x34, 0, 0x55, 0x64];
  }

  lemma LastPrinted()
    ensures PrintRecord(Record(0, 1, [])) == LAST_LINE
  {
    hide Hex, Sum;
    HexNone();
    HexSnoc([], 0, [0]);
    HexSnoc([0], 0, [0, 0]);
    HexSnoc([0, 0], 0, [0, 0, 0]);
    HexSnoc([0, 0, 0], 1, [0, 0, 0, 1]);
    HexSnoc([0, 0, 0, 1], 0xFF, [0, 0, 0, 1, 0xFF]);
    assert [0, 0, 0, 1] + [] == [0, 0, 0, 1];
    assert RecordBytes(Record(0, 1, [])) == [0, 0, 0, 1, 0xFF];
  }

  /** One byte at 0x00201234, and the launch. */
  lemma ThreeLines()
    ensures var lines := [":020000040020DA", ":011234005564", ":00000001FF"];
      && HexLines(lines) && Readable(Records(lines)) && Completes(lines)
      && Emit(Frames(lines)) ==
           [0x4C, 0xFC, 0x05, 0x34, 0x12, 0x20, 0x00, 0x55, 0x4E, 0xFC, 0x04, 0xFF, 0xFF, 0xFF, 0xFF]
  {
    hide HexLines, Continued, PrintRecord, Readable, HexLine, Records, Upper, DataFrames, Completes, Emit;
    hide Hcd.Frames;
    var first, second := Record(0, 4, [0x00, 0x20]), Record(0x1234, 0, [0x55]);
    AddressPrinted();
    DataPrinted();
    LastPrinted();
    NoLines();
    RecordEffects([], first, []);
    assert [] + [PrintRecord(first)] == [ADDRESS_LINE];
    RecordEffects([ADDRESS_LINE], second, []);
    assert [ADDRESS_LINE] + [PrintRecord(second)] == [ADDRESS_LINE, DATA_LINE];
    RecordEffects([ADDRESS_LINE, DATA_LINE], Record(0, 1, []), []);
    assert [ADDRESS_LINE, DATA_LINE] + ([PrintRecord(Record(0, 1, []))] + []) == [ADDRESS_LINE, DATA_LINE, LAST_LINE];
    assert [] + [WriteRam(0x0020_1234, [0x55])] + [LaunchRam(0xFFFF_FFFF)] ==
           [WriteRam(0x0020_1234, [0x55]), LaunchRam(0xFFFF_FFFF)];
    TwoFrames();
  }

  lemma NoLines()
    ensures HexLines([]) && Continued([]) == 0 && Readable(Records([])) && DataFrames(Records([])) == []
  {
  }

  lemma TwoFrames()
    ensures Emit([WriteRam(0x0020_1234, [0x55]), LaunchRam(0xFFFF_FFFF)]) ==
              [0x4C, 0xFC, 0x05, 0x34, 0x12, 0x20, 0x00, 0x55, 0x4E, 0xFC, 0x04, 0xFF, 0xFF, 0xFF, 0xFF]
  {
    var write, launch := WriteRam(0x0020_1234, [0x55]), LaunchRam(0xFFFF_FFFF);
    LaunchBytes();
    assert AddressBytes(0x0020_1234) == [0x34, 0x12, 0x20, 0x00];
    EmitOne([write], launch);
    EmitOne([], write);
    assert [] + [write] == [write] && [write] + [launch] == [write, launch];
  }
}
