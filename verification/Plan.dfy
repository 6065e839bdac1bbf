/**
 What a programming run is meant to do: the device's memory, the meaning of each command,
 and the sequence of commands that programs an image.
 */
module Plan {
  import opened Bytes
  import opened Device

  // ---------------------------------------------------------------- commands and their meaning

  datatype Op =
    | Prepare(first: nat, last: nat)
    | Erase(first: nat, last: nat)
    | Write(addr: nat, size: nat)
    | Data(bytes: seq<byte>)          // the transfer a Write opens, completed
    | Copy(dst: nat, src: nat, count: nat)
    | Compare(dst: nat, src: nat, span: int)
    | SetBank

  /**
   `flash` starts at address `base`, `ram` at address `ramBase`; `low` is what lies from address 0 on where
   flash does not. Sectors `unlocked.0` up to but not including `unlocked.1` are prepared. `due` is the
   length of the open upload, 0 when none is open. `faults` lists, copy by copy, the cells a copy leaves
   with a wrong value; it is empty for sound flash.
   */
  datatype Memory = Memory(base: nat, ramBase: nat, flash: seq<byte>, ram: seq<byte>, low: seq<byte>,
                           unlocked: (nat, nat), due: nat, faults: seq<map<nat, byte>>)

  function RamAt(ram: seq<byte>, i: int): byte
  {
    if 0 <= i < |ram| then ram[i] else BLANK
  }

  function Overlay(ram: seq<byte>, data: seq<byte>): (r: seq<byte>)
  {
    if |data| <= |ram| then data + ram[|data|..] else data
  }

  function EraseCells(flash: seq<byte>, lo: nat, hi: nat): (r: seq<byte>)
    ensures |r| == |flash|
    ensures forall x | 0 <= x < |flash| :: r[x] == if lo <= x < hi then BLANK else flash[x]
  {
    seq(|flash|, x requires 0 <= x < |flash| => if lo <= x < hi then BLANK else flash[x])
  }

  function FaultAt(faults: seq<map<nat, byte>>): map<nat, byte>
  {
    if faults == [] then map[] else faults[0]
  }

  /** Programs cells `at` up to `at + count` from RAM cells `from` on. Programming can only clear bits;
      a faulty cell ends up with whatever the fault says. */
  function ProgramCells(flash: seq<byte>, at: int, ram: seq<byte>, from: int, count: nat, fault: map<nat, byte>)
    : (r: seq<byte>)
    ensures |r| == |flash|
    ensures forall x | 0 <= x < |flash| && !(at <= x < at + count) :: r[x] == flash[x]
    ensures forall x: nat | x < |flash| && at <= x < at + count && x !in fault && flash[x] == BLANK ::
              r[x] == RamAt(ram, from + (x - at))
    decreases count
  {
    if count == 0 then flash
    else
      var done := ProgramCells(flash, at, ram, from, count - 1, fault);
      var x := at + count - 1;
      if !(0 <= x < |flash|) then done
      else if x in fault then done[x := fault[x]]
      else AndBlank(RamAt(ram, from + count - 1)); done[x := And(flash[x], RamAt(ram, from + count - 1))]
  }

  function Copied(m: Memory, at: int, from: int, count: nat): Memory
  {
    m.(flash := ProgramCells(m.flash, at, m.ram, from, count, FaultAt(m.faults)),
       unlocked := (0, 0), faults := if m.faults == [] then [] else m.faults[1..])
  }

  function Step(row: Row, m: Memory, op: Op): Memory
  {
    match op
    case Prepare(first, last) => m.(unlocked := (first, last + 1))
    case Erase(first, last) =>
      if last < |row.sectorTable| && first <= last then
        m.(flash := EraseCells(m.flash, Start(row, first), Start(row, last + 1)), unlocked := (0, 0))
      else m
    case Write(_, size) => m.(due := size)
    case Data(bytes) => m.(ram := Overlay(m.ram, bytes), due := 0)
    case Copy(dst, src, count) =>
      Copied(m, dst - m.base, src - m.ramBase, count)
    case Compare(_, _, _) => m
    case SetBank => m
  }

  function Run(row: Row, m: Memory, ops: seq<Op>): Memory
    decreases |ops|
  {
    if ops == [] then m else Run(row, Step(row, m, ops[0]), ops[1..])
  }

  function ByteAt(bytes: seq<byte>, a: int): Option<byte>
  {
    if 0 <= a < |bytes| then Some(bytes[a]) else None
  }

  /** What address `a` reads; None where nothing is mapped. */
  function ReadByte(m: Memory, a: int): Option<byte>
  {
    if m.base <= a < m.base + |m.flash| then Some(m.flash[a - m.base])
    else ByteAt(m.low, a)
  }

  /** `span` bytes from address `dst` on equal those of RAM from address `src` on. */
  predicate Matches(m: Memory, dst: nat, src: nat, span: int)
  {
    forall a: int | dst <= a < dst + span :: ReadByte(m, a) == Some(RamAt(m.ram, src - m.ramBase + (a - dst)))
  }

  /** The cells lie in sectors that are prepared. */
  predicate Unlocked(row: Row, m: Memory, dst: nat, count: nat)
  {
    && m.unlocked.0 < m.unlocked.1 <= row.flashSectors <= |row.sectorTable|
    && m.base + Start(row, m.unlocked.0) <= dst
    && dst + count <= m.base + Start(row, m.unlocked.1)
  }

  /** The command's numbers are acceptable; what a comparison finds is left open. */
  predicate Sized(row: Row, capacity: nat, m: Memory, op: Op)
  {
    match op
    case Prepare(first, last) => m.due == 0 && first <= last < row.flashSectors
    case Erase(first, last) =>
      m.due == 0 && first <= last < row.flashSectors && m.unlocked.0 <= first && last < m.unlocked.1
    case Write(addr, size) => m.due == 0 && addr == m.ramBase && 0 < size <= capacity && WordAligned(size)
    case Data(bytes) => |bytes| == m.due
    case Copy(dst, src, count) =>
      && m.due == 0 && m.ramBase <= src && src - m.ramBase + count <= capacity
      && WordAligned(src) && WordAligned(dst - m.base) && Permitted(row, count)
      && Unlocked(row, m, dst, count)
    case Compare(dst, src, span) =>
      m.due == 0 && 0 <= span && WordAligned(dst) && WordAligned(src) && WordAligned(span)
    case SetBank => m.due == 0
  }

  /** When the bootloader may answer a command with success. */
  predicate Legal(row: Row, capacity: nat, m: Memory, op: Op)
  {
    Sized(row, capacity, m, op) && (op.Compare? ==> Matches(m, op.dst, op.src, op.span))
  }

  /** Every command of the run was one the bootloader may accept. */
  ghost predicate LegalRun(row: Row, capacity: nat, m: Memory, ops: seq<Op>)
    decreases |ops|
  {
    ops == [] || (Legal(row, capacity, m, ops[0]) && LegalRun(row, capacity, Step(row, m, ops[0]), ops[1..]))
  }

  lemma {:induction false} RunConcat(row: Row, m: Memory, a: seq<Op>, b: seq<Op>)
    ensures Run(row, m, a + b) == Run(row, Run(row, m, a), b)
    decreases |a|
  {
    if a == [] {
      assert a + b == b;
    } else {
      assert (a + b)[1..] == a[1..] + b;
      RunConcat(row, Step(row, m, a[0]), a[1..], b);
    }
  }

  lemma {:induction false} LegalConcat(row: Row, capacity: nat, m: Memory, a: seq<Op>, b: seq<Op>)
    ensures LegalRun(row, capacity, m, a + b)
       <==> LegalRun(row, capacity, m, a) && LegalRun(row, capacity, Run(row, m, a), b)
    decreases |a|
  {
    if a == [] {
      assert a + b == b;
    } else {
      assert (a + b)[1..] == a[1..] + b;
      LegalConcat(row, capacity, Step(row, m, a[0]), a[1..], b);
    }
  }

  lemma RunSnoc(row: Row, m: Memory, ops: seq<Op>, n: nat)
    requires n < |ops|
    ensures Run(row, m, ops[..n + 1]) == Step(row, Run(row, m, ops[..n]), ops[n])
  {
    assert ops[..n + 1] == ops[..n] + [ops[n]];
    RunConcat(row, m, ops[..n], [ops[n]]);
  }

  lemma LegalSnoc(row: Row, capacity: nat, m: Memory, ops: seq<Op>, n: nat)
    requires n < |ops|
    ensures LegalRun(row, capacity, m, ops[..n + 1])
       <==> LegalRun(row, capacity, m, ops[..n]) && Legal(row, capacity, Run(row, m, ops[..n]), ops[n])
  {
    assert ops[..n + 1] == ops[..n] + [ops[n]];
    LegalConcat(row, capacity, m, ops[..n], [ops[n]]);
  }

  /** A prefix of `a + b` is a prefix of `a`, or `a` followed by a prefix of `b`. */
  lemma RunTake(row: Row, m: Memory, a: seq<Op>, b: seq<Op>, n: nat)
    requires n <= |a + b|
    ensures Run(row, m, (a + b)[..n]) ==
            if n <= |a| then Run(row, m, a[..n]) else Run(row, Run(row, m, a), b[..n - |a|])
  {
    if n <= |a| {
      assert (a + b)[..n] == a[..n];
    } else {
      assert (a + b)[..n] == a + b[..n - |a|];
      RunConcat(row, m, a, b[..n - |a|]);
    }
  }

  lemma RunThird(row: Row, m: Memory, a: seq<Op>, b: seq<Op>, c: seq<Op>, n: nat)
    requires |a| + |b| <= n <= |a + (b + c)|
    ensures Run(row, m, (a + (b + c))[..n]) == Run(row, Run(row, Run(row, m, a), b), c[..n - |a| - |b|])
  {
    assert (a + (b + c))[..n] == a + (b + c[..n - |a| - |b|]);
    RunConcat(row, m, a, b + c[..n - |a| - |b|]);
    RunConcat(row, Run(row, m, a), b, c[..n - |a| - |b|]);
  }

  // ---------------------------------------------------------------- the commands of a run

  /** `content` is the patched image buffer; the image proper is its first `length` bytes. */
  datatype Job = Job(row: Row, content: seq<byte>, length: nat, offset: nat, wipe: bool, verify: bool)

  predicate ValidJob(job: Job)
  {
    ValidRow(job.row) && VECTORS <= job.length && job.length + GROUP_BYTES <= |job.content|
  }

  predicate Fits(job: Job)
    requires ValidRow(job.row)
  {
    job.length <= FlashSize(job.row)
  }

  /** Image bytes in sector `k`. */
  function SectorLength(job: Job, k: nat): (r: nat)
    requires ValidRow(job.row) && k < |job.row.sectorTable| && Start(job.row, k) <= job.length
    ensures r <= job.row.sectorTable[k] && Start(job.row, k) + r <= job.length
  {
    Min(job.row.sectorTable[k], job.length - Start(job.row, k))
  }

  predicate OnlyBlank(s: seq<byte>)
  {
    forall i | 0 <= i < |s| :: s[i] == BLANK
  }

  /** The comparison after a copy leaves out the first 64 bytes of the address space. */
  function CompareOp(job: Job, at: nat, count: nat): Op
  {
    var ramBase := RamBase(job.row.variant);
    if at < 64 then Compare(64, ramBase + (64 - at), count - (64 - at)) else Compare(at, ramBase, count)
  }

  /** One chunk: where it starts in the image, its size, and the sizes announced and copied for it. */
  datatype Piece = Piece(at: nat, chunk: nat, upload: nat, count: nat)

  /** Sector `k` from `offset` on, cut into chunks. */
  function Pieces(job: Job, k: nat, offset: nat): (ps: seq<Piece>)
    requires ValidJob(job) && k < |job.row.sectorTable| && Start(job.row, k) <= job.length
    decreases SectorLength(job, k) - offset
  {
    var length := SectorLength(job, k);
    if offset >= length then []
    else
      var chunk := ChunkSize(job.row, length, offset);
      var upload := UploadSize(job.row.variant, chunk);
      [Piece(Start(job.row, k) + offset, chunk, upload, CopySize(job.row, upload, length))]
      + Pieces(job, k, offset + chunk)
  }

  /** The pieces cover image bytes `at` up to `end` one after the other; all but the last are copied
      exactly, and no copy reaches past `limit`. */
  predicate Tiled(ps: seq<Piece>, at: nat, end: nat, limit: nat, buffer: nat)
  {
    if ps == [] then at >= end
    else
      var p := ps[0];
      && p.at == at && 0 < p.chunk <= p.count && p.chunk <= p.upload
      && at + p.chunk <= end <= limit && at + p.upload <= buffer && at + p.count <= limit
      && (if |ps| == 1 then at + p.chunk == end else p.chunk == p.count && at + p.chunk < end)
      && Tiled(ps[1..], at + p.chunk, end, limit, buffer)
  }

  lemma {:induction false} PiecesTiled(job: Job, k: nat, offset: nat)
    requires ValidJob(job) && k < |job.row.sectorTable| && Start(job.row, k) <= job.length
    requires offset % job.row.maxCopySize == 0 || offset >= SectorLength(job, k)
    ensures Tiled(Pieces(job, k, offset), Start(job.row, k) + offset, Start(job.row, k) + SectorLength(job, k),
                  Start(job.row, k + 1), |job.content|)
    decreases SectorLength(job, k) - offset
  {
    var length := SectorLength(job, k);
    if offset < length {
      ChunkGeometry(job.row, k, length, offset);
      var chunk := ChunkSize(job.row, length, offset);
      var rest := Pieces(job, k, offset + chunk);
      PiecesTiled(job, k, offset + chunk);
      assert Pieces(job, k, offset)[1..] == rest;
      assert offset + chunk < length ==> |rest| > 0;
    }
  }

  function PieceOps(job: Job, k: nat, p: Piece): (ops: seq<Op>)
    requires p.at + p.upload <= |job.content|
  {
    var ramBase := RamBase(job.row.variant);
    [Write(ramBase, p.upload), Data(job.content[p.at..p.at + p.upload]), Prepare(k, k),
     Copy(job.offset + p.at, ramBase, p.count)]
    + if job.verify then [CompareOp(job, p.at, p.count)] else []
  }

  function PiecesOps(job: Job, k: nat, ps: seq<Piece>): (ops: seq<Op>)
    requires forall i | 0 <= i < |ps| :: ps[i].at + ps[i].upload <= |job.content|
  {
    if ps == [] then [] else PieceOps(job, k, ps[0]) + PiecesOps(job, k, ps[1..])
  }

  lemma {:induction false} TiledBounds(ps: seq<Piece>, at: nat, end: nat, limit: nat, buffer: nat)
    requires Tiled(ps, at, end, limit, buffer)
    ensures forall i | 0 <= i < |ps| :: ps[i].at + ps[i].upload <= buffer
  {
    if ps != [] {
      TiledBounds(ps[1..], at + ps[0].chunk, end, limit, buffer);
      forall i | 0 <= i < |ps|
        ensures ps[i].at + ps[i].upload <= buffer
      {
        assert i > 0 ==> ps[i] == ps[1..][i - 1];
      }
    }
  }

  /** Preparing a sector and, unless that has been done already, erasing it. */
  function SectorHead(job: Job, k: nat): (ops: seq<Op>)
  {
    [Prepare(k, k)] + (if !job.wipe && k != 0 then [Erase(k, k)] else [])
  }

  /** A part of the image that is all 0xFF needs no programming. */
  function SectorBody(job: Job, k: nat): (ops: seq<Op>)
    requires ValidJob(job) && k < |job.row.sectorTable| && Start(job.row, k) <= job.length
  {
    if OnlyBlank(job.content[Start(job.row, k)..Start(job.row, k) + SectorLength(job, k)]) then []
    else
      var ps := Pieces(job, k, 0);
      PiecesTiled(job, k, 0);
      var start := Start(job.row, k);
      TiledBounds(ps, start, start + SectorLength(job, k), Start(job.row, k + 1), |job.content|);
      PiecesOps(job, k, ps)
  }

  /** The chunks of a sector, with what their users rely on. */
  lemma CutUp(job: Job, k: nat) returns (ps: seq<Piece>)
    requires ValidJob(job) && k < |job.row.sectorTable| && Start(job.row, k) <= job.length
    ensures ps == Pieces(job, k, 0) && forall i | 0 <= i < |ps| :: ps[i].at + ps[i].upload <= |job.content|
    ensures Tiled(ps, Start(job.row, k), Start(job.row, k) + SectorLength(job, k), Start(job.row, k + 1), |job.content|)
  {
    ps := Pieces(job, k, 0);
    PiecesTiled(job, k, 0);
    TiledBounds(ps, Start(job.row, k), Start(job.row, k) + SectorLength(job, k), Start(job.row, k + 1), |job.content|);
  }

  function SectorOps(job: Job, k: nat): (ops: seq<Op>)
    requires ValidJob(job) && k < |job.row.sectorTable| && Start(job.row, k) <= job.length
  {
    SectorHead(job, k) + SectorBody(job, k)
  }

  /** Sectors `k` upward, as long as the image reaches them and the device has them. */
  function Upward(job: Job, k: nat): (ops: seq<Op>)
    requires ValidJob(job) && k <= job.row.flashSectors
    decreases job.row.flashSectors - k
  {
    if k < job.row.flashSectors && Start(job.row, k) < job.length
    then SectorOps(job, k) + Upward(job, k + 1)
    else []
  }

  function Opening(job: Job): (ops: seq<Op>)
    requires ValidJob(job)
  {
    var last := if job.wipe then job.row.flashSectors - 1 else 0;
    [Prepare(0, last), Erase(0, last)]
  }

  /** Sector 0 comes last, and only when the image fits. */
  function Closing(job: Job): (ops: seq<Op>)
    requires ValidJob(job)
  {
    if Fits(job) then SectorOps(job, 0) + (if Banked(job.row.variant) then [SetBank] else []) else []
  }

  function Whole(job: Job): (ops: seq<Op>)
    requires ValidJob(job)
  {
    Opening(job) + (Upward(job, 1) + Closing(job))
  }
}
