/**
 What the comparison after each copy is worth: which RAM bytes it looks at, which image bytes it
 covers, and that a completed verifying run vouches for flash however badly single copies went.
 */
module Verify {
  import opened Bytes
  import opened Device
  import opened Plan
  import opened Frames
  import opened Safety
  import opened Runs
  import opened Protocol
  import opened Comparisons
  import opened VectorTable

  /** Flash cell `x` was written by the copy, from the RAM byte the comparison holds against it. */
  predicate PairedAt(copy: Op, compare: Op, x: int)
    requires copy.Copy? && compare.Compare?
  {
    copy.dst <= x < copy.dst + copy.count && compare.src + (x - compare.dst) == copy.src + (x - copy.dst)
  }

  predicate Pairs(copy: Op, compare: Op)
    requires copy.Copy? && compare.Compare?
  {
    forall x | compare.dst <= x < compare.dst + compare.span :: PairedAt(copy, compare, x)
  }

  /** Each comparison checks the copy before it if flash starts at address 0, and otherwise not. */
  lemma ComparePairs(job: Job, k: nat, p: Piece)
    requires job.verify && p.at + p.upload <= |job.content|
    ensures var ops := PieceOps(job, k, p);
            ops[3].Copy? && ops[4].Compare? &&
            (ops[4].span > 0 ==> (Pairs(ops[3], ops[4]) <==> job.offset == 0))
  {
    var ops := PieceOps(job, k, p);
    if ops[4].span > 0 && job.offset != 0 {
      assert !PairedAt(ops[3], ops[4], ops[4].dst);
    }
  }

  predicate Compares(op: Op, a: nat)
  {
    op.Compare? && op.dst <= a < op.dst + op.span
  }

  /** Every byte of a tiled part of the image from address 64 on lies in some comparison. */
  lemma {:induction false} PiecesCompared(job: Job, k: nat, ps: seq<Piece>, at: nat, end: nat, limit: nat, a: nat)
    requires job.verify && Tiled(ps, at, end, limit, |job.content|)
    requires forall i | 0 <= i < |ps| :: ps[i].at + ps[i].upload <= |job.content|
    requires at <= a < end && 64 <= a
    ensures exists i :: 0 <= i < |PiecesOps(job, k, ps)| && Compares(PiecesOps(job, k, ps)[i], a)
  {
    var ops := PiecesOps(job, k, ps);
    var first, rest := PieceOps(job, k, ps[0]), PiecesOps(job, k, ps[1..]);
    if a < at + ps[0].chunk {
      assert Compares(ops[4], a);
    } else {
      PiecesCompared(job, k, ps[1..], at + ps[0].chunk, end, limit, a);
      var i :| 0 <= i < |rest| && Compares(rest[i], a);
      assert ops[|first| + i] == rest[i];
    }
  }

  /** In a verifying run every image byte from address 64 on that is programmed is also compared. */
  lemma SectorCompared(job: Job, k: nat, a: nat)
    requires ValidJob(job) && k < |job.row.sectorTable| && Start(job.row, k) <= job.length && job.verify
    requires Start(job.row, k) <= a < End(job, k) && 64 <= a
    requires SectorBody(job, k) != []
    ensures exists i :: 0 <= i < |SectorOps(job, k)| && Compares(SectorOps(job, k)[i], a)
  {
    var ps := CutUp(job, k);
    PiecesCompared(job, k, ps, Start(job.row, k), End(job, k), Start(job.row, k + 1), a);
    var body := SectorBody(job, k);
    var i :| 0 <= i < |body| && Compares(body[i], a);
    assert SectorOps(job, k)[|SectorHead(job, k)| + i] == body[i];
  }

  // ---------------------------------------------------------------- what a completed verifying run proves

  /** Cells `lo` up to `hi` hold the image, apart from the first 64 cells of flash. */
  ghost predicate Vouched(job: Job, flash: seq<byte>, lo: nat, hi: nat)
  {
    hi <= |flash| && hi <= |job.content| && forall x | lo <= x < hi && 64 <= x :: flash[x] == job.content[x]
  }

  /** A verifying job at address 0 and a device for it, sound or not. */
  predicate Checking(job: Job, m: Memory)
  {
    ValidJob(job) && ForDevice(job, m) && job.verify && job.offset == 0
  }

  lemma PieceVouched(job: Job, k: nat, p: Piece, m: Memory, capacity: nat) returns (r: Memory)
    requires job.verify && job.offset == 0 && m.base == 0 && m.ramBase == RamBase(job.row.variant)
    requires p.chunk <= p.upload && p.chunk <= p.count && p.at + p.upload <= |job.content|
    requires p.at + p.count <= |m.flash|
    requires LegalRun(job.row, capacity, m, PieceOps(job, k, p))
    ensures r == Run(job.row, m, PieceOps(job, k, p)) && SameDevice(m, r)
    ensures Vouched(job, r.flash, p.at, p.at + p.chunk)
  {
    var ops := PieceOps(job, k, p);
    r := PieceCopies(job, k, p, m);
    PieceEnds(job, k, p, m);
    assert ops[..5] == ops;
    LegalSnoc(job.row, capacity, m, ops, 4);
    VouchedByCompare(job, p, Loaded(job, k, p, m), r, k, m, capacity);
  }

  lemma VouchedByCompare(job: Job, p: Piece, loaded: Memory, r: Memory, k: nat, m: Memory, capacity: nat)
    requires job.offset == 0 && p.at + p.upload <= |job.content|
    requires p.chunk <= p.upload && p.chunk <= p.count && p.at + p.count <= |m.flash|
    requires loaded == Loaded(job, k, p, m) && m.base == 0 && m.ramBase == RamBase(job.row.variant)
    requires r == Copied(loaded, p.at, 0, p.count) && Legal(job.row, capacity, r, CompareOp(job, p.at, p.count))
    ensures Vouched(job, r.flash, p.at, p.at + p.chunk)
  {
    hide ProgramCells, RamAt, CompareOp, Legal;
    forall x: nat | p.at <= x < p.at + p.chunk && 64 <= x
      ensures r.flash[x] == job.content[x]
    {
      CellCompared(job, p, r, capacity, x);
      RamHolds(job, p, m.ram, x);
    }
  }

  lemma CellCompared(job: Job, p: Piece, r: Memory, capacity: nat, x: nat)
    requires p.at <= x < p.at + p.count <= |r.flash| && 64 <= x && r.base == 0 && r.ramBase == RamBase(job.row.variant)
    requires Legal(job.row, capacity, r, CompareOp(job, p.at, p.count))
    ensures r.flash[x] == RamAt(r.ram, x - p.at)
  {
    var op := CompareOp(job, p.at, p.count);
    assert ReadByte(r, x) == Some(RamAt(r.ram, op.src - r.ramBase + (x - op.dst)));
    assert op.src - r.ramBase + (x - op.dst) == x - p.at;
  }

  lemma RamHolds(job: Job, p: Piece, ram: seq<byte>, x: nat)
    requires p.at + p.upload <= |job.content| && p.at <= x < p.at + p.upload
    ensures RamAt(Overlay(ram, job.content[p.at..p.at + p.upload]), x - p.at) == job.content[x]
  {
    var data := job.content[p.at..p.at + p.upload];
    assert Overlay(ram, data)[x - p.at] == data[x - p.at];
  }

  lemma {:induction false} PiecesVouched(job: Job, k: nat, ps: seq<Piece>, at: nat, end: nat, limit: nat,
                                         m: Memory, capacity: nat)
    requires job.verify && job.offset == 0 && m.base == 0 && m.ramBase == RamBase(job.row.variant)
    requires Tiled(ps, at, end, limit, |job.content|) && limit <= |m.flash| && end <= |job.content|
    requires at <= end <= limit
    requires forall i | 0 <= i < |ps| :: ps[i].at + ps[i].upload <= |job.content|
    requires LegalRun(job.row, capacity, m, PiecesOps(job, k, ps))
    ensures Vouched(job, Run(job.row, m, PiecesOps(job, k, ps)).flash, at, end)
  {
    if ps != [] {
      var p, first, rest := ps[0], PieceOps(job, k, ps[0]), PiecesOps(job, k, ps[1..]);
      LegalConcat(job.row, capacity, m, first, rest);
      RunConcat(job.row, m, first, rest);
      var between := PieceVouched(job, k, p, m, capacity);
      PiecesVouched(job, k, ps[1..], at + p.chunk, end, limit, between, capacity);
      assert rest[..|rest|] == rest;
      LaterPieces(job, k, ps, at, end, limit, between, |rest|, Run(job.row, between, rest));
    }
  }

  lemma SectorVouched(job: Job, k: nat, m: Memory, capacity: nat) returns (r: Memory)
    requires Checking(job, m) && k < job.row.flashSectors && Start(job.row, k) < job.length
    requires job.wipe || k == 0 ==> BlankIn(m.flash, Start(job.row, k), Start(job.row, k + 1))
    requires LegalRun(job.row, capacity, m, SectorOps(job, k))
    ensures r == Run(job.row, m, SectorOps(job, k)) && SameDevice(m, r)
    ensures Vouched(job, r.flash, Start(job.row, k), End(job, k))
    ensures forall x: nat | x < |m.flash| && !(Start(job.row, k) <= x < Start(job.row, k + 1)) ::
              r.flash[x] == m.flash[x]
  {
    var head, body := SectorHead(job, k), SectorBody(job, k);
    LegalConcat(job.row, capacity, m, head, body);
    RunConcat(job.row, m, head, body);
    assert head[..|head|] == head;
    var ready := HeadRun(job, k, m, |head|);
    BodyVouched(job, k, ready, capacity);
    r := Run(job.row, m, SectorOps(job, k));
    assert SectorOps(job, k)[..|SectorOps(job, k)|] == SectorOps(job, k);
    SectorFrame(job, k, m, |SectorOps(job, k)|, r);
  }

  lemma BodyVouched(job: Job, k: nat, m: Memory, capacity: nat)
    requires Checking(job, m) && k < job.row.flashSectors && Start(job.row, k) < job.length
    requires BlankIn(m.flash, Start(job.row, k), Start(job.row, k + 1))
    requires LegalRun(job.row, capacity, m, SectorBody(job, k))
    ensures Vouched(job, Run(job.row, m, SectorBody(job, k)).flash, Start(job.row, k), End(job, k))
  {
    hide LegalRun, PiecesOps, Pieces;
    var start, end, limit := Start(job.row, k), Start(job.row, k) + SectorLength(job, k), Start(job.row, k + 1);
    StartMono(job.row, k + 1, job.row.flashSectors);
    if OnlyBlank(job.content[start..end]) {
      BlankPart(job, start, end, m.flash);
    } else {
      var ps := CutUp(job, k);
      PiecesVouched(job, k, ps, start, end, limit, m, capacity);
    }
  }

  /** One sector of the climb, and what the next one finds. */
  lemma ClimbVouched(job: Job, k: nat, m: Memory, capacity: nat) returns (r: Memory)
    requires Checking(job, m) && 1 <= k < job.row.flashSectors && Start(job.row, k) < job.length
    requires job.wipe ==> BlankIn(m.flash, Start(job.row, k), FlashSize(job.row))
    requires LegalRun(job.row, capacity, m, Upward(job, k))
    ensures r == Run(job.row, m, SectorOps(job, k)) && LegalRun(job.row, capacity, r, Upward(job, k + 1))
    ensures SameDevice(m, r) && Vouched(job, r.flash, Start(job.row, k), End(job, k))
    ensures job.wipe ==> BlankIn(r.flash, Start(job.row, k + 1), FlashSize(job.row))
    ensures forall x: nat | x < Start(job.row, k) && x < |m.flash| :: r.flash[x] == m.flash[x]
  {
    hide SectorOps, LegalRun;
    StartMono(job.row, k + 1, job.row.flashSectors);
    LegalConcat(job.row, capacity, m, SectorOps(job, k), Upward(job, k + 1));
    r := SectorVouched(job, k, m, capacity);
  }

  lemma {:induction false} UpwardVouched(job: Job, k: nat, m: Memory, capacity: nat) returns (r: Memory)
    requires Checking(job, m) && 1 <= k <= job.row.flashSectors
    requires job.wipe ==> BlankIn(m.flash, Start(job.row, k), FlashSize(job.row))
    requires LegalRun(job.row, capacity, m, Upward(job, k))
    ensures r == Run(job.row, m, Upward(job, k)) && SameDevice(m, r)
    ensures Vouched(job, r.flash, Start(job.row, k), Min(FlashSize(job.row), job.length))
    ensures forall x: nat | x < Start(job.row, k) && x < |m.flash| :: r.flash[x] == m.flash[x]
    decreases job.row.flashSectors - k
  {
    hide SectorOps, LegalRun;
    if k < job.row.flashSectors && Start(job.row, k) < job.length {
      var between := ClimbVouched(job, k, m, capacity);
      r := UpwardVouched(job, k + 1, between, capacity);
      RunConcat(job.row, m, SectorOps(job, k), Upward(job, k + 1));
    } else {
      r := m;
    }
  }

  /** However the copies of a verifying run went wrong, if the device accepted every command, the
      image is in flash from address 64 on. */
  lemma VerifiedRun(job: Job, m0: Memory, capacity: nat)
    requires Checking(job, m0) && Fits(job)
    requires LegalRun(job.row, capacity, m0, Whole(job))
    ensures Vouched(job, Run(job.row, m0, Whole(job)).flash, 0, job.length)
  {
    var opening, upward, closing := Opening(job), Upward(job, 1), Closing(job);
    VectorsFit(job.row);
    LegalConcat(job.row, capacity, m0, opening, upward + closing);
    RunConcat(job.row, m0, opening, upward + closing);
    var m1 := Opened(job, m0);
    LegalConcat(job.row, capacity, m1, upward, closing);
    RunConcat(job.row, m1, upward, closing);
    var m2 := UpwardVouched(job, 1, m1, capacity);
    ClosingVouched(job, m2, capacity);
  }

  lemma ClosingVouched(job: Job, m: Memory, capacity: nat)
    requires Checking(job, m) && Fits(job) && BlankIn(m.flash, 0, Start(job.row, 1))
    requires Vouched(job, m.flash, Start(job.row, 1), job.length)
    requires LegalRun(job.row, capacity, m, Closing(job))
    ensures Vouched(job, Run(job.row, m, Closing(job)).flash, 0, job.length)
  {
    var ops, bank := SectorOps(job, 0), if Banked(job.row.variant) then [SetBank] else [];
    LegalConcat(job.row, capacity, m, ops, bank);
    RunConcat(job.row, m, ops, bank);
    var r := SectorVouched(job, 0, m, capacity);
    assert Run(job.row, r, [SetBank]) == Step(job.row, r, SetBank);
  }

  // ---------------------------------------------------------------- flash above the compared addresses

  /** Memories that differ at most in flash contents and in the faults of copies to come. */
  predicate Alike(m: Memory, m': Memory)
  {
    m' == m.(flash := m'.flash, faults := m'.faults) && |m'.flash| == |m.flash|
  }

  /** When no comparison reaches flash, acceptance does not depend on what copies have done to it. */
  lemma {:induction false} LegalBlind(row: Row, capacity: nat, m: Memory, m': Memory, ops: seq<Op>, hi: nat)
    requires Alike(m, m') && AllWithin(row, m.base, ops, 0, hi) && hi <= m.base
    requires LegalRun(row, capacity, m, ops)
    ensures LegalRun(row, capacity, m', ops)
    decreases |ops|
  {
    hide Step, Legal, Within;
    if ops != [] {
      RestWithin(row, m.base, ops, hi);
      StepBlind(row, capacity, m, m', ops[0], hi);
      LegalBlind(row, capacity, Step(row, m, ops[0]), Step(row, m', ops[0]), ops[1..], hi);
    }
  }

  lemma RestWithin(row: Row, base: nat, ops: seq<Op>, hi: nat)
    requires ops != [] && AllWithin(row, base, ops, 0, hi)
    ensures Within(row, base, ops[0], 0, hi) && AllWithin(row, base, ops[1..], 0, hi)
  {
    forall i | 0 <= i < |ops[1..]|
      ensures Within(row, base, ops[1..][i], 0, hi)
    {
      assert Within(row, base, ops[i + 1], 0, hi);
    }
  }

  lemma StepBlind(row: Row, capacity: nat, m: Memory, m': Memory, op: Op, hi: nat)
    requires Alike(m, m') && Within(row, m.base, op, 0, hi) && hi <= m.base && Legal(row, capacity, m, op)
    ensures Legal(row, capacity, m', op)
    ensures Alike(Step(row, m, op), Step(row, m', op)) && Step(row, m, op).base == m.base
  {
    hide Matches, ProgramCells, EraseCells, Permitted;
    if op.Compare? {
      ComparesBlind(m, m', op, hi);
    }
  }

  /** Below flash a comparison reads the same in both memories. */
  lemma ComparesBlind(m: Memory, m': Memory, op: Op, hi: nat)
    requires Alike(m, m') && op.Compare? && op.dst + op.span <= hi <= m.base && Matches(m, op.dst, op.src, op.span)
    ensures Matches(m', op.dst, op.src, op.span)
  {
    forall a: int | op.dst <= a < op.dst + op.span
      ensures ReadByte(m', a) == Some(RamAt(m'.ram, op.src - m'.ramBase + (a - op.dst)))
    {
      assert ReadByte(m, a) == Some(RamAt(m.ram, op.src - m.ramBase + (a - op.dst)));
    }
  }

  predicate AllFaulty(m: Memory, n: nat, fault: map<nat, byte>)
  {
    n <= |m.faults| && forall i | 0 <= i < |m.faults| :: m.faults[i] == fault
  }

  lemma {:induction false} FaultsLast(row: Row, m: Memory, ops: seq<Op>, n: nat, fault: map<nat, byte>)
    requires AllFaulty(m, n + |ops|, fault)
    ensures AllFaulty(Run(row, m, ops), n, fault)
    decreases |ops|
  {
    if ops != [] {
      FaultsLast(row, Step(row, m, ops[0]), ops[1..], n, fault);
    }
  }

  lemma {:induction false} FaultyCell(flash: seq<byte>, at: int, ram: seq<byte>, from: int, count: nat,
                                      fault: map<nat, byte>, x: nat)
    requires x < |flash| && at <= x < at + count && x in fault
    ensures ProgramCells(flash, at, ram, from, count, fault)[x] == fault[x]
    decreases count
  {
    if x < at + count - 1 {
      FaultyCell(flash, at, ram, from, count - 1, fault, x);
    }
  }

  function BeforeCopy(job: Job, p: Piece): seq<Op>
    requires ValidJob(job) && p.at + p.upload <= |job.content|
  {
    ((Opening(job) + Upward(job, 1)) + SectorHead(job, 0)) + PieceOps(job, 0, p)[..3]
  }

  function AfterCopy(job: Job, p: Piece, rest: seq<Op>): seq<Op>
  {
    (if job.verify then [CompareOp(job, p.at, p.count)] else [])
    + (rest + (if Banked(job.row.variant) then [SetBank] else []))
  }

  lemma AroundCopy(job: Job, p: Piece, rest: seq<Op>)
    requires ValidJob(job) && Fits(job) && p.at + p.upload <= |job.content|
    requires SectorBody(job, 0) == PieceOps(job, 0, p) + rest
    ensures Whole(job) ==
            BeforeCopy(job, p)
            + ([Copy(job.offset + p.at, RamBase(job.row.variant), p.count)] + AfterCopy(job, p, rest))
  {
    var copy := Copy(job.offset + p.at, RamBase(job.row.variant), p.count);
    var load, tail := PieceOps(job, 0, p)[..3], if job.verify then [CompareOp(job, p.at, p.count)] else [];
    assert PieceOps(job, 0, p) == (load + [copy]) + tail;
    SingleOut(Opening(job), Upward(job, 1), SectorHead(job, 0), load, copy, tail, rest,
              if Banked(job.row.variant) then [SetBank] else []);
  }

  lemma AfterWithin(job: Job, ps: seq<Piece>, end: nat, lo: nat)
    requires ValidJob(job) && ps != [] && Tiled(ps, 0, end, Start(job.row, 1), |job.content|) && lo <= ps[0].chunk
    requires forall i | 0 <= i < |ps| :: ps[i].at + ps[i].upload <= |job.content|
    ensures AllWithin(job.row, job.offset, AfterCopy(job, ps[0], PiecesOps(job, 0, ps[1..])), lo, FlashSize(job.row))
  {
    var rest, hi := PiecesOps(job, 0, ps[1..]), FlashSize(job.row);
    var bank := if Banked(job.row.variant) then [SetBank] else [];
    VectorsFit(job.row);
    PiecesWithin(job, 0, ps[1..], ps[0].chunk, end, Start(job.row, 1));
    Widen(job.row, job.offset, rest, ps[0].chunk, Start(job.row, 1), lo, hi);
    WithinConcat(job.row, job.offset, rest, bank, lo, hi);
    var tail := if job.verify then [CompareOp(job, ps[0].at, ps[0].count)] else [];
    WithinConcat(job.row, job.offset, tail, rest + bank, lo, hi);
  }

  /** The chunks of sector 0 of a patched image. */
  lemma CutUpZero(job: Job) returns (ps: seq<Piece>)
    requires ValidJob(job) && VectorSum(job.content) == 0
    ensures ps != [] && forall i | 0 <= i < |ps| :: ps[i].at + ps[i].upload <= |job.content|
    ensures ps[0].at == 0 && ps[0].chunk == ChunkSize(job.row, SectorLength(job, 0), 0) <= ps[0].count
    ensures Tiled(ps, 0, SectorLength(job, 0), Start(job.row, 1), |job.content|)
    ensures SectorBody(job, 0) == PieceOps(job, 0, ps[0]) + PiecesOps(job, 0, ps[1..])
  {
    ps := CutUp(job, 0);
    SectorZeroProgrammed(job);
    VectorsFit(job.row);
  }

  /** The first copy to sector 0 reaches past cell 64, and nothing after it touches that cell. */
  lemma FirstCopyToZero(job: Job) returns (before: seq<Op>, copy: Op, after: seq<Op>)
    requires ValidJob(job) && Fits(job) && VectorSum(job.content) == 0
    requires 64 < job.length && 64 < job.row.maxCopySize
    ensures Whole(job) == before + ([copy] + after)
    ensures copy.Copy? && copy.dst == job.offset && copy.src == RamBase(job.row.variant) && 64 < copy.count
    ensures AllWithin(job.row, job.offset, after, 65, FlashSize(job.row)) && 64 < FlashSize(job.row)
  {
    hide Whole, SectorBody, PieceOps, PiecesOps, AllWithin, BeforeCopy, AfterCopy, Tiled;
    var ps := CutUpZero(job);
    var rest := PiecesOps(job, 0, ps[1..]);
    VectorsFit(job.row);
    SectorPast64(job);
    AroundCopy(job, ps[0], rest);
    AfterWithin(job, ps, SectorLength(job, 0), 65);
    before, after := BeforeCopy(job, ps[0]), AfterCopy(job, ps[0], rest);
    copy := Copy(job.offset + ps[0].at, RamBase(job.row.variant), ps[0].count);
  }

  lemma SectorPast64(job: Job)
    requires ValidJob(job) && 64 < job.length && 64 < job.row.maxCopySize
    ensures 64 < job.row.sectorTable[0] == Start(job.row, 1) && 64 < SectorLength(job, 0)
    ensures 64 < ChunkSize(job.row, SectorLength(job, 0), 0)
  {
    assert GoodSector(job.row, 0);
    assert Start(job.row, 1) == Start(job.row, 0) + job.row.sectorTable[0];
    MultiplesApart(0, job.row.sectorTable[0], job.row.maxCopySize);
  }

  /** When flash starts above the addresses that are compared, comparing is worth nothing: where other
      memory mirrors the image there are faulty copies under which the device still accepts every command
      of the verifying run, and flash does not hold the image from address 64 on. */
  lemma BlindComparison(job: Job, capacity: nat) returns (m0: Memory)
    requires ValidJob(job) && job.verify && FlashSize(job.row) <= job.offset
    requires Fits(job) && VectorSum(job.content) == 0 && 64 < job.length && 64 < job.row.maxCopySize
    requires Served(job, capacity)
    ensures ForDevice(job, m0) && Mirrored(job, m0.low, m0.ram) && LegalRun(job.row, capacity, m0, Whole(job))
    ensures !Vouched(job, Run(job.row, m0, Whole(job)).flash, 0, job.length)
  {
    hide Mirrored, Served;
    var fault: map<nat, byte> := map[64 := if job.content[64] == 0 then 1 else 0];
    var size := FlashSize(job.row);
    var low := MirrorExists(job, []);
    var sound := Memory(job.offset, RamBase(job.row.variant), seq(size, _ => BLANK), [], low, (0, 0), 0, []);
    m0 := sound.(faults := seq(|Whole(job)|, _ => fault));
    LegalExactly(job, sound, capacity);
    WholeWithin(job, job.row.flashSectors);
    LegalBlind(job.row, capacity, sound, m0, Whole(job), size);
    SpoiltRun(job, m0, fault);
  }

  /** That the device has accepted every command of a verifying run vouches for flash, however its copies
      went, if and only if flash starts at address 0. */
  lemma VouchesExactly(job: Job, capacity: nat)
    requires ValidJob(job) && job.verify && ClearOfFlash(job) && Fits(job) && Served(job, capacity)
    requires VectorSum(job.content) == 0 && 64 < job.length && 64 < job.row.maxCopySize
    ensures (forall m0 | ForDevice(job, m0) && LegalRun(job.row, capacity, m0, Whole(job)) ::
               Vouched(job, Run(job.row, m0, Whole(job)).flash, 0, job.length))
       <==> job.offset == 0
  {
    hide LegalRun, Whole, Vouched, Served;
    if job.offset == 0 {
      forall m0 | ForDevice(job, m0) && LegalRun(job.row, capacity, m0, Whole(job))
        ensures Vouched(job, Run(job.row, m0, Whole(job)).flash, 0, job.length)
      {
        VerifiedRun(job, m0, capacity);
      }
    } else {
      var m0 := BlindComparison(job, capacity);
    }
  }

  lemma SpoiltRun(job: Job, m0: Memory, fault: map<nat, byte>)
    requires ValidJob(job) && ForDevice(job, m0) && Fits(job) && VectorSum(job.content) == 0
    requires 64 < job.length && 64 < job.row.maxCopySize
    requires AllFaulty(m0, |Whole(job)|, fault) && 64 in fault
    ensures var flash := Run(job.row, m0, Whole(job)).flash;
      64 < |flash| && flash[64] == fault[64]
  {
    var before, copy, after := FirstCopyToZero(job);
    WholeWithin(job, job.row.flashSectors);
    TakeWithin(job.row, job.offset, Whole(job), |before|, 0, FlashSize(job.row));
    assert Whole(job)[..|before|] == before;
    SpoiltFrom(job.row, m0, before, copy, after, FlashSize(job.row), fault);
  }

  lemma SpoiltFrom(row: Row, m0: Memory, before: seq<Op>, copy: Op, after: seq<Op>, size: nat, fault: map<nat, byte>)
    requires AllFaulty(m0, |before| + 1, fault) && 64 in fault && 64 < |m0.flash| == size
    requires copy.Copy? && copy.dst == m0.base && copy.src == m0.ramBase && 64 < copy.count
    requires AllWithin(row, m0.base, before, 0, size) && AllWithin(row, m0.base, after, 65, size)
    ensures var flash := Run(row, m0, before + ([copy] + after)).flash;
      64 < |flash| && flash[64] == fault[64]
  {
    hide ProgramCells, EraseCells;
    RunFrame(row, m0, before, 0, size);
    FaultsLast(row, m0, before, 1, fault);
    var m1 := Run(row, m0, before);
    FaultyCell(m1.flash, 0, m1.ram, 0, copy.count, fault, 64);
    RunFrame(row, Step(row, m1, copy), after, 65, size);
    RunConcat(row, m0, before, [copy] + after);
    assert ([copy] + after)[1..] == after;
  }

  // ---------------------------------------------------------------- flash inside the compared addresses

  /** The first comparison in sector 0 of an accepted run, when its addresses lie in flash. */
  lemma FirstComparison(job: Job, m0: Memory, capacity: nat, x: nat)
    requires ValidJob(job) && ForDevice(job, m0) && m0.faults == [] && Fits(job) && VectorSum(job.content) == 0
    requires job.verify && LegalRun(job.row, capacity, m0, Whole(job))
    requires job.offset <= 64 <= x < ChunkSize(job.row, SectorLength(job, 0), 0)
    ensures job.content[x - job.offset] == job.content[x]
  {
    var ps := CutUpZero(job);
    VectorsFit(job.row);
    var m := Climbed(job, m0);
    var upward := Upward(job, 1);
    LegalConcat(job.row, capacity, m0, Opening(job), upward + Closing(job));
    LegalConcat(job.row, capacity, Run(job.row, m0, Opening(job)), upward, Closing(job));
    var bank := if Banked(job.row.variant) then [SetBank] else [];
    LegalConcat(job.row, capacity, m, SectorOps(job, 0), bank);
    LegalConcat(job.row, capacity, m, SectorHead(job, 0), SectorBody(job, 0));
    assert SectorHead(job, 0)[..1] == SectorHead(job, 0);
    var ready := HeadRun(job, 0, m, 1);
    LegalConcat(job.row, capacity, ready, PieceOps(job, 0, ps[0]), PiecesOps(job, 0, ps[1..]));
    PieceCompared(job, ps[0], ready, capacity, x);
  }

  lemma PieceCompared(job: Job, p: Piece, m: Memory, capacity: nat, x: nat)
    requires p.at == 0 && p.chunk <= p.upload && p.chunk <= p.count && p.at + p.upload <= |job.content|
    requires m.base == job.offset && m.ramBase == RamBase(job.row.variant) && m.faults == []
    requires BlankIn(m.flash, 0, p.chunk) && job.verify && LegalRun(job.row, capacity, m, PieceOps(job, 0, p))
    requires job.offset <= 64 <= x < p.chunk && p.count <= job.offset + |m.flash|
    ensures job.content[x - job.offset] == job.content[x]
  {
    var ops := PieceOps(job, 0, p);
    var r := PieceCopies(job, 0, p, m);
    LegalAt(job.row, capacity, m, ops, 4);
    CopyHolds(job, 0, p, m);
    RamHolds(job, p, m.ram, x);
    ShiftedCell(job, p, r, capacity, x);
  }

  lemma ShiftedCell(job: Job, p: Piece, r: Memory, capacity: nat, x: nat)
    requires p.at == 0 && r.base == job.offset && r.ramBase == RamBase(job.row.variant)
    requires job.offset <= 64 <= x < p.count <= job.offset + |r.flash|
    requires Legal(job.row, capacity, r, CompareOp(job, 0, p.count))
    ensures r.flash[x - job.offset] == RamAt(r.ram, x)
  {
    var op := CompareOp(job, 0, p.count);
    assert ReadByte(r, x) == Some(RamAt(r.ram, op.src - r.ramBase + (x - op.dst)));
  }
}
