/** The main results about whole and interrupted runs on sound flash. */
module Runs {
  import opened Bytes
  import opened Device
  import opened Plan
  import opened Frames
  import opened Safety
  import opened VectorTable

  /** The memory when the first `n` commands of the run have taken effect. */
  function StateAfter(job: Job, m0: Memory, n: nat): Memory
    requires ValidJob(job) && n <= |Whole(job)|
  {
    Run(job.row, m0, Whole(job)[..n])
  }

  lemma {:induction false} SoundStays(row: Row, m: Memory, ops: seq<Op>)
    requires m.faults == []
    ensures Run(row, m, ops).faults == []
    decreases |ops|
  {
    if ops != [] {
      SoundStays(row, Step(row, m, ops[0]), ops[1..]);
    }
  }

  /** Stopped anywhere, the climb has left everything below its first sector alone. */
  lemma ClimbFrame(job: Job, k: nat, m: Memory, n: nat) returns (r: Memory)
    requires ValidJob(job) && m.base == job.offset && k <= job.row.flashSectors && n <= |Upward(job, k)|
    ensures r == Run(job.row, m, Upward(job, k)[..n]) && SameDevice(m, r) && (m.faults == [] ==> r.faults == [])
    ensures forall x: nat | x < Start(job.row, k) && x < |m.flash| :: r.flash[x] == m.flash[x]
  {
    var ops := Upward(job, k);
    r := Run(job.row, m, ops[..n]);
    UpwardWithin(job, k, job.row.flashSectors);
    TakeWithin(job.row, job.offset, ops, n, Start(job.row, k), FlashSize(job.row));
    RunFrame(job.row, m, ops[..n], Start(job.row, k), FlashSize(job.row));
    if m.faults == [] {
      SoundStays(job.row, m, ops[..n]);
    }
  }

  /** Sector `k` complete and nothing else changed. */
  lemma SectorDone(job: Job, k: nat, m: Memory) returns (r: Memory)
    requires ValidJob(job) && ForDevice(job, m) && 1 <= k < job.row.flashSectors && m.faults == []
    requires Start(job.row, k) < job.length
    requires job.wipe ==> BlankIn(m.flash, Start(job.row, k), FlashSize(job.row))
    ensures r == Run(job.row, m, SectorOps(job, k))
    ensures r.faults == [] && SameDevice(m, r) && Holds(job, r.flash, Start(job.row, k), End(job, k))
    ensures forall x: nat | x < Start(job.row, k) && x < |m.flash| :: r.flash[x] == m.flash[x]
    ensures job.wipe ==> BlankIn(r.flash, Start(job.row, k + 1), FlashSize(job.row))
  {
    var here := SectorOps(job, k);
    assert here[..|here|] == here;
    StartMono(job.row, k + 1, job.row.flashSectors);
    r := SectorRun(job, k, m, |here|);
  }

  /** Sectors from `k` up: when all are done each holds its part, and nothing below has changed. */
  lemma {:induction false} UpwardRun(job: Job, k: nat, m: Memory) returns (r: Memory)
    requires ValidJob(job) && ForDevice(job, m) && 1 <= k <= job.row.flashSectors && m.faults == []
    requires job.wipe ==> BlankIn(m.flash, Start(job.row, k), FlashSize(job.row))
    ensures r == Run(job.row, m, Upward(job, k))
    ensures r.faults == [] && SameDevice(m, r)
    ensures Holds(job, r.flash, Start(job.row, k), Min(FlashSize(job.row), job.length))
    ensures forall x: nat | x < Start(job.row, k) && x < |m.flash| :: r.flash[x] == m.flash[x]
    decreases job.row.flashSectors - k
  {
    hide SectorOps;
    if k < job.row.flashSectors && Start(job.row, k) < job.length {
      StartMono(job.row, k + 1, job.row.flashSectors);
      var between := SectorDone(job, k, m);
      r := UpwardRun(job, k + 1, between);
      assert r == Run(job.row, m, Upward(job, k)) by {
        RunConcat(job.row, m, SectorOps(job, k), Upward(job, k + 1));
      }
    } else {
      r := m;
    }
  }

  /** The opening leaves flash as it was until it erases sector 0, or everything when wiping. */
  lemma OpeningRun(job: Job, m: Memory, n: nat) returns (r: Memory)
    requires ValidJob(job) && ForDevice(job, m) && n <= 2
    ensures r == Run(job.row, m, Opening(job)[..n])
    ensures r.faults == m.faults && SameDevice(m, r)
    ensures n < 2 ==> r.flash == m.flash
    ensures n == 2 ==> BlankIn(r.flash, 0, if job.wipe then FlashSize(job.row) else Start(job.row, 1))
  {
    var ops := Opening(job);
    VectorsFit(job.row);
    assert ops[..0] == [];
    if n >= 1 { RunSnoc(job.row, m, ops, 0); }
    if n >= 2 { RunSnoc(job.row, m, ops, 1); }
    r := Run(job.row, m, ops[..n]);
  }

  /** The memory the upward climb starts from. */
  lemma Opened(job: Job, m0: Memory) returns (r: Memory)
    requires ValidJob(job) && ForDevice(job, m0)
    ensures r == Run(job.row, m0, Opening(job)) && r.faults == m0.faults && SameDevice(m0, r)
    ensures BlankIn(r.flash, 0, if job.wipe then FlashSize(job.row) else Start(job.row, 1))
    ensures BlankIn(r.flash, 0, Start(job.row, 1))
  {
    assert Opening(job)[..2] == Opening(job);
    VectorsFit(job.row);
    r := OpeningRun(job, m0, 2);
  }

  /** The memory sector 0 is programmed in. */
  lemma Climbed(job: Job, m0: Memory) returns (r: Memory)
    requires ValidJob(job) && ForDevice(job, m0) && m0.faults == []
    ensures r == Run(job.row, Run(job.row, m0, Opening(job)), Upward(job, 1))
    ensures r.faults == [] && SameDevice(m0, r) && BlankIn(r.flash, 0, Start(job.row, 1))
    ensures Holds(job, r.flash, Start(job.row, 1), Min(FlashSize(job.row), job.length))
  {
    VectorsFit(job.row);
    var ready := Opened(job, m0);
    r := UpwardRun(job, 1, ready);
  }

  lemma ClosingRun(job: Job, m: Memory, n: nat) returns (r: Memory)
    requires ValidJob(job) && ForDevice(job, m) && m.faults == [] && n <= |Closing(job)|
    requires BlankIn(m.flash, 0, Start(job.row, 1)) && Fits(job)
    requires Holds(job, m.flash, Start(job.row, 1), job.length)
    ensures r == Run(job.row, m, Closing(job)[..n])
    ensures SameDevice(m, r) && Holds(job, r.flash, Start(job.row, 1), job.length)
    ensures Stored(job, 0, Min(job.row.maxCopySize, End(job, 0)), End(job, 0), m.flash, r.flash)
    ensures n == |Closing(job)| ==> Holds(job, r.flash, 0, End(job, 0))
  {
    var ops, bank := SectorOps(job, 0), if Banked(job.row.variant) then [SetBank] else [];
    VectorsFit(job.row);
    RunTake(job.row, m, ops, bank, n);
    assert ops[..|ops|] == ops;
    r := SectorRun(job, 0, m, if n <= |ops| then n else |ops|);
    if n > |ops| {
      assert bank[..n - |ops|] == [SetBank];
      assert Run(job.row, r, [SetBank]) == Step(job.row, r, SetBank);
    }
  }

  // ---------------------------------------------------------------- the three phases of a run

  /** Up to the end of the climb: flash is untouched before the second command, and after it sector 0 is blank. */
  lemma EarlyPhase(job: Job, m0: Memory, n: nat) returns (r: Memory)
    requires ValidJob(job) && ForDevice(job, m0) && m0.faults == [] && n <= 2 + |Upward(job, 1)|
    ensures n <= |Whole(job)| && r == StateAfter(job, m0, n) && |r.flash| == FlashSize(job.row)
    ensures n < 2 ==> r.flash == m0.flash
    ensures n >= 2 ==> BlankIn(r.flash, 0, Start(job.row, 1))
  {
    hide Upward, Closing, GoodSector, Run;
    var opening, upward, closing := Opening(job), Upward(job, 1), Closing(job);
    RunTake(job.row, m0, opening, upward + closing, n);
    VectorsFit(job.row);
    if n <= 2 {
      r := OpeningRun(job, m0, n);
    } else {
      var ready := Opened(job, m0);
      r := ClimbFrame(job, 1, ready, n - 2);
      assert (upward + closing)[..n - 2] == upward[..n - 2];
    }
  }

  /** From the end of the climb on, for an image that fits: the sectors above 0 hold their parts. */
  lemma LatePhase(job: Job, m0: Memory, n: nat) returns (before: Memory, r: Memory)
    requires ValidJob(job) && ForDevice(job, m0) && m0.faults == [] && Fits(job)
    requires 2 + |Upward(job, 1)| <= n <= |Whole(job)|
    ensures r == StateAfter(job, m0, n) && |r.flash| == FlashSize(job.row)
    ensures BlankIn(before.flash, 0, Start(job.row, 1)) && Holds(job, r.flash, Start(job.row, 1), job.length)
    ensures Stored(job, 0, Min(job.row.maxCopySize, End(job, 0)), End(job, 0), before.flash, r.flash)
    ensures n == |Whole(job)| ==> Holds(job, r.flash, 0, End(job, 0))
  {
    before := Climbed(job, m0);
    RunThird(job.row, m0, Opening(job), Upward(job, 1), Closing(job), n);
    r := ClosingRun(job, before, n - |Opening(job)| - |Upward(job, 1)|);
  }

  // ---------------------------------------------------------------- main results

  /** A complete run of an image that fits leaves the whole patched image in flash. */
  lemma EndToEnd(job: Job, m0: Memory)
    requires ValidJob(job) && ForDevice(job, m0) && m0.faults == [] && Fits(job)
    ensures Holds(job, Run(job.row, m0, Whole(job)).flash, 0, job.length)
  {
    assert Whole(job)[..|Whole(job)|] == Whole(job);
    VectorsFit(job.row);
    var _, _ := LatePhase(job, m0, |Whole(job)|);
  }

  /** Wherever a run stops: nothing has been erased; or sector 0 is blank and its vector table
      invalid; or every sector above 0 that the image needs holds its part. */
  ghost predicate SafeStop(job: Job, before: seq<byte>, flash: seq<byte>)
    requires ValidJob(job) && |flash| == FlashSize(job.row)
  {
    VectorsFit(job.row);
    || flash == before
    || (BlankIn(flash, 0, Start(job.row, 1)) && VectorSum(flash) != 0)
    || (Fits(job) && Holds(job, flash, Start(job.row, 1), job.length))
  }

  lemma InterruptionSafe(job: Job, m0: Memory, n: nat)
    requires ValidJob(job) && ForDevice(job, m0) && m0.faults == [] && n <= |Whole(job)|
    ensures |StateAfter(job, m0, n).flash| == FlashSize(job.row)
    ensures SafeStop(job, m0.flash, StateAfter(job, m0, n).flash)
  {
    VectorsFit(job.row);
    if n <= 2 + |Upward(job, 1)| {
      var r := EarlyPhase(job, m0, n);
      if n >= 2 {
        BlankVectorInvalid(r.flash);
      }
    } else {
      var _, _ := LatePhase(job, m0, n);
    }
  }

  /** Cells of sectors the image does not reach are what they were. */
  ghost predicate Untouched(job: Job, before: seq<byte>, after: seq<byte>)
    requires ValidJob(job) && |before| == |after|
  {
    forall k: nat, x: nat | k <= job.row.flashSectors && job.length <= Start(job.row, k) <= x < |after| ::
      after[x] == before[x]
  }

  /** Wherever a run that does not wipe stops, even on faulty flash, it has left the sectors alone that
      the image does not reach. */
  lemma UnmetSectorsKept(job: Job, m0: Memory, n: nat)
    requires ValidJob(job) && m0.base == job.offset && !job.wipe && n <= |Whole(job)|
    ensures |StateAfter(job, m0, n).flash| == |m0.flash|
    ensures Untouched(job, m0.flash, StateAfter(job, m0, n).flash)
  {
    CutFrame(job, m0, n, job.row.flashSectors);
    forall k: nat, x: nat | k <= job.row.flashSectors && job.length <= Start(job.row, k) <= x < |m0.flash|
      ensures StateAfter(job, m0, n).flash[x] == m0.flash[x]
    {
      CutFrame(job, m0, n, k);
    }
  }

  lemma CutFrame(job: Job, m0: Memory, n: nat, top: nat)
    requires ValidJob(job) && m0.base == job.offset && !job.wipe && n <= |Whole(job)|
    requires top == job.row.flashSectors || (top < job.row.flashSectors && job.length <= Start(job.row, top))
    ensures var r := StateAfter(job, m0, n);
      |r.flash| == |m0.flash| && forall x: nat | Start(job.row, top) <= x < |m0.flash| :: r.flash[x] == m0.flash[x]
  {
    WholeWithin(job, top);
    TakeWithin(job.row, job.offset, Whole(job), n, 0, Start(job.row, top));
    RunFrame(job.row, m0, Whole(job)[..n], 0, Start(job.row, top));
  }

  /** Cells of sectors the image does not reach are erased. */
  ghost predicate Cleared(job: Job, flash: seq<byte>)
    requires ValidJob(job)
  {
    forall k: nat, x: nat | k <= job.row.flashSectors && job.length <= Start(job.row, k) <= x < |flash| ::
      flash[x] == 0xFF
  }

  /** Wherever a run that wipes stops after the erase, even on faulty flash, the sectors that the image does
      not reach are erased. */
  lemma UnmetSectorsCleared(job: Job, m0: Memory, n: nat)
    requires ValidJob(job) && ForDevice(job, m0) && job.wipe && 2 <= n <= |Whole(job)|
    ensures Cleared(job, StateAfter(job, m0, n).flash)
  {
    hide Upward, Closing, GoodSector, Step;
    var m := Opened(job, m0);
    var rest := Upward(job, 1) + Closing(job);
    RunTake(job.row, m0, Opening(job), rest, n);
    assert Opening(job)[..2] == Opening(job);
    if n == 2 {
      assert StateAfter(job, m0, n) == m;
    }
    SizeKept(job.row, m, rest[..n - 2]);
    forall k: nat, x: nat | k <= job.row.flashSectors && job.length <= Start(job.row, k) <= x < FlashSize(job.row)
      ensures StateAfter(job, m0, n).flash[x] == 0xFF
    {
      RestFrame(job, m, n - 2, k);
    }
  }

  lemma {:induction false} SizeKept(row: Row, m: Memory, ops: seq<Op>)
    ensures |Run(row, m, ops).flash| == |m.flash|
    decreases |ops|
  {
    if ops != [] {
      SizeKept(row, Step(row, m, ops[0]), ops[1..]);
    }
  }

  lemma RestFrame(job: Job, m: Memory, n: nat, top: nat)
    requires ValidJob(job) && m.base == job.offset && n <= |Upward(job, 1) + Closing(job)|
    requires top <= job.row.flashSectors && job.length <= Start(job.row, top)
    ensures var r := Run(job.row, m, (Upward(job, 1) + Closing(job))[..n]);
      |r.flash| == |m.flash| && forall x: nat | Start(job.row, top) <= x < |m.flash| :: r.flash[x] == m.flash[x]
  {
    var rest, hi := Upward(job, 1) + Closing(job), Start(job.row, top);
    StartMono(job.row, 1, top);
    UpwardWithin(job, 1, top);
    Widen(job.row, job.offset, Upward(job, 1), Start(job.row, 1), hi, 0, hi);
    ClosingWithin(job);
    Widen(job.row, job.offset, Closing(job), 0, Start(job.row, 1), 0, hi);
    WithinConcat(job.row, job.offset, Upward(job, 1), Closing(job), 0, hi);
    TakeWithin(job.row, job.offset, rest, n, 0, hi);
    RunFrame(job.row, m, rest[..n], 0, hi);
  }

  // ---------------------------------------------------------------- when a valid table means a complete image

  /** Image bytes of sector 0 that a single copy does not reach are all 0xFF. */
  predicate OneCopyEnough(job: Job)
    requires ValidJob(job)
  {
    forall a | job.row.maxCopySize <= a < End(job, 0) :: job.content[a] == BLANK
  }

  /** A valid vector table means the whole image is there. */
  ghost predicate CompleteIfValid(job: Job, flash: seq<byte>)
    requires ValidJob(job) && |flash| == FlashSize(job.row)
  {
    VectorsFit(job.row);
    VectorSum(flash) == 0 ==> Holds(job, flash, 0, job.length)
  }

  ghost predicate ValidMeansComplete(job: Job, m0: Memory, n: nat)
    requires ValidJob(job) && ForDevice(job, m0) && m0.faults == [] && n <= |Whole(job)|
  {
    InterruptionSafe(job, m0, n);
    CompleteIfValid(job, StateAfter(job, m0, n).flash)
  }

  lemma OneCopyCompletes(job: Job, before: seq<byte>, after: seq<byte>)
    requires ValidJob(job) && OneCopyEnough(job) && |after| == FlashSize(job.row) >= VECTOR_BYTES
    requires BlankIn(before, 0, Start(job.row, 1)) && Holds(job, after, Start(job.row, 1), job.length)
    requires Stored(job, 0, Min(job.row.maxCopySize, End(job, 0)), End(job, 0), before, after)
    requires VectorSum(after) == 0
    ensures Holds(job, after, 0, job.length)
  {
    VectorsFit(job.row);
    if after == before {
      BlankVectorInvalid(after);
    }
  }

  lemma OneCopySuffices(job: Job, m0: Memory, n: nat)
    requires ValidJob(job) && ForDevice(job, m0) && m0.faults == [] && 2 <= n <= |Whole(job)|
    requires Fits(job) ==> OneCopyEnough(job)
    ensures ValidMeansComplete(job, m0, n)
  {
    VectorsFit(job.row);
    if n <= 2 + |Upward(job, 1)| {
      var r := EarlyPhase(job, m0, n);
      BlankVectorInvalid(r.flash);
    } else {
      var before, r := LatePhase(job, m0, n);
      if VectorSum(r.flash) == 0 {
        OneCopyCompletes(job, before.flash, r.flash);
      }
    }
  }

  /** The stop that breaks it: sector 0's first copy is done and a later one is still missing. */
  lemma TooEarly(job: Job, m0: Memory, a: nat) returns (n: nat)
    requires ValidJob(job) && ForDevice(job, m0) && m0.faults == [] && Fits(job)
    requires VECTORS <= job.row.maxCopySize && VectorSum(job.content) == 0
    requires job.row.maxCopySize <= a < End(job, 0) && job.content[a] != BLANK
    ensures 2 <= n <= |Whole(job)| && !ValidMeansComplete(job, m0, n)
  {
    hide PiecesOps;
    var limit := Start(job.row, 1);
    VectorsFit(job.row);
    FirstPieceFull(job, a);
    var ps := Pieces(job, 0, 0);
    n := 2 + |Upward(job, 1)| + 5;
    ClosingStart(job, PieceOps(job, 0, ps[0]), PiecesOps(job, 0, ps[1..]));
    RunThird(job.row, m0, Opening(job), Upward(job, 1), Closing(job), n);
    var climbed := Climbed(job, m0);
    var r := FirstCopyDone(job, ps[0], climbed, limit);
    assert r == StateAfter(job, m0, n);
    VectorSumPrefix(r.flash, job.content);
    assert r.flash[a] == BLANK;
  }

  /** Preparing sector 0 and copying its first piece. */
  lemma FirstCopyDone(job: Job, p: Piece, m: Memory, limit: nat) returns (r: Memory)
    requires m.base == job.offset && m.ramBase == RamBase(job.row.variant) && m.faults == []
    requires p.chunk <= p.upload && p.chunk <= p.count && p.at + p.upload <= |job.content|
    requires p.at + p.count <= limit && BlankIn(m.flash, p.at, limit)
    ensures r == Run(job.row, m, [Prepare(0, 0)] + PieceOps(job, 0, p)[..4])
    ensures |r.flash| == |m.flash|
    ensures Holds(job, r.flash, p.at, p.at + p.chunk) && BlankIn(r.flash, p.at + p.count, limit)
  {
    var m' := Step(job.row, m, Prepare(0, 0));
    RunConcat(job.row, m, [Prepare(0, 0)], PieceOps(job, 0, p)[..4]);
    assert Run(job.row, m, [Prepare(0, 0)]) == Run(job.row, m', []);
    PieceStores(job, 0, p, m', 4, limit);
    r := Run(job.row, m', PieceOps(job, 0, p)[..4]);
  }

  lemma FullChunk(job: Job, a: nat)
    requires ValidJob(job) && job.row.maxCopySize <= a < End(job, 0)
    ensures ChunkSize(job.row, SectorLength(job, 0), 0) == job.row.maxCopySize < SectorLength(job, 0)
    ensures CopySize(job.row, UploadSize(job.row.variant, job.row.maxCopySize), SectorLength(job, 0)) ==
            job.row.maxCopySize <= Start(job.row, 1)
  {
    ChunkGeometry(job.row, 0, SectorLength(job, 0), 0);
  }

  lemma FirstPieceFull(job: Job, a: nat)
    requires ValidJob(job) && Fits(job)
    requires job.row.maxCopySize <= a < End(job, 0) && job.content[a] != BLANK
    ensures var ps := Pieces(job, 0, 0);
            && (forall i | 0 <= i < |ps| :: ps[i].at + ps[i].upload <= |job.content|)
            && ps != [] && SectorBody(job, 0) == PieceOps(job, 0, ps[0]) + PiecesOps(job, 0, ps[1..])
            && ps[0].at == 0 && ps[0].chunk == ps[0].count == job.row.maxCopySize <= ps[0].upload
            && ps[0].upload <= |job.content| && ps[0].count <= Start(job.row, 1)
  {
    hide PieceOps, CopySize, UploadSize;
    var ps := CutUp(job, 0);
    FullChunk(job, a);
    assert job.content[a] == job.content[0..End(job, 0)][a];
    assert SectorBody(job, 0) == PiecesOps(job, 0, ps);
  }

  lemma ClosingStart(job: Job, first: seq<Op>, rest: seq<Op>)
    requires ValidJob(job) && Fits(job) && SectorBody(job, 0) == first + rest && |first| >= 4
    ensures |Closing(job)| >= 5 && Closing(job)[..5] == [Prepare(0, 0)] + first[..4]
    ensures 2 + |Upward(job, 1)| + 5 <= |Whole(job)|
  {
    var bank := if Banked(job.row.variant) then [SetBank] else [];
    assert SectorHead(job, 0) == [Prepare(0, 0)];
    assert Closing(job) == ([Prepare(0, 0)] + first[..4]) + (first[4..] + rest + bank);
  }

  /** The device stays in its boot loader until the image is complete if, and for copies that take in the
      vector table only if, one copy brings in all of sector 0 that is not 0xFF, or the image is refused
      as too large. */
  lemma ValidMeansCompleteExactly(job: Job, m0: Memory)
    requires ValidJob(job) && ForDevice(job, m0) && m0.faults == [] && VectorSum(job.content) == 0
    ensures (Fits(job) ==> OneCopyEnough(job)) ==> forall n | 2 <= n <= |Whole(job)| :: ValidMeansComplete(job, m0, n)
    ensures VECTORS <= job.row.maxCopySize && (forall n | 2 <= n <= |Whole(job)| :: ValidMeansComplete(job, m0, n)) ==>
              (Fits(job) ==> OneCopyEnough(job))
  {
    if Fits(job) ==> OneCopyEnough(job) {
      forall n | 2 <= n <= |Whole(job)|
        ensures ValidMeansComplete(job, m0, n)
      {
        OneCopySuffices(job, m0, n);
      }
    } else if VECTORS <= job.row.maxCopySize {
      var a :| job.row.maxCopySize <= a < End(job, 0) && job.content[a] != BLANK;
      var n := TooEarly(job, m0, a);
    }
  }

  /** A patched image is never skipped in sector 0: a blank vector table would not be valid. */
  lemma SectorZeroProgrammed(job: Job)
    requires ValidJob(job) && VectorSum(job.content) == 0
    ensures !OnlyBlank(job.content[0..SectorLength(job, 0)]) && SectorBody(job, 0) != []
  {
    assert GoodSector(job.row, 0);
    var part := job.content[0..SectorLength(job, 0)];
    if OnlyBlank(part) {
      forall i | 0 <= i < VECTOR_BYTES
        ensures job.content[i] == BLANK
      {
        assert part[i] == job.content[i];
      }
      BlankVectorInvalid(job.content);
      assert false;
    }
    PiecesTiled(job, 0, 0);
    assert Pieces(job, 0, 0) != [];
  }
}
