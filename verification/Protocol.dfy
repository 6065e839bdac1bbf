/**
 On a sound device the numbers in the commands of a run are acceptable exactly when every sector that is
 programmed can be served, and every copy goes onto erased cells.
 */
module Protocol {
  import opened Bytes
  import opened Device
  import opened Plan
  import opened Safety
  import opened Runs

  /** What sector `k` asks of a device with `capacity` bytes of RAM: nothing if its part of the image is
      all 0xFF. Otherwise the upload and the copy of its first chunk have to fit, raw data must not end in
      the middle of a word, and a copy that is compared has to reach address 64, where comparing starts. */
  predicate SectorServed(job: Job, k: nat, capacity: nat)
    requires ValidJob(job) && k < |job.row.sectorTable| && Start(job.row, k) <= job.length
  {
    var start, length := Start(job.row, k), SectorLength(job, k);
    var upload := UploadSize(job.row.variant, ChunkSize(job.row, length, 0));
    var count := CopySize(job.row, upload, length);
    || OnlyBlank(job.content[start..start + length])
    || (&& upload <= capacity && count <= capacity
        && (job.row.variant.LPC8XX? ==> WordAligned(length))
        && (job.verify ==> 64 <= start + count))
  }

  /** Sector `k` is programmed in a run. */
  predicate Visited(job: Job, k: nat)
    requires ValidJob(job)
  {
    k < job.row.flashSectors && Start(job.row, k) < job.length && (k == 0 ==> Fits(job))
  }

  predicate Served(job: Job, capacity: nat)
    requires ValidJob(job)
  {
    forall k | 0 <= k < job.row.flashSectors && Visited(job, k) :: SectorServed(job, k, capacity)
  }

  /** How much of what a bootloader looks at counts: whether copies go to erased and prepared cells
      always does, the commands' numbers from `Sizes` on, and what comparisons find with `Contents`. */
  datatype Care = Cells | Sizes | Contents

  /** With flash at address 0 a comparison meets the cells that have just been copied. */
  predicate Comparable(job: Job, care: Care)
  {
    job.verify && care.Contents? ==> job.offset == 0
  }

  predicate Willing(job: Job, k: nat, capacity: nat, care: Care)
    requires ValidJob(job) && k < |job.row.sectorTable| && Start(job.row, k) <= job.length
  {
    Comparable(job, care) && (care.Cells? || SectorServed(job, k, capacity))
  }

  predicate CanServe(job: Job, capacity: nat, care: Care)
  {
    ValidJob(job) && Comparable(job, care) && (care.Cells? || Served(job, capacity))
  }

  /** Acceptable as far as `care` looks, and no programmed cell is programmed again. */
  ghost predicate Proper(row: Row, capacity: nat, care: Care, m: Memory, op: Op)
  {
    && (care.Cells? || Sized(row, capacity, m, op))
    && (care.Contents? && op.Compare? ==> Matches(m, op.dst, op.src, op.span))
    && (op.Copy? ==>
          && Unlocked(row, m, op.dst, op.count)
          && m.base <= op.dst && BlankIn(m.flash, op.dst - m.base, op.dst - m.base + op.count))
  }

  ghost predicate ProperRun(row: Row, capacity: nat, care: Care, m: Memory, ops: seq<Op>)
    decreases |ops|
  {
    || ops == []
    || (Proper(row, capacity, care, m, ops[0]) && ProperRun(row, capacity, care, Step(row, m, ops[0]), ops[1..]))
  }

  lemma {:induction false} ProperConcat(row: Row, capacity: nat, care: Care, m: Memory, a: seq<Op>, b: seq<Op>)
    ensures ProperRun(row, capacity, care, m, a + b)
       <==> ProperRun(row, capacity, care, m, a) && ProperRun(row, capacity, care, Run(row, m, a), b)
    decreases |a|
  {
    if a == [] {
      assert a + b == b;
    } else {
      assert (a + b)[1..] == a[1..] + b;
      ProperConcat(row, capacity, care, Step(row, m, a[0]), a[1..], b);
    }
  }

  lemma ProperSnoc(row: Row, capacity: nat, care: Care, m: Memory, ops: seq<Op>, n: nat)
    requires n < |ops| && ProperRun(row, capacity, care, m, ops[..n])
    requires Proper(row, capacity, care, Run(row, m, ops[..n]), ops[n])
    ensures ProperRun(row, capacity, care, m, ops[..n + 1])
  {
    assert ops[..n + 1] == ops[..n] + [ops[n]];
    ProperConcat(row, capacity, care, m, ops[..n], [ops[n]]);
  }

  lemma ProperAt(row: Row, capacity: nat, care: Care, m: Memory, ops: seq<Op>, n: nat)
    requires n < |ops| && ProperRun(row, capacity, care, m, ops)
    ensures Proper(row, capacity, care, Run(row, m, ops[..n]), ops[n])
  {
    assert ops == ops[..n] + ops[n..];
    ProperConcat(row, capacity, care, m, ops[..n], ops[n..]);
    assert ops[n..][0] == ops[n];
  }

  lemma {:induction false} ProperIsLegal(row: Row, capacity: nat, care: Care, m: Memory, ops: seq<Op>)
    requires care.Contents? && ProperRun(row, capacity, care, m, ops)
    ensures LegalRun(row, capacity, m, ops)
    decreases |ops|
  {
    if ops != [] {
      ProperIsLegal(row, capacity, care, Step(row, m, ops[0]), ops[1..]);
    }
  }

  // ---------------------------------------------------------------- one piece

  predicate PieceServed(job: Job, capacity: nat, care: Care, p: Piece)
  {
    && Comparable(job, care)
    && (care.Cells?
        || (&& 0 < p.upload <= capacity && p.count <= capacity && Permitted(job.row, p.count)
            && WordAligned(p.at) && WordAligned(p.upload) && WordAligned(p.count)
            && (job.verify ==> 64 <= p.at + p.count)))
  }

  lemma PieceProper(job: Job, k: nat, p: Piece, m: Memory, capacity: nat, care: Care)
    requires ValidRow(job.row) && k < job.row.flashSectors && PieceServed(job, capacity, care, p)
    requires m.base == job.offset && m.ramBase == RamBase(job.row.variant) && m.faults == [] && m.due == 0
    requires Start(job.row, k) <= p.at && p.at + p.count <= Start(job.row, k + 1) && p.at + p.upload <= |job.content|
    requires BlankIn(m.flash, p.at, p.at + p.count)
    ensures ProperRun(job.row, capacity, care, m, PieceOps(job, k, p))
    ensures Run(job.row, m, PieceOps(job, k, p)).due == 0
  {
    hide LegalRun, Sized, Proper, ProperRun, Run, PieceServed, CompareOp, BlankIn, ValidRow, Start;
    var row, ops := job.row, PieceOps(job, k, p);
    var loaded := PieceLoads(job, k, p, m, 3);
    LoadProper(job, k, p, m, capacity, care);
    CopyProper(job, k, p, loaded, capacity, care);
    ProperSnoc(row, capacity, care, m, ops, 3);
    var copied := PieceCopies(job, k, p, m);
    PieceEnds(job, k, p, m);
    if job.verify {
      CompareLegal(job, p, copied, loaded, capacity, care);
      ProperSnoc(row, capacity, care, m, ops, 4);
      assert ops[..5] == ops;
    } else {
      assert ops[..4] == ops;
    }
  }

  lemma CopyProper(job: Job, k: nat, p: Piece, m: Memory, capacity: nat, care: Care)
    requires ValidRow(job.row) && k < job.row.flashSectors && PieceServed(job, capacity, care, p)
    requires m.base == job.offset && m.ramBase == RamBase(job.row.variant) && m.due == 0 && m.unlocked == (k, k + 1)
    requires Start(job.row, k) <= p.at && p.at + p.count <= Start(job.row, k + 1)
    requires BlankIn(m.flash, p.at, p.at + p.count)
    ensures Proper(job.row, capacity, care, m, Copy(job.offset + p.at, RamBase(job.row.variant), p.count))
  {
    hide Permitted;
    assert job.offset + p.at - m.base == p.at;
    RamAligned(job.row.variant);
  }

  lemma LoadProper(job: Job, k: nat, p: Piece, m: Memory, capacity: nat, care: Care)
    requires k < job.row.flashSectors && PieceServed(job, capacity, care, p) && p.at + p.upload <= |job.content|
    requires m.ramBase == RamBase(job.row.variant) && m.due == 0
    ensures ProperRun(job.row, capacity, care, m, PieceOps(job, k, p)[..3])
  {
    var ops := PieceOps(job, k, p);
    assert ops[..3] == [ops[0], ops[1], ops[2]];
    var m1 := Step(job.row, m, ops[0]);
    var m2 := Step(job.row, m1, ops[1]);
    assert ops[..3][1..] == [ops[1], ops[2]] && [ops[1], ops[2]][1..] == [ops[2]];
    assert ProperRun(job.row, capacity, care, m2, [ops[2]]);
    assert ProperRun(job.row, capacity, care, m1, [ops[1], ops[2]]);
  }

  /** With flash at address 0, a copy onto erased cells leaves flash equal to RAM over its whole range,
      so the comparison succeeds. */
  lemma CompareLegal(job: Job, p: Piece, copied: Memory, loaded: Memory, capacity: nat, care: Care)
    requires job.verify && PieceServed(job, capacity, care, p)
    requires loaded.base == job.offset && loaded.ramBase == RamBase(job.row.variant)
    requires loaded.faults == [] && loaded.due == 0 && BlankIn(loaded.flash, p.at, p.at + p.count)
    requires copied == Copied(loaded, p.at, 0, p.count)
    ensures Proper(job.row, capacity, care, copied, CompareOp(job, p.at, p.count))
  {
    hide ProgramCells, RamAt, Matches;
    RamAligned(job.row.variant);
    if care.Contents? {
      CopyPairs(job, p, copied, loaded);
    }
  }

  lemma CopyPairs(job: Job, p: Piece, copied: Memory, loaded: Memory)
    requires loaded.base == 0 && loaded.ramBase == RamBase(job.row.variant) && loaded.faults == []
    requires BlankIn(loaded.flash, p.at, p.at + p.count) && copied == Copied(loaded, p.at, 0, p.count)
    ensures var op := CompareOp(job, p.at, p.count); Matches(copied, op.dst, op.src, op.span)
  {
    hide And, AndBits;
    var op := CompareOp(job, p.at, p.count);
    forall a: int | op.dst <= a < op.dst + op.span
      ensures ReadByte(copied, a) == Some(RamAt(copied.ram, op.src - copied.ramBase + (a - op.dst)))
    {
      assert op.src - copied.ramBase + (a - op.dst) == 0 + (a - p.at);
    }
  }

  // ---------------------------------------------------------------- pieces, sectors, runs

  lemma UploadMono(variant: Variant, a: nat, b: nat)
    requires a <= b
    ensures UploadSize(variant, a) <= UploadSize(variant, b)
  {
    if !variant.LPC8XX? && UploadSize(variant, b) < UploadSize(variant, a) {
      MultiplesApart(UploadSize(variant, b), UploadSize(variant, a), GROUP_BYTES);
    }
  }

  /** No later chunk of a sector asks for more than the first one. */
  lemma FirstAsksMost(row: Row, length: nat, offset: nat)
    requires offset <= length
    ensures var first, later := UploadSize(row.variant, ChunkSize(row, length, 0)),
                                UploadSize(row.variant, ChunkSize(row, length, offset));
            later <= first && CopySize(row, later, length) <= CopySize(row, first, length) <= row.maxCopySize
  {
    UploadMono(row.variant, ChunkSize(row, length, offset), ChunkSize(row, length, 0));
  }

  lemma NextPieceServed(job: Job, k: nat, offset: nat, capacity: nat, care: Care) returns (p: Piece)
    requires ValidJob(job) && k < job.row.flashSectors && Start(job.row, k) <= job.length
    requires Willing(job, k, capacity, care) && SectorBody(job, k) != []
    requires offset < SectorLength(job, k) && offset % job.row.maxCopySize == 0
    ensures PieceServed(job, capacity, care, p) && 0 < p.chunk
    ensures Pieces(job, k, offset) == [p] + Pieces(job, k, offset + p.chunk)
    ensures (offset + p.chunk) % job.row.maxCopySize == 0 || offset + p.chunk >= SectorLength(job, k)
  {
    hide CopySize, UploadSize, PiecesOps;
    var length := SectorLength(job, k);
    p := Pieces(job, k, offset)[0];
    FirstAsksMost(job.row, length, offset);
    ChunkGeometry(job.row, k, length, offset);
    WholeWords(job.row, k, length, offset);
    if offset > 0 {
      MultiplesApart(0, offset, job.row.maxCopySize);
    }
  }

  lemma {:induction false} PiecesServed(job: Job, k: nat, offset: nat, capacity: nat, care: Care)
    requires ValidJob(job) && k < job.row.flashSectors && Start(job.row, k) <= job.length
    requires Willing(job, k, capacity, care) && SectorBody(job, k) != []
    requires offset % job.row.maxCopySize == 0 || offset >= SectorLength(job, k)
    ensures forall i | 0 <= i < |Pieces(job, k, offset)| ::
              PieceServed(job, capacity, care, Pieces(job, k, offset)[i])
    decreases SectorLength(job, k) - offset
  {
    if offset < SectorLength(job, k) {
      var p := NextPieceServed(job, k, offset, capacity, care);
      PiecesServed(job, k, offset + p.chunk, capacity, care);
    }
  }

  lemma {:induction false} PiecesProper(job: Job, k: nat, ps: seq<Piece>, at: nat, end: nat,
                                        m: Memory, capacity: nat, care: Care)
    requires ValidRow(job.row) && k < job.row.flashSectors && Start(job.row, k) <= at
    requires m.base == job.offset && m.ramBase == RamBase(job.row.variant) && m.faults == [] && m.due == 0
    requires Tiled(ps, at, end, Start(job.row, k + 1), |job.content|)
    requires forall i | 0 <= i < |ps| :: ps[i].at + ps[i].upload <= |job.content|
    requires forall i | 0 <= i < |ps| :: PieceServed(job, capacity, care, ps[i])
    requires ps != [] ==> BlankIn(m.flash, at, Start(job.row, k + 1))
    ensures ProperRun(job.row, capacity, care, m, PiecesOps(job, k, ps))
    ensures Run(job.row, m, PiecesOps(job, k, ps)).due == 0
  {
    if ps != [] {
      var p, first, rest := ps[0], PieceOps(job, k, ps[0]), PiecesOps(job, k, ps[1..]);
      var between := PieceDone(job, k, p, m, capacity, care);
      PiecesProper(job, k, ps[1..], at + p.chunk, end, between, capacity, care);
      ProperConcat(job.row, capacity, care, m, first, rest);
      RunConcat(job.row, m, first, rest);
    }
  }

  lemma PieceDone(job: Job, k: nat, p: Piece, m: Memory, capacity: nat, care: Care) returns (r: Memory)
    requires ValidRow(job.row) && k < job.row.flashSectors && PieceServed(job, capacity, care, p)
    requires m.base == job.offset && m.ramBase == RamBase(job.row.variant) && m.faults == [] && m.due == 0
    requires Start(job.row, k) <= p.at && p.at + p.count <= Start(job.row, k + 1) && p.at + p.upload <= |job.content|
    requires p.chunk <= p.upload && p.chunk <= p.count
    requires BlankIn(m.flash, p.at, Start(job.row, k + 1))
    ensures r == Run(job.row, m, PieceOps(job, k, p)) && ProperRun(job.row, capacity, care, m, PieceOps(job, k, p))
    ensures r.base == m.base && r.ramBase == m.ramBase && r.faults == [] && r.due == 0
    ensures BlankIn(r.flash, p.at + p.count, Start(job.row, k + 1))
  {
    var ops := PieceOps(job, k, p);
    PieceProper(job, k, p, m, capacity, care);
    assert ops[..|ops|] == ops;
    PieceStores(job, k, p, m, |ops|, Start(job.row, k + 1));
    r := Run(job.row, m, ops);
  }

  lemma SectorProper(job: Job, k: nat, m: Memory, capacity: nat, care: Care)
    requires ValidJob(job) && ForDevice(job, m) && k < job.row.flashSectors && Start(job.row, k) < job.length
    requires Willing(job, k, capacity, care) && m.faults == [] && m.due == 0
    requires job.wipe || k == 0 ==> BlankIn(m.flash, Start(job.row, k), Start(job.row, k + 1))
    ensures ProperRun(job.row, capacity, care, m, SectorOps(job, k))
    ensures Run(job.row, m, SectorOps(job, k)).due == 0
  {
    var head, body := SectorHead(job, k), SectorBody(job, k);
    var m1 := HeadDone(job, k, m, capacity, care);
    BodyProper(job, k, m1, capacity, care);
    ProperConcat(job.row, capacity, care, m, head, body);
    RunConcat(job.row, m, head, body);
  }

  lemma HeadDone(job: Job, k: nat, m: Memory, capacity: nat, care: Care) returns (r: Memory)
    requires ValidJob(job) && ForDevice(job, m) && k < job.row.flashSectors && m.faults == [] && m.due == 0
    requires job.wipe || k == 0 ==> BlankIn(m.flash, Start(job.row, k), Start(job.row, k + 1))
    ensures r == Run(job.row, m, SectorHead(job, k)) && ProperRun(job.row, capacity, care, m, SectorHead(job, k))
    ensures SameDevice(m, r) && r.faults == [] && r.due == 0
    ensures BlankIn(r.flash, Start(job.row, k), Start(job.row, k + 1))
  {
    var ops := SectorHead(job, k);
    assert ops[..|ops|] == ops;
    r := HeadRun(job, k, m, |ops|);
    var m1 := Step(job.row, m, ops[0]);
    if |ops| == 2 {
      assert ops[1..] == [ops[1]];
      assert Run(job.row, m1, [ops[1]]) == Step(job.row, m1, ops[1]);
      assert ProperRun(job.row, capacity, care, m1, [ops[1]]);
    } else {
      assert ops[1..] == [];
    }
  }

  lemma BodyProper(job: Job, k: nat, m: Memory, capacity: nat, care: Care)
    requires ValidJob(job) && ForDevice(job, m) && k < job.row.flashSectors && Start(job.row, k) < job.length
    requires Willing(job, k, capacity, care) && m.faults == [] && m.due == 0
    requires BlankIn(m.flash, Start(job.row, k), Start(job.row, k + 1))
    ensures ProperRun(job.row, capacity, care, m, SectorBody(job, k))
    ensures Run(job.row, m, SectorBody(job, k)).due == 0
  {
    if SectorBody(job, k) != [] {
      var ps := CutUp(job, k);
      PiecesServed(job, k, 0, capacity, care);
      PiecesProper(job, k, ps, Start(job.row, k), Start(job.row, k) + SectorLength(job, k), m, capacity, care);
    }
  }

  /** One sector of the climb, and what the next one finds. */
  lemma ClimbStep(job: Job, k: nat, m: Memory, capacity: nat, care: Care) returns (r: Memory)
    requires ValidJob(job) && ForDevice(job, m) && 1 <= k < job.row.flashSectors && Start(job.row, k) < job.length
    requires CanServe(job, capacity, care) && m.faults == [] && m.due == 0
    requires job.wipe ==> BlankIn(m.flash, Start(job.row, k), FlashSize(job.row))
    ensures r == Run(job.row, m, SectorOps(job, k)) && ProperRun(job.row, capacity, care, m, SectorOps(job, k))
    ensures ForDevice(job, r) && r.faults == [] && r.due == 0
    ensures job.wipe ==> BlankIn(r.flash, Start(job.row, k + 1), FlashSize(job.row))
  {
    assert Visited(job, k);
    StartMono(job.row, k + 1, job.row.flashSectors);
    r := SectorDone(job, k, m);
    SectorProper(job, k, m, capacity, care);
  }

  lemma {:induction false} UpwardProper(job: Job, k: nat, m: Memory, capacity: nat, care: Care)
    requires ValidJob(job) && ForDevice(job, m) && 1 <= k <= job.row.flashSectors
    requires CanServe(job, capacity, care) && m.faults == [] && m.due == 0
    requires job.wipe ==> BlankIn(m.flash, Start(job.row, k), FlashSize(job.row))
    ensures ProperRun(job.row, capacity, care, m, Upward(job, k))
    ensures Run(job.row, m, Upward(job, k)).due == 0
    decreases job.row.flashSectors - k
  {
    hide SectorOps;
    if k < job.row.flashSectors && Start(job.row, k) < job.length {
      var between := ClimbStep(job, k, m, capacity, care);
      UpwardProper(job, k + 1, between, capacity, care);
      ProperConcat(job.row, capacity, care, m, SectorOps(job, k), Upward(job, k + 1));
      RunConcat(job.row, m, SectorOps(job, k), Upward(job, k + 1));
    }
  }

  lemma OpeningDone(job: Job, m: Memory, capacity: nat, care: Care) returns (r: Memory)
    requires ValidJob(job) && ForDevice(job, m) && m.faults == [] && m.due == 0
    ensures r == Run(job.row, m, Opening(job)) && ProperRun(job.row, capacity, care, m, Opening(job))
    ensures SameDevice(m, r) && r.faults == [] && r.due == 0
    ensures BlankIn(r.flash, 0, if job.wipe then FlashSize(job.row) else Start(job.row, 1))
  {
    var ops := Opening(job);
    r := Opened(job, m);
    assert ops[1..] == [ops[1]];
    var m1 := Step(job.row, m, ops[0]);
    assert Run(job.row, m1, [ops[1]]) == Step(job.row, m1, ops[1]);
    assert ProperRun(job.row, capacity, care, m1, [ops[1]]);
  }

  /** Every command of the run is acceptable when its turn comes, and every copy goes onto erased cells. */
  lemma RunProper(job: Job, m0: Memory, capacity: nat, care: Care)
    requires ValidJob(job) && ForDevice(job, m0) && CanServe(job, capacity, care) && m0.faults == [] && m0.due == 0
    ensures ProperRun(job.row, capacity, care, m0, Whole(job))
  {
    var opening, upward, closing := Opening(job), Upward(job, 1), Closing(job);
    VectorsFit(job.row);
    var m1 := OpeningDone(job, m0, capacity, care);
    UpwardProper(job, 1, m1, capacity, care);
    var m2 := UpwardRun(job, 1, m1);
    ClosingProper(job, m2, capacity, care);
    ProperConcat(job.row, capacity, care, m1, upward, closing);
    ProperConcat(job.row, capacity, care, m0, opening, upward + closing);
  }

  lemma ClosingProper(job: Job, m: Memory, capacity: nat, care: Care)
    requires ValidJob(job) && ForDevice(job, m) && CanServe(job, capacity, care) && m.faults == [] && m.due == 0
    requires BlankIn(m.flash, 0, Start(job.row, 1))
    ensures ProperRun(job.row, capacity, care, m, Closing(job))
  {
    if Fits(job) {
      var bank := if Banked(job.row.variant) then [SetBank] else [];
      assert Visited(job, 0);
      SectorProper(job, 0, m, capacity, care);
      ProperConcat(job.row, capacity, care, m, SectorOps(job, 0), bank);
    }
  }

  /** RAM for a largest upload is enough for every image whose raw data, if any, comes in whole words. */
  lemma RoomForAll(job: Job, capacity: nat)
    requires ValidJob(job) && UploadSize(job.row.variant, job.row.maxCopySize) <= capacity
    requires job.row.variant.LPC8XX? ==> WordAligned(job.length)
    requires job.verify ==> 64 <= job.row.maxCopySize
    ensures Served(job, capacity)
  {
    forall k | 0 <= k < job.row.flashSectors && Visited(job, k)
      ensures SectorServed(job, k, capacity)
    {
      UploadMono(job.row.variant, ChunkSize(job.row, SectorLength(job, k), 0), job.row.maxCopySize);
      if job.row.variant.LPC8XX? {
        PartAligned(job, k);
      }
    }
  }

  /** Only the end of the image can leave a part of a word. */
  lemma PartAligned(job: Job, k: nat)
    requires ValidJob(job) && Visited(job, k) && WordAligned(job.length)
    ensures WordAligned(SectorLength(job, k))
  {
    SectorAligned(job.row, k);
  }

  /** Erase before write: when the `n`th command is a copy, it is going to erased cells
      of sectors that are prepared at that moment. */
  lemma EraseBeforeWrite(job: Job, m0: Memory, n: nat)
    requires ValidJob(job) && ForDevice(job, m0) && m0.faults == [] && m0.due == 0
    requires n < |Whole(job)| && Whole(job)[n].Copy?
    ensures var op, m := Whole(job)[n], StateAfter(job, m0, n);
            && m.base <= op.dst && BlankIn(m.flash, op.dst - m.base, op.dst - m.base + op.count)
            && Unlocked(job.row, m, op.dst, op.count)
  {
    RunProper(job, m0, 0, Cells);
    ProperAt(job.row, 0, Cells, m0, Whole(job), n);
  }

  // ---------------------------------------------------------------- what an accepted run has needed

  lemma {:induction false} RamStays(row: Row, m: Memory, ops: seq<Op>)
    ensures Run(row, m, ops).ramBase == m.ramBase
    decreases |ops|
  {
    if ops != [] {
      RamStays(row, Step(row, m, ops[0]), ops[1..]);
    }
  }

  lemma PieceNeeds(job: Job, k: nat, p: Piece, m: Memory, capacity: nat)
    requires p.at + p.upload <= |job.content| && m.ramBase == RamBase(job.row.variant)
    requires LegalRun(job.row, capacity, m, PieceOps(job, k, p))
    ensures p.upload <= capacity && p.count <= capacity && WordAligned(p.upload)
    ensures job.verify ==> 64 <= p.at + p.count
  {
    var ops := PieceOps(job, k, p);
    LegalAt(job.row, capacity, m, ops, 3);
    RamStays(job.row, m, ops[..3]);
    if job.verify {
      LegalAt(job.row, capacity, m, ops, 4);
    }
  }

  lemma LegalAt(row: Row, capacity: nat, m: Memory, ops: seq<Op>, n: nat)
    requires n < |ops| && LegalRun(row, capacity, m, ops)
    ensures Legal(row, capacity, Run(row, m, ops[..n]), ops[n])
  {
    assert ops == ops[..n] + ops[n..];
    LegalConcat(row, capacity, m, ops[..n], ops[n..]);
    assert ops[n..][0] == ops[n];
  }

  lemma SectorNeeds(job: Job, k: nat, m: Memory, capacity: nat)
    requires ValidJob(job) && k < job.row.flashSectors && Start(job.row, k) < job.length
    requires m.ramBase == RamBase(job.row.variant) && LegalRun(job.row, capacity, m, SectorOps(job, k))
    ensures SectorServed(job, k, capacity)
  {
    hide LegalRun, SectorBody, SectorServed;
    RamStays(job.row, m, SectorHead(job, k));
    LegalConcat(job.row, capacity, m, SectorHead(job, k), SectorBody(job, k));
    BodyNeeds(job, k, Run(job.row, m, SectorHead(job, k)), capacity);
  }

  lemma BodyNeeds(job: Job, k: nat, m: Memory, capacity: nat)
    requires ValidJob(job) && k < job.row.flashSectors && Start(job.row, k) < job.length
    requires m.ramBase == RamBase(job.row.variant) && LegalRun(job.row, capacity, m, SectorBody(job, k))
    ensures SectorServed(job, k, capacity)
  {
    hide PieceOps, PiecesOps, LegalRun, UploadSize, CopySize;
    if SectorBody(job, k) == [] {
      BodyEmpty(job, k);
    } else {
      var ps := CutUp(job, k);
      var _ := FirstNeeds(job, k, ps, m, capacity);
      if job.row.variant.LPC8XX? {
        UploadsNeed(job, k, 0, ps, m, capacity);
      }
    }
  }

  lemma FirstNeeds(job: Job, k: nat, ps: seq<Piece>, m: Memory, capacity: nat) returns (m': Memory)
    requires ps != [] && forall i | 0 <= i < |ps| :: ps[i].at + ps[i].upload <= |job.content|
    requires m.ramBase == RamBase(job.row.variant) && LegalRun(job.row, capacity, m, PiecesOps(job, k, ps))
    ensures var p := ps[0];
      p.upload <= capacity && p.count <= capacity && WordAligned(p.upload) && (job.verify ==> 64 <= p.at + p.count)
    ensures m'.ramBase == m.ramBase && LegalRun(job.row, capacity, m', PiecesOps(job, k, ps[1..]))
  {
    LegalConcat(job.row, capacity, m, PieceOps(job, k, ps[0]), PiecesOps(job, k, ps[1..]));
    PieceNeeds(job, k, ps[0], m, capacity);
    RamStays(job.row, m, PieceOps(job, k, ps[0]));
    m' := Run(job.row, m, PieceOps(job, k, ps[0]));
  }

  /** A raw chunk is uploaded as it is. */
  lemma RawPiece(job: Job, k: nat, offset: nat)
    requires ValidJob(job) && job.row.variant.LPC8XX? && k < |job.row.sectorTable| && Start(job.row, k) <= job.length
    requires offset < SectorLength(job, k)
    ensures var ps := Pieces(job, k, offset);
      && ps != [] && 0 < ps[0].chunk == ps[0].upload && offset + ps[0].chunk <= SectorLength(job, k)
      && ps[1..] == Pieces(job, k, offset + ps[0].chunk)
  {
    hide CopySize;
  }

  lemma AlignedSum(a: int, b: int)
    requires WordAligned(a) && WordAligned(b)
    ensures WordAligned(a + b)
  {
  }

  /** Raw chunks that are all uploaded in whole words leave no part of a word. */
  lemma {:induction false} UploadsNeed(job: Job, k: nat, offset: nat, ps: seq<Piece>, m: Memory, capacity: nat)
    requires ValidJob(job) && job.row.variant.LPC8XX? && k < |job.row.sectorTable| && Start(job.row, k) <= job.length
    requires offset <= SectorLength(job, k) && ps == Pieces(job, k, offset)
    requires forall i | 0 <= i < |ps| :: ps[i].at + ps[i].upload <= |job.content|
    requires m.ramBase == RamBase(job.row.variant) && LegalRun(job.row, capacity, m, PiecesOps(job, k, ps))
    ensures WordAligned(SectorLength(job, k) - offset)
    decreases SectorLength(job, k) - offset
  {
    hide PieceOps, PiecesOps, LegalRun, Pieces, SectorLength, RamBase;
    var left := SectorLength(job, k) - offset;
    if left > 0 {
      RawPiece(job, k, offset);
      var m' := FirstNeeds(job, k, ps, m, capacity);
      UploadsNeed(job, k, offset + ps[0].chunk, ps[1..], m', capacity);
      AlignedSum(left - ps[0].chunk, ps[0].chunk);
    }
  }

  /** A part that is all 0xFF is skipped, and no other. */
  lemma SkippedExactly(job: Job, k: nat)
    requires ValidJob(job) && k < job.row.flashSectors && Start(job.row, k) < job.length
    ensures SectorBody(job, k) == [] <==> forall a | Start(job.row, k) <= a < End(job, k) :: job.content[a] == 0xFF
  {
    hide Pieces, PiecesOps;
    var start := Start(job.row, k);
    FirstChunk(job, k);
    var ps := CutUp(job, k);
    SomeOps(job, k, ps);
    AllBlankIn(job.content, start, End(job, k));
  }

  lemma SomeOps(job: Job, k: nat, ps: seq<Piece>)
    requires ps != [] && forall i | 0 <= i < |ps| :: ps[i].at + ps[i].upload <= |job.content|
    ensures PiecesOps(job, k, ps) != []
  {
  }

  lemma AllBlankIn(content: seq<byte>, lo: nat, hi: nat)
    requires lo <= hi <= |content|
    ensures OnlyBlank(content[lo..hi]) <==> forall a | lo <= a < hi :: content[a] == 0xFF
  {
    forall a | lo <= a < hi
      ensures content[a] == content[lo..hi][a - lo]
    {
    }
  }

  /** Only a part that is all 0xFF is skipped. */
  lemma BodyEmpty(job: Job, k: nat)
    requires ValidJob(job) && k < job.row.flashSectors && Start(job.row, k) < job.length
    requires SectorBody(job, k) == []
    ensures OnlyBlank(job.content[Start(job.row, k)..Start(job.row, k) + SectorLength(job, k)])
  {
    SkippedExactly(job, k);
  }

  predicate ServedFrom(job: Job, j: nat, capacity: nat)
    requires ValidJob(job)
  {
    forall k | j <= k < job.row.flashSectors && Start(job.row, k) < job.length :: SectorServed(job, k, capacity)
  }

  lemma ClimbNeeds(job: Job, j: nat, m: Memory, capacity: nat) returns (r: Memory)
    requires ValidJob(job) && 1 <= j < job.row.flashSectors && Start(job.row, j) < job.length
    requires m.ramBase == RamBase(job.row.variant) && LegalRun(job.row, capacity, m, Upward(job, j))
    ensures SectorServed(job, j, capacity)
    ensures r.ramBase == m.ramBase && LegalRun(job.row, capacity, r, Upward(job, j + 1))
  {
    LegalConcat(job.row, capacity, m, SectorOps(job, j), Upward(job, j + 1));
    SectorNeeds(job, j, m, capacity);
    RamStays(job.row, m, SectorOps(job, j));
    r := Run(job.row, m, SectorOps(job, j));
  }

  lemma {:induction false} UpwardNeeds(job: Job, j: nat, m: Memory, capacity: nat)
    requires ValidJob(job) && 1 <= j <= job.row.flashSectors
    requires m.ramBase == RamBase(job.row.variant) && LegalRun(job.row, capacity, m, Upward(job, j))
    ensures ServedFrom(job, j, capacity)
    decreases job.row.flashSectors - j
  {
    hide SectorServed, LegalRun, SectorOps;
    if j < job.row.flashSectors && Start(job.row, j) < job.length {
      var m' := ClimbNeeds(job, j, m, capacity);
      UpwardNeeds(job, j + 1, m', capacity);
    } else {
      forall k | j <= k < job.row.flashSectors
        ensures job.length <= Start(job.row, k)
      {
        StartMono(job.row, j, k);
      }
    }
  }

  /** Whatever the device, if it has accepted every command of the run, RAM had room for every sector. */
  lemma RunNeeds(job: Job, m0: Memory, capacity: nat)
    requires ValidJob(job) && m0.ramBase == RamBase(job.row.variant)
    requires LegalRun(job.row, capacity, m0, Whole(job))
    ensures Served(job, capacity)
  {
    var opening, upward, closing := Opening(job), Upward(job, 1), Closing(job);
    LegalConcat(job.row, capacity, m0, opening, upward + closing);
    var m1 := Run(job.row, m0, opening);
    RamStays(job.row, m0, opening);
    LegalConcat(job.row, capacity, m1, upward, closing);
    UpwardNeeds(job, 1, m1, capacity);
    RamStays(job.row, m1, upward);
    if Fits(job) {
      ClosingNeeds(job, Run(job.row, m1, upward), capacity);
    }
  }

  lemma ClosingNeeds(job: Job, m: Memory, capacity: nat)
    requires ValidJob(job) && Fits(job) && m.ramBase == RamBase(job.row.variant)
    requires LegalRun(job.row, capacity, m, Closing(job))
    ensures SectorServed(job, 0, capacity)
  {
    LegalConcat(job.row, capacity, m, SectorOps(job, 0), if Banked(job.row.variant) then [SetBank] else []);
    SectorNeeds(job, 0, m, capacity);
  }
}
