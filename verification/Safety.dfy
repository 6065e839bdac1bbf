/** What every complete run leaves in flash, and what every interrupted one does. */
module Safety {
  import opened Bytes
  import opened Device
  import opened Plan
  import opened Frames

  /** The memory belongs to the device the job is for, and the job is for its flash. */
  predicate ForDevice(job: Job, m: Memory)
  {
    && ValidRow(job.row)
    && m.base == job.offset && m.ramBase == RamBase(job.row.variant)
    && |m.flash| == FlashSize(job.row)
  }

  predicate SameDevice(m: Memory, r: Memory)
  {
    r.base == m.base && r.ramBase == m.ramBase && |r.flash| == |m.flash|
  }

  ghost predicate BlankIn(flash: seq<byte>, lo: nat, hi: nat)
  {
    hi <= |flash| && forall x | lo <= x < hi :: flash[x] == BLANK
  }

  /** Flash cells `lo` up to `hi` hold the image. */
  ghost predicate Holds(job: Job, flash: seq<byte>, lo: nat, hi: nat)
  {
    hi <= |flash| && hi <= |job.content| && forall x | lo <= x < hi :: flash[x] == job.content[x]
  }

  /** Every cell is erased or already holds its image byte. */
  ghost predicate PartlyHolds(job: Job, flash: seq<byte>, lo: nat, hi: nat)
  {
    hi <= |flash| && hi <= |job.content| && forall x | lo <= x < hi :: flash[x] == BLANK || flash[x] == job.content[x]
  }

  // ---------------------------------------------------------------- one chunk

  /** The memory once the piece is in RAM and its sector prepared. */
  function Loaded(job: Job, k: nat, p: Piece, m: Memory): Memory
    requires p.at + p.upload <= |job.content|
  {
    m.(due := 0, ram := Overlay(m.ram, job.content[p.at..p.at + p.upload]), unlocked := (k, k + 1))
  }

  lemma PieceLoads(job: Job, k: nat, p: Piece, m: Memory, n: nat) returns (r: Memory)
    requires p.at + p.upload <= |job.content| && n <= 3
    ensures r == Run(job.row, m, PieceOps(job, k, p)[..n])
    ensures r.flash == m.flash && r.faults == m.faults && SameDevice(m, r)
    ensures n == 3 ==> r == Loaded(job, k, p, m)
  {
    var ops := PieceOps(job, k, p);
    assert ops[..0] == [];
    if n >= 1 { RunSnoc(job.row, m, ops, 0); }
    if n >= 2 { RunSnoc(job.row, m, ops, 1); }
    if n >= 3 { RunSnoc(job.row, m, ops, 2); }
    r := Run(job.row, m, ops[..n]);
  }

  lemma PieceCopies(job: Job, k: nat, p: Piece, m: Memory) returns (r: Memory)
    requires p.at + p.upload <= |job.content| && m.base == job.offset && m.ramBase == RamBase(job.row.variant)
    ensures r == Run(job.row, m, PieceOps(job, k, p)[..4]) == Copied(Loaded(job, k, p, m), p.at, 0, p.count)
  {
    hide Step, Copied, Run;
    var ops := PieceOps(job, k, p);
    var loaded := PieceLoads(job, k, p, m, 3);
    r := Step(job.row, loaded, ops[3]);
    RunSnoc(job.row, m, ops, 3);
    assert ops[3] == Copy(loaded.base + p.at, loaded.ramBase, p.count);
    CopyStep(job.row, loaded, p.at, p.count);
  }

  /** The comparison changes nothing. */
  lemma PieceEnds(job: Job, k: nat, p: Piece, m: Memory)
    requires p.at + p.upload <= |job.content|
    ensures Run(job.row, m, PieceOps(job, k, p)) == Run(job.row, m, PieceOps(job, k, p)[..4])
  {
    var ops := PieceOps(job, k, p);
    assert ops[..|ops|] == ops;
    if job.verify {
      RunSnoc(job.row, m, ops, 4);
      assert ops[4].Compare?;
    }
  }

  lemma CopyStep(row: Row, m: Memory, at: nat, count: nat)
    ensures Step(row, m, Copy(m.base + at, m.ramBase, count)) == Copied(m, at, 0, count)
  {
    assert m.base + at - m.base == at && m.ramBase - m.ramBase == 0;
  }

  /** The first `n` commands of a piece, on sound and erased flash. */
  lemma PieceStores(job: Job, k: nat, p: Piece, m: Memory, n: nat, limit: nat)
    requires m.base == job.offset && m.ramBase == RamBase(job.row.variant) && m.faults == []
    requires p.chunk <= p.upload && p.chunk <= p.count && p.at + p.upload <= |job.content|
    requires p.at + p.count <= limit && BlankIn(m.flash, p.at, limit) && n <= |PieceOps(job, k, p)|
    ensures var r := Run(job.row, m, PieceOps(job, k, p)[..n]);
            && r.faults == []
            && (n < 4 ==> r.flash == m.flash)
            && (n >= 4 ==>
                  && r == Copied(Loaded(job, k, p, m), p.at, 0, p.count)
                  && Holds(job, r.flash, p.at, p.at + p.chunk) && BlankIn(r.flash, p.at + p.count, limit))
  {
    var ops := PieceOps(job, k, p);
    if n < 4 {
      var _ := PieceLoads(job, k, p, m, n);
    } else {
      var _ := PieceCopies(job, k, p, m);
      PieceEnds(job, k, p, m);
      assert n == 4 || ops[..n] == ops;
      CopyHolds(job, k, p, m);
    }
  }

  lemma CopyHolds(job: Job, k: nat, p: Piece, m: Memory)
    requires p.chunk <= p.upload && p.chunk <= p.count && p.at + p.upload <= |job.content|
    requires m.faults == [] && BlankIn(m.flash, p.at, p.at + p.chunk)
    ensures Holds(job, Copied(Loaded(job, k, p, m), p.at, 0, p.count).flash, p.at, p.at + p.chunk)
  {
    var ram := Overlay(m.ram, job.content[p.at..p.at + p.upload]);
    forall x: nat | p.at <= x < p.at + p.chunk
      ensures ProgramCells(m.flash, p.at, ram, 0, p.count, map[])[x] == job.content[x]
    {
      CellHolds(job, p, m.flash, m.ram, x);
    }
  }

  lemma CellHolds(job: Job, p: Piece, flash: seq<byte>, ram: seq<byte>, x: nat)
    requires p.chunk <= p.upload && p.chunk <= p.count && p.at + p.upload <= |job.content|
    requires p.at <= x < p.at + p.chunk && x < |flash| && flash[x] == BLANK
    ensures ProgramCells(flash, p.at, Overlay(ram, job.content[p.at..p.at + p.upload]), 0, p.count, map[])[x]
         == job.content[x]
  {
    var data := job.content[p.at..p.at + p.upload];
    assert Overlay(ram, data)[x - p.at] == data[x - p.at];
    assert RamAt(Overlay(ram, data), 0 + (x - p.at)) == job.content[x];
  }

  // ---------------------------------------------------------------- the chunks of a sector

  /** Cells `at` up to `end` after a cut: erased or right, and either nothing has changed yet
      or the first chunk, up to `mid`, is complete. */
  ghost predicate Stored(job: Job, at: nat, mid: nat, end: nat, before: seq<byte>, after: seq<byte>)
  {
    PartlyHolds(job, after, at, end) && (after == before || Holds(job, after, at, mid))
  }

  lemma StoredNothing(job: Job, at: nat, mid: nat, end: nat, flash: seq<byte>)
    requires BlankIn(flash, at, end) && end <= |job.content|
    ensures Stored(job, at, mid, end, flash, flash)
  {
  }

  lemma StoredFirst(job: Job, at: nat, mid: nat, end: nat, before: seq<byte>, after: seq<byte>)
    requires Holds(job, after, at, mid) && mid <= end <= |job.content|
    requires mid == end || BlankIn(after, mid, end)
    ensures Stored(job, at, mid, end, before, after)
  {
  }

  lemma StoredLater(job: Job, at: nat, mid: nat, mid': nat, end: nat,
                    before: seq<byte>, between: seq<byte>, after: seq<byte>)
    requires at <= mid <= end && Holds(job, between, at, mid) && |after| == |between|
    requires forall x: nat | x < mid && x < |between| :: after[x] == between[x]
    requires Stored(job, mid, mid', end, between, after)
    ensures Stored(job, at, mid, end, before, after)
    ensures Holds(job, after, mid, end) ==> Holds(job, after, at, end)
  {
  }

  lemma {:induction false} PiecesStore(job: Job, k: nat, ps: seq<Piece>, at: nat, end: nat, limit: nat,
                                       m: Memory, n: nat)
    returns (r: Memory)
    requires m.base == job.offset && m.ramBase == RamBase(job.row.variant) && m.faults == []
    requires ps != [] && Tiled(ps, at, end, limit, |job.content|)
    requires forall i | 0 <= i < |ps| :: ps[i].at + ps[i].upload <= |job.content|
    requires BlankIn(m.flash, at, limit) && end <= |job.content| && n <= |PiecesOps(job, k, ps)|
    ensures r == Run(job.row, m, PiecesOps(job, k, ps)[..n]) && r.faults == []
    ensures Stored(job, at, at + ps[0].chunk, end, m.flash, r.flash)
    ensures n == |PiecesOps(job, k, ps)| ==> Holds(job, r.flash, at, end)
  {
    var first, rest := PieceOps(job, k, ps[0]), PiecesOps(job, k, ps[1..]);
    RunTake(job.row, m, first, rest, n);
    if n <= |first| {
      r := FirstPiece(job, k, ps, at, end, limit, m, n);
      assert |ps| > 1 ==> |rest| > 0;
    } else {
      var between := FirstDone(job, k, ps, at, end, limit, m);
      r := PiecesStore(job, k, ps[1..], at + ps[0].chunk, end, limit, between, n - |first|);
      LaterPieces(job, k, ps, at, end, limit, between, n - |first|, r);
      StoredLater(job, at, at + ps[0].chunk, at + ps[0].chunk + ps[1].chunk, end, m.flash, between.flash, r.flash);
    }
  }

  lemma FirstDone(job: Job, k: nat, ps: seq<Piece>, at: nat, end: nat, limit: nat, m: Memory) returns (r: Memory)
    requires m.base == job.offset && m.ramBase == RamBase(job.row.variant) && m.faults == []
    requires |ps| > 1 && Tiled(ps, at, end, limit, |job.content|) && BlankIn(m.flash, at, limit)
    ensures r == Run(job.row, m, PieceOps(job, k, ps[0]))
    ensures r.base == m.base && r.ramBase == m.ramBase && r.faults == []
    ensures Holds(job, r.flash, at, at + ps[0].chunk) && BlankIn(r.flash, at + ps[0].chunk, limit)
  {
    var first := PieceOps(job, k, ps[0]);
    assert first[..|first|] == first;
    PieceStores(job, k, ps[0], m, |first|, limit);
    r := Run(job.row, m, first);
  }

  lemma FirstPiece(job: Job, k: nat, ps: seq<Piece>, at: nat, end: nat, limit: nat, m: Memory, n: nat)
    returns (r: Memory)
    requires m.base == job.offset && m.ramBase == RamBase(job.row.variant) && m.faults == []
    requires ps != [] && Tiled(ps, at, end, limit, |job.content|)
    requires BlankIn(m.flash, at, limit) && end <= |job.content| && n <= |PieceOps(job, k, ps[0])|
    ensures r == Run(job.row, m, PieceOps(job, k, ps[0])[..n]) && r.faults == []
    ensures Stored(job, at, at + ps[0].chunk, end, m.flash, r.flash)
    ensures |ps| == 1 && n == |PieceOps(job, k, ps[0])| ==> Holds(job, r.flash, at, end)
  {
    var mid := at + ps[0].chunk;
    PieceStores(job, k, ps[0], m, n, limit);
    r := Run(job.row, m, PieceOps(job, k, ps[0])[..n]);
    if n < 4 {
      StoredNothing(job, at, mid, end, m.flash);
    } else {
      StoredFirst(job, at, mid, end, m.flash, r.flash);
    }
  }

  /** The pieces after the first leave the cells before them alone. */
  lemma LaterPieces(job: Job, k: nat, ps: seq<Piece>, at: nat, end: nat, limit: nat, m: Memory, n: nat, r: Memory)
    requires m.base == job.offset && ps != [] && Tiled(ps, at, end, limit, |job.content|)
    requires forall i | 0 <= i < |ps| :: ps[i].at + ps[i].upload <= |job.content|
    requires n <= |PiecesOps(job, k, ps[1..])| && r == Run(job.row, m, PiecesOps(job, k, ps[1..])[..n])
    ensures |r.flash| == |m.flash| && forall x: nat | x < at + ps[0].chunk && x < |m.flash| :: r.flash[x] == m.flash[x]
  {
    var mid, rest := at + ps[0].chunk, PiecesOps(job, k, ps[1..]);
    PiecesWithin(job, k, ps[1..], mid, end, limit);
    TakeWithin(job.row, job.offset, rest, n, mid, limit);
    RunFrame(job.row, m, rest[..n], mid, limit);
  }

  lemma TakeWithin(row: Row, base: nat, ops: seq<Op>, n: nat, lo: nat, hi: nat)
    requires n <= |ops| && AllWithin(row, base, ops, lo, hi)
    ensures AllWithin(row, base, ops[..n], lo, hi)
  {
    forall i | 0 <= i < n
      ensures Within(row, base, ops[..n][i], lo, hi)
    {
      assert Within(row, base, ops[i], lo, hi);
    }
  }

  // ---------------------------------------------------------------- one sector

  /** The image's cells of sector `k` are those from `Start` to here. */
  function End(job: Job, k: nat): (r: nat)
    requires ValidJob(job) && k < |job.row.sectorTable|
    ensures r <= job.length
  {
    Min(Start(job.row, k + 1), job.length)
  }

  lemma HeadRun(job: Job, k: nat, m: Memory, n: nat) returns (r: Memory)
    requires ValidJob(job) && ForDevice(job, m) && k < job.row.flashSectors
    requires n <= |SectorHead(job, k)|
    requires job.wipe || k == 0 ==> BlankIn(m.flash, Start(job.row, k), Start(job.row, k + 1))
    ensures r == Run(job.row, m, SectorHead(job, k)[..n])
    ensures SameDevice(m, r) && r.faults == m.faults
    ensures job.wipe || k == 0 ==> r.flash == m.flash
    ensures n == |SectorHead(job, k)| ==> BlankIn(r.flash, Start(job.row, k), Start(job.row, k + 1))
  {
    var ops := SectorHead(job, k);
    StartMono(job.row, k + 1, job.row.flashSectors);
    assert ops[..0] == [];
    if n >= 1 { RunSnoc(job.row, m, ops, 0); }
    if n >= 2 { RunSnoc(job.row, m, ops, 1); }
    r := Run(job.row, m, ops[..n]);
  }

  lemma FirstChunk(job: Job, k: nat)
    requires ValidJob(job) && k < job.row.flashSectors && Start(job.row, k) < job.length
    ensures var ps := Pieces(job, k, 0);
      ps != [] && Start(job.row, k) + ps[0].chunk == Min(Start(job.row, k) + job.row.maxCopySize, End(job, k))
  {
    assert GoodSector(job.row, k);
  }

  lemma BodyRun(job: Job, k: nat, m: Memory, n: nat) returns (r: Memory)
    requires ValidJob(job) && ForDevice(job, m) && k < job.row.flashSectors && Start(job.row, k) < job.length
    requires n <= |SectorBody(job, k)| && m.faults == []
    requires BlankIn(m.flash, Start(job.row, k), Start(job.row, k + 1))
    ensures r == Run(job.row, m, SectorBody(job, k)[..n]) && r.faults == []
    ensures Stored(job, Start(job.row, k), Min(Start(job.row, k) + job.row.maxCopySize, End(job, k)), End(job, k),
                   m.flash, r.flash)
    ensures n == |SectorBody(job, k)| ==> Holds(job, r.flash, Start(job.row, k), End(job, k))
  {
    hide PiecesOps, Pieces;
    var start, end, limit := Start(job.row, k), Start(job.row, k) + SectorLength(job, k), Start(job.row, k + 1);
    StartMono(job.row, k + 1, job.row.flashSectors);
    if OnlyBlank(job.content[start..end]) {
      assert SectorBody(job, k)[..n] == [];
      BlankPart(job, start, end, m.flash);
      StoredNothing(job, start, Min(start + job.row.maxCopySize, end), end, m.flash);
      r := m;
    } else {
      var ps := CutUp(job, k);
      FirstChunk(job, k);
      r := PiecesStore(job, k, ps, start, end, limit, m, n);
    }
  }

  /** Erased flash holds a part of the image that is all 0xFF. */
  lemma BlankPart(job: Job, lo: nat, hi: nat, flash: seq<byte>)
    requires lo <= hi <= |job.content| && OnlyBlank(job.content[lo..hi]) && BlankIn(flash, lo, hi)
    ensures Holds(job, flash, lo, hi)
  {
    forall x | lo <= x < hi
      ensures job.content[x] == BLANK
    {
      assert job.content[x] == job.content[lo..hi][x - lo];
    }
  }

  /** Stopped anywhere, a sector that was erased at the start is erased or right cell by cell; complete,
      it holds its part of the image. Sector 0 changes first by its whole first chunk. */
  lemma SectorRun(job: Job, k: nat, m: Memory, n: nat) returns (r: Memory)
    requires ValidJob(job) && ForDevice(job, m) && k < job.row.flashSectors && Start(job.row, k) < job.length
    requires n <= |SectorOps(job, k)| && m.faults == []
    requires job.wipe || k == 0 ==> BlankIn(m.flash, Start(job.row, k), Start(job.row, k + 1))
    ensures r == Run(job.row, m, SectorOps(job, k)[..n])
    ensures r.faults == [] && SameDevice(m, r)
    ensures forall x: nat | x < |m.flash| && !(Start(job.row, k) <= x < Start(job.row, k + 1)) ::
              r.flash[x] == m.flash[x]
    ensures n == |SectorOps(job, k)| ==> Holds(job, r.flash, Start(job.row, k), End(job, k))
    ensures k == 0 ==> Stored(job, 0, Min(job.row.maxCopySize, End(job, 0)), End(job, 0), m.flash, r.flash)
  {
    var head, body := SectorHead(job, k), SectorBody(job, k);
    RunTake(job.row, m, head, body, n);
    var ready := HeadRun(job, k, m, if n <= |head| then n else |head|);
    assert head[..|head|] == head && body[..0] == [];
    r := ready;
    if n >= |head| {
      r := BodyRun(job, k, ready, n - |head|);
    } else if k == 0 {
      StoredNothing(job, 0, Min(job.row.maxCopySize, End(job, 0)), End(job, 0), m.flash);
    }
    SectorFrame(job, k, m, n, r);
  }

  lemma SectorFrame(job: Job, k: nat, m: Memory, n: nat, r: Memory)
    requires ValidJob(job) && m.base == job.offset && k < job.row.flashSectors && Start(job.row, k) <= job.length
    requires n <= |SectorOps(job, k)| && r == Run(job.row, m, SectorOps(job, k)[..n])
    ensures SameDevice(m, r)
    ensures forall x: nat | x < |m.flash| && !(Start(job.row, k) <= x < Start(job.row, k + 1)) ::
              r.flash[x] == m.flash[x]
  {
    SectorWithin(job, k);
    TakeWithin(job.row, job.offset, SectorOps(job, k), n, Start(job.row, k), Start(job.row, k + 1));
    RunFrame(job.row, m, SectorOps(job, k)[..n], Start(job.row, k), Start(job.row, k + 1));
  }
}
