/**
 What comparisons find. They leave out where flash starts (src/DFU/lpcprog.c:1523-1527), so with flash
 above all compared addresses they meet other memory, which no command of a run changes.
 */
module Comparisons {
  import opened Bytes
  import opened Device
  import opened Plan
  import opened Safety
  import opened Protocol

  // ---------------------------------------------------------------- numbers and contents apart

  ghost predicate SizedRun(row: Row, capacity: nat, m: Memory, ops: seq<Op>)
    decreases |ops|
  {
    ops == [] || (Sized(row, capacity, m, ops[0]) && SizedRun(row, capacity, Step(row, m, ops[0]), ops[1..]))
  }

  /** Every comparison of the run finds what it expects. */
  ghost predicate MatchRun(row: Row, m: Memory, ops: seq<Op>)
    decreases |ops|
  {
    || ops == []
    || (&& (ops[0].Compare? ==> Matches(m, ops[0].dst, ops[0].src, ops[0].span))
        && MatchRun(row, Step(row, m, ops[0]), ops[1..]))
  }

  lemma {:induction false} LegalSplits(row: Row, capacity: nat, m: Memory, ops: seq<Op>)
    ensures LegalRun(row, capacity, m, ops) <==> SizedRun(row, capacity, m, ops) && MatchRun(row, m, ops)
    decreases |ops|
  {
    if ops != [] {
      LegalSplits(row, capacity, Step(row, m, ops[0]), ops[1..]);
    }
  }

  lemma {:induction false} ProperIsSized(row: Row, capacity: nat, care: Care, m: Memory, ops: seq<Op>)
    requires !care.Cells? && ProperRun(row, capacity, care, m, ops)
    ensures SizedRun(row, capacity, m, ops)
    decreases |ops|
  {
    if ops != [] {
      ProperIsSized(row, capacity, care, Step(row, m, ops[0]), ops[1..]);
    }
  }

  lemma {:induction false} MatchConcat(row: Row, m: Memory, a: seq<Op>, b: seq<Op>)
    ensures MatchRun(row, m, a + b) <==> MatchRun(row, m, a) && MatchRun(row, Run(row, m, a), b)
    decreases |a|
  {
    if a == [] {
      assert a + b == b;
    } else {
      assert (a + b)[1..] == a[1..] + b;
      MatchConcat(row, Step(row, m, a[0]), a[1..], b);
    }
  }

  // ---------------------------------------------------------------- what the bytes have to be

  predicate Bounded(job: Job, ps: seq<Piece>)
  {
    forall i | 0 <= i < |ps| :: ps[i].at + ps[i].upload <= |job.content|
  }

  /** RAM when the piece has been uploaded. */
  function Uploaded(job: Job, ram: seq<byte>, p: Piece): seq<byte>
    requires p.at + p.upload <= |job.content|
  {
    Overlay(ram, job.content[p.at..p.at + p.upload])
  }

  /** The bytes at the piece's addresses, from 64 on, equal those of RAM. */
  predicate PieceMatches(low: seq<byte>, ram: seq<byte>, p: Piece)
  {
    forall a: nat | 64 <= a && p.at <= a < p.at + p.count :: ByteAt(low, a) == Some(RamAt(ram, a - p.at))
  }

  /** The pieces are uploaded one after the other, and each is compared when it is in RAM. */
  predicate PiecesMatch(job: Job, low: seq<byte>, ram: seq<byte>, ps: seq<Piece>)
    requires Bounded(job, ps)
    decreases |ps|
  {
    || ps == []
    || (&& PieceMatches(low, Uploaded(job, ram, ps[0]), ps[0])
        && PiecesMatch(job, low, Uploaded(job, ram, ps[0]), ps[1..]))
  }

  function RamAfter(job: Job, ram: seq<byte>, ps: seq<Piece>): seq<byte>
    requires Bounded(job, ps)
    decreases |ps|
  {
    if ps == [] then ram else RamAfter(job, Uploaded(job, ram, ps[0]), ps[1..])
  }

  lemma {:induction false} PiecesMatchConcat(job: Job, low: seq<byte>, ram: seq<byte>, a: seq<Piece>, b: seq<Piece>)
    requires Bounded(job, a) && Bounded(job, b)
    ensures Bounded(job, a + b)
    ensures PiecesMatch(job, low, ram, a + b)
       <==> PiecesMatch(job, low, ram, a) && PiecesMatch(job, low, RamAfter(job, ram, a), b)
    decreases |a|
  {
    if a == [] {
      assert a + b == b;
    } else {
      assert (a + b)[1..] == a[1..] + b;
      PiecesMatchConcat(job, low, Uploaded(job, ram, a[0]), a[1..], b);
    }
  }

  lemma BoundedPieces(job: Job, k: nat)
    requires ValidJob(job) && k < |job.row.sectorTable| && Start(job.row, k) <= job.length
    ensures Bounded(job, Pieces(job, k, 0))
  {
    var ps := CutUp(job, k);
  }

  /** The pieces of a sector, none if its part of the image is all 0xFF. */
  function BodyPieces(job: Job, k: nat): (ps: seq<Piece>)
    requires ValidJob(job) && k < |job.row.sectorTable| && Start(job.row, k) <= job.length
    ensures Bounded(job, ps)
  {
    if OnlyBlank(job.content[Start(job.row, k)..Start(job.row, k) + SectorLength(job, k)]) then []
    else BoundedPieces(job, k); Pieces(job, k, 0)
  }

  function UpwardPieces(job: Job, k: nat): (ps: seq<Piece>)
    requires ValidJob(job) && k <= job.row.flashSectors
    ensures Bounded(job, ps)
    decreases job.row.flashSectors - k
  {
    if k < job.row.flashSectors && Start(job.row, k) < job.length
    then BodyPieces(job, k) + UpwardPieces(job, k + 1)
    else []
  }

  /** The pieces of a whole run in the order in which they are programmed. */
  function AllPieces(job: Job): (ps: seq<Piece>)
    requires ValidJob(job)
    ensures Bounded(job, ps)
  {
    UpwardPieces(job, 1) + (if Fits(job) then BodyPieces(job, 0) else [])
  }

  /** Memory from address 0 on holds what every comparison of the run holds against it. */
  predicate Mirrored(job: Job, low: seq<byte>, ram: seq<byte>)
    requires ValidJob(job)
  {
    PiecesMatch(job, low, ram, AllPieces(job))
  }

  // ---------------------------------------------------------------- a run finds exactly that

  /** Nothing but RAM has changed among what a comparison looks at. */
  predicate Carries(m: Memory, r: Memory, ram: seq<byte>)
  {
    r.base == m.base && r.ramBase == m.ramBase && r.low == m.low && r.ram == ram
  }

  lemma {:induction false} Silent(row: Row, m: Memory, ops: seq<Op>)
    requires forall i | 0 <= i < |ops| :: !ops[i].Compare? && !ops[i].Data?
    ensures MatchRun(row, m, ops) && Carries(m, Run(row, m, ops), m.ram)
    decreases |ops|
  {
    if ops != [] {
      Silent(row, Step(row, m, ops[0]), ops[1..]);
    }
  }

  /** Below flash, a comparison looks at `low`. */
  lemma MatchesLow(job: Job, p: Piece, m: Memory)
    requires p.at + p.count <= m.base && m.ramBase == RamBase(job.row.variant)
    ensures var op := CompareOp(job, p.at, p.count);
      Matches(m, op.dst, op.src, op.span) <==> PieceMatches(m.low, m.ram, p)
  {
    var op := CompareOp(job, p.at, p.count);
    forall a: int | op.dst <= a < op.dst + op.span
      ensures ReadByte(m, a) == ByteAt(m.low, a) && op.src - m.ramBase + (a - op.dst) == a - p.at
    {
    }
    if PieceMatches(m.low, m.ram, p) {
      forall a: int | op.dst <= a < op.dst + op.span
        ensures ReadByte(m, a) == Some(RamAt(m.ram, op.src - m.ramBase + (a - op.dst)))
      {
        var n: nat := a;
        assert ByteAt(m.low, n) == Some(RamAt(m.ram, n - p.at));
      }
    }
    if Matches(m, op.dst, op.src, op.span) {
      forall a: nat | 64 <= a && p.at <= a < p.at + p.count
        ensures ByteAt(m.low, a) == Some(RamAt(m.ram, a - p.at))
      {
        assert ReadByte(m, a) == Some(RamAt(m.ram, op.src - m.ramBase + (a - op.dst)));
      }
    }
  }

  lemma LoadMatches(job: Job, k: nat, p: Piece, m: Memory) returns (r: Memory)
    requires p.at + p.upload <= |job.content| && m.base == job.offset && m.ramBase == RamBase(job.row.variant)
    ensures r == Run(job.row, m, PieceOps(job, k, p)[..4]) && MatchRun(job.row, m, PieceOps(job, k, p)[..4])
    ensures Carries(m, r, Uploaded(job, m.ram, p))
  {
    var ops := PieceOps(job, k, p);
    r := PieceCopies(job, k, p, m);
    assert ops[..4] == ops[..1] + ([ops[1]] + ops[2..4]);
    MatchConcat(job.row, m, ops[..1], [ops[1]] + ops[2..4]);
    var m1 := Run(job.row, m, ops[..1]);
    MatchConcat(job.row, m1, [ops[1]], ops[2..4]);
    Silent(job.row, m, ops[..1]);
    Silent(job.row, Run(job.row, m1, [ops[1]]), ops[2..4]);
  }

  lemma PieceMatchRun(job: Job, k: nat, p: Piece, m: Memory) returns (r: Memory)
    requires p.at + p.upload <= |job.content| && m.base == job.offset && m.ramBase == RamBase(job.row.variant)
    requires job.verify && p.at + p.count <= job.offset
    ensures r == Run(job.row, m, PieceOps(job, k, p)) && Carries(m, r, Uploaded(job, m.ram, p))
    ensures MatchRun(job.row, m, PieceOps(job, k, p)) <==> PieceMatches(m.low, Uploaded(job, m.ram, p), p)
  {
    var ops := PieceOps(job, k, p);
    r := LoadMatches(job, k, p, m);
    PieceEnds(job, k, p, m);
    assert ops == ops[..4] + [CompareOp(job, p.at, p.count)];
    MatchConcat(job.row, m, ops[..4], [CompareOp(job, p.at, p.count)]);
    MatchesLow(job, p, r);
  }

  /** All copies of the pieces lie below `hi`. */
  predicate Below(ps: seq<Piece>, hi: nat)
  {
    forall i | 0 <= i < |ps| :: ps[i].at + ps[i].count <= hi
  }

  /** The commands upload `ps` one after the other, and their comparisons find what they expect exactly if
      `low` matches those pieces. */
  ghost predicate Follows(job: Job, m: Memory, ops: seq<Op>, ps: seq<Piece>)
    requires Bounded(job, ps)
  {
    && Carries(m, Run(job.row, m, ops), RamAfter(job, m.ram, ps))
    && (MatchRun(job.row, m, ops) <==> PiecesMatch(job, m.low, m.ram, ps))
  }

  lemma FollowsConcat(job: Job, m: Memory, ops: seq<Op>, more: seq<Op>, ps: seq<Piece>, qs: seq<Piece>)
    requires Bounded(job, ps) && Bounded(job, qs)
    requires Follows(job, m, ops, ps) && Follows(job, Run(job.row, m, ops), more, qs)
    ensures Bounded(job, ps + qs) && Follows(job, m, ops + more, ps + qs)
  {
    hide MatchRun, PiecesMatch, RamAfter, Bounded;
    MatchConcat(job.row, m, ops, more);
    RunConcat(job.row, m, ops, more);
    PiecesMatchConcat(job, m.low, m.ram, ps, qs);
    RamAfterConcat(job, m.ram, ps, qs);
  }

  lemma OneFollows(job: Job, k: nat, p: Piece, m: Memory)
    requires p.at + p.upload <= |job.content| && m.base == job.offset && m.ramBase == RamBase(job.row.variant)
    requires job.verify && p.at + p.count <= job.offset
    ensures Bounded(job, [p]) && Follows(job, m, PieceOps(job, k, p), [p])
  {
    hide PieceOps, PieceMatches, MatchRun;
    var r := PieceMatchRun(job, k, p, m);
    assert [p][1..] == [];
    assert PiecesMatch(job, m.low, Uploaded(job, m.ram, p), []);
    assert RamAfter(job, Uploaded(job, m.ram, p), []) == Uploaded(job, m.ram, p);
  }

  lemma {:induction false} PiecesFollow(job: Job, k: nat, ps: seq<Piece>, m: Memory)
    requires Bounded(job, ps) && m.base == job.offset && m.ramBase == RamBase(job.row.variant)
    requires job.verify && Below(ps, job.offset)
    ensures Follows(job, m, PiecesOps(job, k, ps), ps)
    decreases |ps|
  {
    if ps != [] {
      hide PieceOps, MatchRun, PiecesMatch, RamAfter;
      OneFollows(job, k, ps[0], m);
      PiecesFollow(job, k, ps[1..], Run(job.row, m, PieceOps(job, k, ps[0])));
      FollowsConcat(job, m, PieceOps(job, k, ps[0]), PiecesOps(job, k, ps[1..]), [ps[0]], ps[1..]);
      assert [ps[0]] + ps[1..] == ps;
    }
  }

  lemma {:induction false} TiledBelow(ps: seq<Piece>, at: nat, end: nat, limit: nat, buffer: nat)
    requires Tiled(ps, at, end, limit, buffer)
    ensures Below(ps, limit) && forall i | 0 <= i < |ps| :: at <= ps[i].at
  {
    if ps != [] {
      TiledBelow(ps[1..], at + ps[0].chunk, end, limit, buffer);
      forall i | 0 <= i < |ps|
        ensures ps[i].at + ps[i].count <= limit && at <= ps[i].at
      {
        assert i > 0 ==> ps[i] == ps[1..][i - 1];
      }
    }
  }

  lemma BodyBelow(job: Job, k: nat)
    requires ValidJob(job) && k < job.row.flashSectors && Start(job.row, k) <= job.length
    ensures Below(BodyPieces(job, k), Start(job.row, k + 1)) && Start(job.row, k + 1) <= FlashSize(job.row)
    ensures forall i | 0 <= i < |BodyPieces(job, k)| :: Start(job.row, k) <= BodyPieces(job, k)[i].at
  {
    var ps := CutUp(job, k);
    TiledBelow(ps, Start(job.row, k), Start(job.row, k) + SectorLength(job, k), Start(job.row, k + 1), |job.content|);
    StartMono(job.row, k + 1, job.row.flashSectors);
  }

  /** Flash lies above everything that is compared. */
  predicate FlashAbove(job: Job, m: Memory)
  {
    && ValidJob(job) && job.verify && FlashSize(job.row) <= job.offset
    && m.base == job.offset && m.ramBase == RamBase(job.row.variant)
  }

  /** Commands that neither upload nor compare. */
  lemma SilentFollows(job: Job, m: Memory, ops: seq<Op>)
    requires forall i | 0 <= i < |ops| :: !ops[i].Compare? && !ops[i].Data?
    ensures Follows(job, m, ops, [])
  {
    Silent(job.row, m, ops);
  }

  lemma SectorFollows(job: Job, k: nat, m: Memory)
    requires FlashAbove(job, m) && k < job.row.flashSectors && Start(job.row, k) < job.length
    ensures Follows(job, m, SectorOps(job, k), BodyPieces(job, k))
  {
    hide PieceOps, Pieces, Follows;
    var head, ps := SectorHead(job, k), BodyPieces(job, k);
    SilentFollows(job, m, head);
    Silent(job.row, m, head);
    BodyBelow(job, k);
    assert SectorBody(job, k) == PiecesOps(job, k, ps);
    PiecesFollow(job, k, ps, Run(job.row, m, head));
    FollowsConcat(job, m, head, SectorBody(job, k), [], ps);
    assert [] + ps == ps;
  }

  lemma StillAbove(job: Job, m: Memory, ops: seq<Op>, ps: seq<Piece>)
    requires FlashAbove(job, m) && Bounded(job, ps) && Follows(job, m, ops, ps)
    ensures FlashAbove(job, Run(job.row, m, ops))
  {
  }

  lemma SectorThenFollows(job: Job, k: nat, m: Memory, more: seq<Op>, ps: seq<Piece>)
    requires FlashAbove(job, m) && k < job.row.flashSectors && Start(job.row, k) < job.length && Bounded(job, ps)
    requires FlashAbove(job, Run(job.row, m, SectorOps(job, k))) ==>
               Follows(job, Run(job.row, m, SectorOps(job, k)), more, ps)
    ensures Bounded(job, BodyPieces(job, k) + ps)
    ensures Follows(job, m, SectorOps(job, k) + more, BodyPieces(job, k) + ps)
  {
    hide SectorOps, BodyPieces, Follows;
    SectorFollows(job, k, m);
    StillAbove(job, m, SectorOps(job, k), BodyPieces(job, k));
    FollowsConcat(job, m, SectorOps(job, k), more, BodyPieces(job, k), ps);
  }

  lemma {:induction false} UpwardFollows(job: Job, k: nat, m: Memory)
    requires FlashAbove(job, m) && k <= job.row.flashSectors
    ensures Follows(job, m, Upward(job, k), UpwardPieces(job, k))
    decreases job.row.flashSectors - k
  {
    hide SectorOps, BodyPieces, Follows;
    if k < job.row.flashSectors && Start(job.row, k) < job.length {
      var between := Run(job.row, m, SectorOps(job, k));
      if FlashAbove(job, between) {
        UpwardFollows(job, k + 1, between);
      }
      SectorThenFollows(job, k, m, Upward(job, k + 1), UpwardPieces(job, k + 1));
    } else {
      SilentFollows(job, m, []);
    }
  }

  lemma {:induction false} RamAfterConcat(job: Job, ram: seq<byte>, a: seq<Piece>, b: seq<Piece>)
    requires Bounded(job, a) && Bounded(job, b)
    ensures Bounded(job, a + b) && RamAfter(job, ram, a + b) == RamAfter(job, RamAfter(job, ram, a), b)
    decreases |a|
  {
    if a == [] {
      assert a + b == b;
    } else {
      assert (a + b)[1..] == a[1..] + b;
      RamAfterConcat(job, Uploaded(job, ram, a[0]), a[1..], b);
    }
  }

  lemma ClosingFollows(job: Job, m: Memory)
    requires FlashAbove(job, m)
    ensures Follows(job, m, Closing(job), if Fits(job) then BodyPieces(job, 0) else [])
  {
    hide SectorOps, BodyPieces, Follows;
    if Fits(job) {
      var bank := if Banked(job.row.variant) then [SetBank] else [];
      SectorFollows(job, 0, m);
      SilentFollows(job, Run(job.row, m, SectorOps(job, 0)), bank);
      FollowsConcat(job, m, SectorOps(job, 0), bank, BodyPieces(job, 0), []);
      assert BodyPieces(job, 0) + [] == BodyPieces(job, 0);
    } else {
      SilentFollows(job, m, []);
    }
  }

  /** With flash above all compared addresses, the comparisons of a run find what they expect exactly if
      memory from address 0 on mirrors what is compared with it. */
  lemma WholeFollows(job: Job, m0: Memory)
    requires FlashAbove(job, m0)
    ensures MatchRun(job.row, m0, Whole(job)) <==> Mirrored(job, m0.low, m0.ram)
  {
    hide BodyPieces, UpwardPieces, Upward, Closing, MatchRun, PiecesMatch;
    var opening, upward, closing := Opening(job), Upward(job, 1), Closing(job);
    var zero := if Fits(job) then BodyPieces(job, 0) else [];
    SilentFollows(job, m0, opening);
    StillAbove(job, m0, opening, []);
    var m1 := Run(job.row, m0, opening);
    UpwardFollows(job, 1, m1);
    StillAbove(job, m1, upward, UpwardPieces(job, 1));
    ClosingFollows(job, Run(job.row, m1, upward));
    FollowsConcat(job, m1, upward, closing, UpwardPieces(job, 1), zero);
    FollowsConcat(job, m0, opening, upward + closing, [], UpwardPieces(job, 1) + zero);
    assert [] + (UpwardPieces(job, 1) + zero) == UpwardPieces(job, 1) + zero;
  }

  // ---------------------------------------------------------------- when a run is accepted

  /** Wherever flash starts, every command of the run is acceptable if and only if every sector can be
      served and every comparison finds what it expects. */
  lemma LegalAnywhere(job: Job, m0: Memory, capacity: nat)
    requires ValidJob(job) && ForDevice(job, m0) && m0.faults == [] && m0.due == 0
    ensures LegalRun(job.row, capacity, m0, Whole(job))
       <==> Served(job, capacity) && MatchRun(job.row, m0, Whole(job))
  {
    hide Served, LegalRun, MatchRun, SizedRun, Whole;
    LegalSplits(job.row, capacity, m0, Whole(job));
    if LegalRun(job.row, capacity, m0, Whole(job)) {
      RunNeeds(job, m0, capacity);
    }
    if Served(job, capacity) {
      RunProper(job, m0, capacity, Sizes);
      ProperIsSized(job.row, capacity, Sizes, m0, Whole(job));
    }
  }

  /** Flash starts at address 0, or above everything that is compared. */
  predicate ClearOfFlash(job: Job)
    requires ValidRow(job.row)
  {
    job.verify ==> job.offset == 0 || FlashSize(job.row) <= job.offset
  }

  /** What image and device must be like for a run to be accepted. */
  predicate Acceptable(job: Job, m0: Memory, capacity: nat)
    requires ValidJob(job)
  {
    Served(job, capacity) && (job.verify && 0 < job.offset ==> Mirrored(job, m0.low, m0.ram))
  }

  /** With flash at address 0 or above all compared addresses, every command of the run is acceptable if
      and only if every sector can be served and, where the comparisons of a verifying run meet other
      memory than flash, that memory mirrors the image. */
  lemma LegalExactly(job: Job, m0: Memory, capacity: nat)
    requires ValidJob(job) && ForDevice(job, m0) && ClearOfFlash(job) && m0.faults == [] && m0.due == 0
    ensures LegalRun(job.row, capacity, m0, Whole(job)) <==> Acceptable(job, m0, capacity)
  {
    hide Mirrored, Served, LegalRun, MatchRun, Whole;
    LegalAnywhere(job, m0, capacity);
    if job.verify && 0 < job.offset {
      WholeFollows(job, m0);
    } else if Served(job, capacity) {
      RunProper(job, m0, capacity, Contents);
      ProperIsLegal(job.row, capacity, Contents, m0, Whole(job));
    }
  }

  // ---------------------------------------------------------------- what acceptance says about other memory

  /** An image byte that a matching comparison has looked at. */
  lemma {:induction false} MatchedByte(job: Job, low: seq<byte>, ram: seq<byte>, ps: seq<Piece>, p: Piece, a: nat)
    requires Bounded(job, ps) && PiecesMatch(job, low, ram, ps) && p in ps
    requires 64 <= a && p.at <= a < p.at + p.count && a < p.at + p.upload
    ensures ByteAt(low, a) == Some(job.content[a])
    decreases |ps|
  {
    var ram' := Uploaded(job, ram, ps[0]);
    if p == ps[0] {
      assert ram'[a - p.at] == job.content[p.at..p.at + p.upload][a - p.at];
      assert ByteAt(low, a) == Some(RamAt(ram', a - p.at));
    } else {
      MatchedByte(job, low, ram', ps[1..], p, a);
    }
  }

  lemma {:induction false} TiledCovers(ps: seq<Piece>, at: nat, end: nat, limit: nat, buffer: nat, a: nat)
    returns (p: Piece)
    requires Tiled(ps, at, end, limit, buffer) && at <= a < end
    ensures p in ps && p.at <= a < p.at + p.chunk && p.chunk <= p.count && p.chunk <= p.upload
  {
    p := ps[0];
    if p.at + p.chunk <= a {
      p := TiledCovers(ps[1..], at + p.chunk, end, limit, buffer, a);
    }
  }

  lemma PieceOf(job: Job, k: nat, a: nat) returns (p: Piece)
    requires ValidJob(job) && Visited(job, k) && SectorBody(job, k) != [] && Start(job.row, k) <= a < End(job, k)
    ensures p in BodyPieces(job, k) && p.at <= a < p.at + p.count && a < p.at + p.upload
  {
    hide Pieces, PiecesOps;
    var ps := CutUp(job, k);
    p := TiledCovers(ps, Start(job.row, k), End(job, k), Start(job.row, k + 1), |job.content|, a);
  }

  lemma {:induction false} UpwardHas(job: Job, j: nat, k: nat, p: Piece)
    requires ValidJob(job) && j <= k < job.row.flashSectors && Start(job.row, k) < job.length && p in BodyPieces(job, k)
    ensures p in UpwardPieces(job, j)
    decreases k - j
  {
    hide BodyPieces;
    StartMono(job.row, j, k);
    if j < k {
      UpwardHas(job, j + 1, k, p);
    }
  }

  /** With flash above all compared addresses, an accepted run shows that the image is in the memory that
      lies there instead, in every sector that is programmed. */
  lemma OtherMemoryHolds(job: Job, m0: Memory, capacity: nat, k: nat, a: nat)
    requires FlashAbove(job, m0) && LegalRun(job.row, capacity, m0, Whole(job))
    requires Visited(job, k) && SectorBody(job, k) != []
    requires 64 <= a && Start(job.row, k) <= a < End(job, k)
    ensures ByteAt(m0.low, a) == Some(job.content[a])
  {
    hide LegalRun, MatchRun, BodyPieces, UpwardPieces, Whole;
    LegalSplits(job.row, capacity, m0, Whole(job));
    WholeFollows(job, m0);
    var p := PieceOf(job, k, a);
    if k > 0 {
      UpwardHas(job, 1, k, p);
    }
    MatchedByte(job, m0.low, m0.ram, AllPieces(job), p, a);
  }

  // ---------------------------------------------------------------- a memory that mirrors the image

  predicate Meet(p: Piece, q: Piece)
  {
    p.at < q.at + q.count && q.at < p.at + p.count
  }

  predicate PiecesApart(ps: seq<Piece>)
  {
    forall i, j | 0 <= i < j < |ps| :: !Meet(ps[i], ps[j])
  }

  /** What the comparison that covers address `a` holds against it. */
  function Expected(job: Job, ram: seq<byte>, ps: seq<Piece>, a: nat): byte
    requires Bounded(job, ps)
    decreases |ps|
  {
    if ps == [] then BLANK
    else if ps[0].at <= a < ps[0].at + ps[0].count then RamAt(Uploaded(job, ram, ps[0]), a - ps[0].at)
    else Expected(job, Uploaded(job, ram, ps[0]), ps[1..], a)
  }

  predicate Copies(job: Job, low: seq<byte>, ram: seq<byte>, ps: seq<Piece>)
    requires Bounded(job, ps)
  {
    forall i, a: nat | 0 <= i < |ps| && ps[i].at <= a < ps[i].at + ps[i].count ::
      ByteAt(low, a) == Some(Expected(job, ram, ps, a))
  }

  lemma RestCopies(job: Job, low: seq<byte>, ram: seq<byte>, ps: seq<Piece>)
    requires ps != [] && Bounded(job, ps) && PiecesApart(ps) && Copies(job, low, ram, ps)
    ensures PiecesApart(ps[1..]) && Copies(job, low, Uploaded(job, ram, ps[0]), ps[1..])
  {
    hide Uploaded;
    var rest := ps[1..];
    forall i, j | 0 <= i < j < |rest|
      ensures !Meet(rest[i], rest[j])
    {
      assert !Meet(ps[i + 1], ps[j + 1]);
    }
    forall i, a: nat | 0 <= i < |rest| && rest[i].at <= a < rest[i].at + rest[i].count
      ensures ByteAt(low, a) == Some(Expected(job, Uploaded(job, ram, ps[0]), rest, a))
    {
      var q := ps[i + 1];
      assert !Meet(ps[0], q) && q.at <= a < q.at + q.count;
      assert ByteAt(low, a) == Some(Expected(job, ram, ps, a));
    }
  }

  lemma {:induction false} ExpectedMatches(job: Job, low: seq<byte>, ram: seq<byte>, ps: seq<Piece>)
    requires Bounded(job, ps) && PiecesApart(ps) && Copies(job, low, ram, ps)
    ensures PiecesMatch(job, low, ram, ps)
    decreases |ps|
  {
    if ps != [] {
      hide Uploaded;
      var rest, ram' := ps[1..], Uploaded(job, ram, ps[0]);
      forall a: nat | 64 <= a && ps[0].at <= a < ps[0].at + ps[0].count
        ensures ByteAt(low, a) == Some(RamAt(ram', a - ps[0].at))
      {
        assert ByteAt(low, a) == Some(Expected(job, ram, ps, a));
      }
      RestCopies(job, low, ram, ps);
      ExpectedMatches(job, low, ram', rest);
    }
  }

  predicate From(ps: seq<Piece>, lo: nat)
  {
    forall i | 0 <= i < |ps| :: lo <= ps[i].at
  }

  lemma ApartConcat(a: seq<Piece>, b: seq<Piece>, mid: nat)
    requires PiecesApart(a) && PiecesApart(b) && Below(a, mid) && From(b, mid)
    ensures PiecesApart(a + b) && PiecesApart(b + a)
  {
  }

  lemma {:induction false} TiledApart(ps: seq<Piece>, at: nat, end: nat, limit: nat, buffer: nat)
    requires Tiled(ps, at, end, limit, buffer)
    ensures PiecesApart(ps)
  {
    if |ps| > 1 {
      var mid := at + ps[0].chunk;
      TiledApart(ps[1..], mid, end, limit, buffer);
      TiledBelow(ps[1..], mid, end, limit, buffer);
      assert Below(ps[..1], mid) && From(ps[1..], mid) && ps == ps[..1] + ps[1..];
      ApartConcat(ps[..1], ps[1..], mid);
    }
  }

  lemma BodyApart(job: Job, k: nat)
    requires ValidJob(job) && k < job.row.flashSectors && Start(job.row, k) <= job.length
    ensures PiecesApart(BodyPieces(job, k))
  {
    var ps := CutUp(job, k);
    TiledApart(ps, Start(job.row, k), Start(job.row, k) + SectorLength(job, k), Start(job.row, k + 1), |job.content|);
  }

  lemma {:induction false} UpwardApart(job: Job, k: nat)
    requires ValidJob(job) && k <= job.row.flashSectors
    ensures PiecesApart(UpwardPieces(job, k)) && From(UpwardPieces(job, k), Start(job.row, k))
    ensures Below(UpwardPieces(job, k), FlashSize(job.row))
    decreases job.row.flashSectors - k
  {
    hide BodyPieces;
    if k < job.row.flashSectors && Start(job.row, k) < job.length {
      UpwardApart(job, k + 1);
      BodyThenApart(job, k, UpwardPieces(job, k + 1));
    }
  }

  lemma BodyThenApart(job: Job, k: nat, ps: seq<Piece>)
    requires ValidJob(job) && k < job.row.flashSectors && Start(job.row, k) < job.length
    requires PiecesApart(ps) && From(ps, Start(job.row, k + 1)) && Below(ps, FlashSize(job.row))
    ensures PiecesApart(BodyPieces(job, k) + ps) && From(BodyPieces(job, k) + ps, Start(job.row, k))
    ensures Below(BodyPieces(job, k) + ps, FlashSize(job.row))
  {
    hide BodyPieces, PiecesApart;
    BodyApart(job, k);
    BodyBelow(job, k);
    ApartConcat(BodyPieces(job, k), ps, Start(job.row, k + 1));
    StartMono(job.row, k, k + 1);
  }

  /** There is always a memory under which the comparisons of a run find what they expect. */
  lemma MirrorExists(job: Job, ram: seq<byte>) returns (low: seq<byte>)
    requires ValidJob(job)
    ensures |low| == FlashSize(job.row) && Mirrored(job, low, ram)
  {
    hide BodyPieces, UpwardPieces;
    var ps := AllPieces(job);
    UpwardApart(job, 1);
    VectorsFit(job.row);
    if Fits(job) {
      BodyApart(job, 0);
      BodyBelow(job, 0);
      ApartConcat(BodyPieces(job, 0), UpwardPieces(job, 1), Start(job.row, 1));
    } else {
      assert ps == UpwardPieces(job, 1);
    }
    low := seq(FlashSize(job.row), a requires 0 <= a => Expected(job, ram, ps, a));
    assert Below(ps, FlashSize(job.row));
    ExpectedMatches(job, low, ram, ps);
  }
}
