/** Which cells the parts of a run may touch, and the discipline every copy command keeps. */
module Frames {
  import opened Bytes
  import opened Device
  import opened Plan

  /** The command changes flash cells `lo` up to `hi` at most. A comparison ends at address `hi` at most:
      its addresses leave out where flash starts. */
  predicate Within(row: Row, base: nat, op: Op, lo: nat, hi: nat)
  {
    match op
    case Erase(first, last) =>
      first <= last < |row.sectorTable| ==> lo <= Start(row, first) && Start(row, last + 1) <= hi
    case Copy(dst, _, count) => lo <= dst - base && dst - base + count <= hi
    case Compare(dst, _, span) => dst + span <= hi
    case _ => true
  }

  predicate AllWithin(row: Row, base: nat, ops: seq<Op>, lo: nat, hi: nat)
  {
    forall i | 0 <= i < |ops| :: Within(row, base, ops[i], lo, hi)
  }

  lemma {:induction false} RunFrame(row: Row, m: Memory, ops: seq<Op>, lo: nat, hi: nat)
    requires AllWithin(row, m.base, ops, lo, hi)
    ensures var r := Run(row, m, ops);
            && r.base == m.base && r.ramBase == m.ramBase && |r.flash| == |m.flash|
            && forall x: nat | x < |m.flash| && !(lo <= x < hi) :: r.flash[x] == m.flash[x]
    decreases |ops|
  {
    if ops != [] {
      assert Within(row, m.base, ops[0], lo, hi);
      forall i | 0 <= i < |ops[1..]|
        ensures Within(row, m.base, ops[1..][i], lo, hi)
      {
        assert Within(row, m.base, ops[i + 1], lo, hi);
      }
      RunFrame(row, Step(row, m, ops[0]), ops[1..], lo, hi);
    }
  }

  lemma {:induction false} PiecesWithin(job: Job, k: nat, ps: seq<Piece>, at: nat, end: nat, limit: nat)
    requires Tiled(ps, at, end, limit, |job.content|)
    requires forall i | 0 <= i < |ps| :: ps[i].at + ps[i].upload <= |job.content|
    ensures AllWithin(job.row, job.offset, PiecesOps(job, k, ps), at, limit)
  {
    if ps != [] {
      var first, rest := PieceOps(job, k, ps[0]), PiecesOps(job, k, ps[1..]);
      var mid := at + ps[0].chunk;
      PiecesWithin(job, k, ps[1..], mid, end, limit);
      Widen(job.row, job.offset, rest, mid, limit, at, limit);
      assert AllWithin(job.row, job.offset, first, at, limit);
    }
  }

  lemma SectorWithin(job: Job, k: nat)
    requires ValidJob(job) && k < |job.row.sectorTable| && Start(job.row, k) <= job.length
    ensures AllWithin(job.row, job.offset, SectorOps(job, k), Start(job.row, k), Start(job.row, k + 1))
  {
    var start, end, limit := Start(job.row, k), Start(job.row, k) + SectorLength(job, k), Start(job.row, k + 1);
    var ps := CutUp(job, k);
    PiecesWithin(job, k, ps, start, end, limit);
  }

  lemma Widen(row: Row, base: nat, ops: seq<Op>, lo: nat, hi: nat, lo': nat, hi': nat)
    requires AllWithin(row, base, ops, lo, hi) && lo' <= lo && hi <= hi'
    ensures AllWithin(row, base, ops, lo', hi')
  {
    forall i | 0 <= i < |ops|
      ensures Within(row, base, ops[i], lo', hi')
    {
      assert Within(row, base, ops[i], lo, hi);
    }
  }

  /** A sector the climb does not get to: the image has ended there, or the device has. */
  predicate Unreached(job: Job, top: nat)
    requires ValidJob(job)
  {
    top == job.row.flashSectors || (top < job.row.flashSectors && job.length <= Start(job.row, top))
  }

  lemma {:induction false} UpwardWithin(job: Job, k: nat, top: nat)
    requires ValidJob(job) && k <= top && Unreached(job, top)
    ensures AllWithin(job.row, job.offset, Upward(job, k), Start(job.row, k), Start(job.row, top))
    decreases job.row.flashSectors - k
  {
    hide SectorOps, Within;
    if k < job.row.flashSectors && Start(job.row, k) < job.length {
      UpwardWithin(job, k + 1, top);
      SectorThenAbove(job, k, Upward(job, k + 1), top);
    }
  }

  lemma SectorThenAbove(job: Job, k: nat, above: seq<Op>, top: nat)
    requires ValidJob(job) && k < top <= job.row.flashSectors && Start(job.row, k) < job.length
    requires AllWithin(job.row, job.offset, above, Start(job.row, k + 1), Start(job.row, top))
    ensures AllWithin(job.row, job.offset, SectorOps(job, k) + above, Start(job.row, k), Start(job.row, top))
  {
    var here, lo, mid, hi := SectorOps(job, k), Start(job.row, k), Start(job.row, k + 1), Start(job.row, top);
    StartMono(job.row, k + 1, top);
    SectorWithin(job, k);
    Widen(job.row, job.offset, here, lo, mid, lo, hi);
    Widen(job.row, job.offset, above, mid, hi, lo, hi);
    WithinConcat(job.row, job.offset, here, above, lo, hi);
  }

  lemma WithinConcat(row: Row, base: nat, a: seq<Op>, b: seq<Op>, lo: nat, hi: nat)
    requires AllWithin(row, base, a, lo, hi) && AllWithin(row, base, b, lo, hi)
    ensures AllWithin(row, base, a + b, lo, hi)
  {
    forall i | 0 <= i < |a + b|
      ensures Within(row, base, (a + b)[i], lo, hi)
    {
      assert i < |a| ==> Within(row, base, a[i], lo, hi);
      assert i >= |a| ==> Within(row, base, b[i - |a|], lo, hi);
    }
  }

  lemma ClosingWithin(job: Job)
    requires ValidJob(job)
    ensures AllWithin(job.row, job.offset, Closing(job), 0, Start(job.row, 1))
  {
    if Fits(job) {
      SectorWithin(job, 0);
    }
  }

  /** A run that does not wipe stays below every sector the image does not reach. */
  lemma WholeWithin(job: Job, top: nat)
    requires ValidJob(job) && 1 <= top && Unreached(job, top) && (job.wipe ==> top == job.row.flashSectors)
    ensures AllWithin(job.row, job.offset, Whole(job), 0, Start(job.row, top))
  {
    var hi := Start(job.row, top);
    StartMono(job.row, 1, top);
    UpwardWithin(job, 1, top);
    Widen(job.row, job.offset, Upward(job, 1), Start(job.row, 1), hi, 0, hi);
    ClosingWithin(job);
    Widen(job.row, job.offset, Closing(job), 0, Start(job.row, 1), 0, hi);
    WithinConcat(job.row, job.offset, Upward(job, 1), Closing(job), 0, hi);
    WithinConcat(job.row, job.offset, Opening(job), Upward(job, 1) + Closing(job), 0, hi);
  }

  // ---------------------------------------------------------------- no cell is programmed twice

  predicate Apart(a: Op, b: Op)
  {
    a.Copy? && b.Copy? ==> a.dst + a.count <= b.dst || b.dst + b.count <= a.dst
  }

  /** The cell ranges of any two copies are disjoint. */
  predicate CopiesDisjoint(ops: seq<Op>)
  {
    forall i, j | 0 <= i < j < |ops| :: Apart(ops[i], ops[j])
  }

  lemma DisjointConcat(row: Row, base: nat, a: seq<Op>, b: seq<Op>, lo: nat, hi: nat, lo': nat, hi': nat)
    requires CopiesDisjoint(a) && CopiesDisjoint(b)
    requires AllWithin(row, base, a, lo, hi) && AllWithin(row, base, b, lo', hi')
    requires hi <= lo' || hi' <= lo
    ensures CopiesDisjoint(a + b)
  {
    var ops := a + b;
    forall i, j | 0 <= i < j < |ops|
      ensures Apart(ops[i], ops[j])
    {
      if j < |a| {
        assert Apart(a[i], a[j]);
      } else if i >= |a| {
        assert Apart(b[i - |a|], b[j - |a|]);
      } else {
        assert Within(row, base, a[i], lo, hi) && Within(row, base, b[j - |a|], lo', hi');
      }
    }
  }

  lemma DisjointAfter(a: seq<Op>, b: seq<Op>)
    requires CopiesDisjoint(b) && forall i | 0 <= i < |a| :: !a[i].Copy?
    ensures CopiesDisjoint(a + b)
  {
    var ops := a + b;
    forall i, j | 0 <= i < j < |ops|
      ensures Apart(ops[i], ops[j])
    {
      if i >= |a| {
        assert Apart(b[i - |a|], b[j - |a|]);
      }
    }
  }

  lemma {:induction false} PiecesDisjoint(job: Job, k: nat, ps: seq<Piece>, at: nat, end: nat, limit: nat)
    requires Tiled(ps, at, end, limit, |job.content|)
    requires forall i | 0 <= i < |ps| :: ps[i].at + ps[i].upload <= |job.content|
    ensures CopiesDisjoint(PiecesOps(job, k, ps))
  {
    if ps != [] {
      var first, rest := PieceOps(job, k, ps[0]), PiecesOps(job, k, ps[1..]);
      var mid := at + ps[0].chunk;
      if |ps| == 1 {
        assert first + [] == first;
      } else {
        PiecesDisjoint(job, k, ps[1..], mid, end, limit);
        PiecesWithin(job, k, ps[1..], mid, end, limit);
        assert AllWithin(job.row, job.offset, first, at, mid);
        DisjointConcat(job.row, job.offset, first, rest, at, mid, mid, limit);
      }
    }
  }

  lemma SectorDisjoint(job: Job, k: nat)
    requires ValidJob(job) && k < |job.row.sectorTable| && Start(job.row, k) <= job.length
    ensures CopiesDisjoint(SectorOps(job, k))
  {
    hide PiecesOps, Pieces;
    var start, end, limit := Start(job.row, k), Start(job.row, k) + SectorLength(job, k), Start(job.row, k + 1);
    var ps := CutUp(job, k);
    PiecesDisjoint(job, k, ps, start, end, limit);
    DisjointAfter(SectorHead(job, k), SectorBody(job, k));
  }

  lemma {:induction false} UpwardDisjoint(job: Job, k: nat)
    requires ValidJob(job) && k <= job.row.flashSectors
    ensures CopiesDisjoint(Upward(job, k))
    decreases job.row.flashSectors - k
  {
    hide Apart, SectorOps, Within;
    if k < job.row.flashSectors && Start(job.row, k) < job.length {
      UpwardDisjoint(job, k + 1);
      UpwardWithin(job, k + 1, job.row.flashSectors);
      SectorApartFromAbove(job, k, Upward(job, k + 1));
    }
  }

  lemma SectorApartFromAbove(job: Job, k: nat, above: seq<Op>)
    requires ValidJob(job) && k < job.row.flashSectors && Start(job.row, k) < job.length
    requires AllWithin(job.row, job.offset, above, Start(job.row, k + 1), FlashSize(job.row)) && CopiesDisjoint(above)
    ensures CopiesDisjoint(SectorOps(job, k) + above)
  {
    var lo, mid, hi := Start(job.row, k), Start(job.row, k + 1), FlashSize(job.row);
    SectorDisjoint(job, k);
    SectorWithin(job, k);
    DisjointConcat(job.row, job.offset, SectorOps(job, k), above, lo, mid, mid, hi);
  }

  /** No flash cell is programmed twice in a run. */
  lemma NoDoubleWrite(job: Job)
    requires ValidJob(job)
    ensures CopiesDisjoint(Whole(job))
  {
    if Fits(job) {
      var bank := if Banked(job.row.variant) then [SetBank] else [];
      SectorDisjoint(job, 0);
      SectorWithin(job, 0);
      var hi := Start(job.row, 1);
      DisjointConcat(job.row, job.offset, SectorOps(job, 0), bank, 0, hi, hi, hi);
    }
    ClosingWithin(job);
    UpwardDisjoint(job, 1);
    UpwardWithin(job, 1, job.row.flashSectors);
    DisjointConcat(job.row, job.offset, Upward(job, 1), Closing(job),
                   Start(job.row, 1), FlashSize(job.row), 0, Start(job.row, 1));
    DisjointAfter(Opening(job), Upward(job, 1) + Closing(job));
  }

  // ---------------------------------------------------------------- prepare, then copy

  /** Every copy directly follows the preparation of the one sector that contains its range. */
  predicate CopyPrepared(job: Job, ops: seq<Op>, i: nat)
    requires ValidRow(job.row) && i < |ops|
  {
    ops[i].Copy? ==>
      && i > 0 && ops[i - 1].Prepare? && ops[i - 1].first == ops[i - 1].last < job.row.flashSectors
      && job.offset + Start(job.row, ops[i - 1].first) <= ops[i].dst
      && ops[i].dst + ops[i].count <= job.offset + Start(job.row, ops[i - 1].first + 1)
  }

  predicate AllPrepared(job: Job, ops: seq<Op>)
    requires ValidRow(job.row)
  {
    forall i | 0 <= i < |ops| :: CopyPrepared(job, ops, i)
  }

  lemma PreparedConcat(job: Job, a: seq<Op>, b: seq<Op>)
    requires ValidRow(job.row) && AllPrepared(job, a) && AllPrepared(job, b)
    ensures AllPrepared(job, a + b)
  {
    forall i | 0 <= i < |a + b|
      ensures CopyPrepared(job, a + b, i)
    {
      if i < |a| {
        assert CopyPrepared(job, a, i);
      } else {
        assert CopyPrepared(job, b, i - |a|);
      }
    }
  }

  lemma {:induction false} PiecesPrepared(job: Job, k: nat, ps: seq<Piece>, at: nat, end: nat)
    requires ValidRow(job.row) && k < job.row.flashSectors && Start(job.row, k) <= at
    requires Tiled(ps, at, end, Start(job.row, k + 1), |job.content|)
    requires forall i | 0 <= i < |ps| :: ps[i].at + ps[i].upload <= |job.content|
    ensures AllPrepared(job, PiecesOps(job, k, ps))
  {
    if ps != [] {
      PiecesPrepared(job, k, ps[1..], at + ps[0].chunk, end);
      PreparedConcat(job, PieceOps(job, k, ps[0]), PiecesOps(job, k, ps[1..]));
    }
  }

  lemma SectorPrepared(job: Job, k: nat)
    requires ValidJob(job) && k < job.row.flashSectors && Start(job.row, k) <= job.length
    ensures AllPrepared(job, SectorOps(job, k))
  {
    hide PiecesOps, Pieces;
    var start, end, limit := Start(job.row, k), Start(job.row, k) + SectorLength(job, k), Start(job.row, k + 1);
    var ps := CutUp(job, k);
    PiecesPrepared(job, k, ps, start, end);
    PreparedConcat(job, SectorHead(job, k), SectorBody(job, k));
  }

  lemma {:induction false} UpwardPrepared(job: Job, k: nat)
    requires ValidJob(job) && k <= job.row.flashSectors
    ensures AllPrepared(job, Upward(job, k))
    decreases job.row.flashSectors - k
  {
    hide CopyPrepared, SectorOps;
    if k < job.row.flashSectors && Start(job.row, k) < job.length {
      SectorPrepared(job, k);
      UpwardPrepared(job, k + 1);
      PreparedConcat(job, SectorOps(job, k), Upward(job, k + 1));
    }
  }

  lemma CopiesPrepared(job: Job)
    requires ValidJob(job)
    ensures AllPrepared(job, Whole(job))
  {
    UpwardPrepared(job, 1);
    assert AllPrepared(job, Closing(job)) by {
      if Fits(job) {
        SectorPrepared(job, 0);
        PreparedConcat(job, SectorOps(job, 0), if Banked(job.row.variant) then [SetBank] else []);
      }
    }
    PreparedConcat(job, Upward(job, 1), Closing(job));
    PreparedConcat(job, Opening(job), Upward(job, 1) + Closing(job));
  }

  // ---------------------------------------------------------------- sector numbers and banks

  /** The command names no sector but `k`, which is erased only if that has not been done before, and it is
      not the one that selects a bank. */
  predicate OfSector(op: Op, k: nat, wipe: bool)
  {
    match op
    case Prepare(first, last) => first == last == k
    case Erase(first, last) => first == last == k && k > 0 && !wipe
    case SetBank => false
    case _ => true
  }

  predicate AllOf(ops: seq<Op>, k: nat, wipe: bool)
  {
    forall i | 0 <= i < |ops| :: OfSector(ops[i], k, wipe)
  }

  lemma {:induction false} PiecesOf(job: Job, k: nat, ps: seq<Piece>)
    requires forall i | 0 <= i < |ps| :: ps[i].at + ps[i].upload <= |job.content|
    ensures AllOf(PiecesOps(job, k, ps), k, job.wipe)
  {
    if ps != [] {
      PiecesOf(job, k, ps[1..]);
    }
  }

  /** A sector's commands prepare and erase that sector alone, and none erases what has been erased. */
  lemma SectorOf(job: Job, k: nat)
    requires ValidJob(job) && k < |job.row.sectorTable| && Start(job.row, k) <= job.length
    ensures AllOf(SectorOps(job, k), k, job.wipe)
  {
    hide PiecesOps, Pieces;
    var ps := CutUp(job, k);
    PiecesOf(job, k, ps);
  }

  predicate NoBank(ops: seq<Op>)
  {
    forall i | 0 <= i < |ops| :: !ops[i].SetBank?
  }

  lemma SectorNoBank(job: Job, k: nat)
    requires ValidJob(job) && k < |job.row.sectorTable| && Start(job.row, k) <= job.length
    ensures NoBank(SectorOps(job, k))
  {
    SectorOf(job, k);
    forall i | 0 <= i < |SectorOps(job, k)|
      ensures !SectorOps(job, k)[i].SetBank?
    {
      assert OfSector(SectorOps(job, k)[i], k, job.wipe);
    }
  }

  lemma {:induction false} UpwardNoBank(job: Job, k: nat)
    requires ValidJob(job) && k <= job.row.flashSectors
    ensures NoBank(Upward(job, k))
    decreases job.row.flashSectors - k
  {
    hide SectorOps;
    if k < job.row.flashSectors && Start(job.row, k) < job.length {
      SectorNoBank(job, k);
      UpwardNoBank(job, k + 1);
    }
  }

  /** On LPC18XX and LPC43XX a run of an image that fits ends by selecting the bank, which is done nowhere else. */
  lemma BankLast(job: Job)
    requires ValidJob(job)
    ensures var ops, banked := Whole(job), job.row.variant.LPC18XX? || job.row.variant.LPC43XX?;
      && NoBank(ops[..|ops| - 1])
      && (ops[|ops| - 1].SetBank? <==> banked && job.length <= FlashSize(job.row))
  {
    hide SectorOps, Upward;
    UpwardNoBank(job, 1);
    if Fits(job) {
      SectorNoBank(job, 0);
    }
    var ops := Whole(job);
    if Fits(job) && Banked(job.row.variant) {
      Associate(Opening(job) + Upward(job, 1), SectorOps(job, 0), [SetBank]);
      Associate(Opening(job), Upward(job, 1), Closing(job));
      assert ops == ((Opening(job) + Upward(job, 1)) + SectorOps(job, 0)) + [SetBank];
    }
  }
}
