/** The order in which a run visits sectors: upward from 1, and sector 0 last. */
module Walk {
  import opened Device
  import opened Plan

  function Climb(job: Job, k: nat): (s: seq<nat>)
    requires ValidJob(job) && k <= job.row.flashSectors
    decreases job.row.flashSectors - k
  {
    if k < job.row.flashSectors && Start(job.row, k) < job.length then [k] + Climb(job, k + 1) else []
  }

  function Visits(job: Job): (s: seq<nat>)
    requires ValidJob(job)
  {
    Climb(job, 1) + (if Fits(job) then [0] else [])
  }

  lemma {:induction false} ClimbExact(job: Job, k: nat)
    requires ValidJob(job) && k <= job.row.flashSectors
    ensures forall i | 0 <= i < |Climb(job, k)| :: Climb(job, k)[i] == k + i
    ensures forall s: nat :: s in Climb(job, k) <==> k <= s < job.row.flashSectors && Start(job.row, s) < job.length
    decreases job.row.flashSectors - k
  {
    if k < job.row.flashSectors && Start(job.row, k) < job.length {
      ClimbExact(job, k + 1);
    } else {
      forall s: nat | k <= s < job.row.flashSectors
        ensures Start(job.row, s) >= job.length
      {
        StartMono(job.row, k, s);
      }
    }
  }

  /** An image that fits is visited as 1, 2, .., m, 0: exactly the sectors it meets, each once. */
  lemma VisitsExact(job: Job)
    requires ValidJob(job) && Fits(job)
    ensures var s := Visits(job);
            && |s| >= 1 && s[|s| - 1] == 0
            && (forall i | 0 <= i < |s| - 1 :: s[i] == i + 1)
            && (forall k: nat :: k in s <==> k < job.row.flashSectors && Start(job.row, k) < job.length)
  {
    ClimbExact(job, 1);
    assert forall k: nat :: k in Visits(job) <==> k in Climb(job, 1) || k == 0;
  }
}
