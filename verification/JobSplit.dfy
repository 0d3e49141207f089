/** How the stores of one call are cut into job files. */
module JobSplit {

  const THRESHOLD := 10000

  function Joined(jobs: seq<seq<nat>>): seq<nat> {
    if jobs == [] then [] else Joined(jobs[..|jobs| - 1]) + jobs[|jobs| - 1]
  }

  /** An exact multiple of the threshold makes the last job index past the end. */
  predicate Fails(ids: seq<nat>) { ids != [] && |ids| % THRESHOLD == 0 }

  /** The stores that end up in a job: the loop stops one short of the last whole block, and the last job starts
      after that block. */
  function InJobs(ids: seq<nat>): seq<nat> {
    var q := |ids| / THRESHOLD;
    ids[..if q == 0 then 0 else (q - 1) * THRESHOLD] + if Fails(ids) then [] else ids[q * THRESHOLD..]
  }

  method Split(ids: seq<nat>) returns (jobs: seq<seq<nat>>, failed: bool)
    ensures failed <==> Fails(ids)
    ensures Joined(jobs) == InJobs(ids)
    ensures var q := |ids| / THRESHOLD;
            && |jobs| == (if q == 0 then 0 else q - 1) + (if failed || ids == [] then 0 else 1)
            && (forall k :: 0 <= k < q - 1 ==> jobs[k] == ids[k * THRESHOLD..(k + 1) * THRESHOLD])
            && (!failed && ids != [] ==> jobs[|jobs| - 1] == ids[q * THRESHOLD..])
    ensures forall k :: 0 <= k < |jobs| ==> 0 < |jobs[k]| <= THRESHOLD
  {
    jobs, failed := [], false;
    if |ids| == 0 {
      return;
    }
    var q := |ids| / THRESHOLD;
    var done := 0;
    for i := 1 to if q == 0 then 1 else q
      invariant done == (i - 1) * THRESHOLD && Joined(jobs) == ids[..done] && |jobs| == i - 1
      invariant forall k :: 0 <= k < |jobs| ==> jobs[k] == ids[k * THRESHOLD..(k + 1) * THRESHOLD]
      invariant forall k :: 0 <= k < |jobs| ==> 0 < |jobs[k]| <= THRESHOLD
    {
      jobs := jobs + [ids[(i - 1) * THRESHOLD..i * THRESHOLD]];
      done := i * THRESHOLD;
    }
    if |ids| <= q * THRESHOLD {
      failed := true;
      return;
    }
    jobs := jobs + [ids[q * THRESHOLD..]];
  }

  /** Every store is in a job if and only if there are fewer stores than the threshold. */
  lemma CoversAllIff(ids: seq<nat>)
    ensures !Fails(ids) && InJobs(ids) == ids <==> |ids| < THRESHOLD
  {
    if |ids| < THRESHOLD {
      assert ids[..0] + ids[0..] == ids;
    } else if !Fails(ids) {
      assert |InJobs(ids)| == |ids| - THRESHOLD;
    }
  }

  /** The inputs that show it: one store more than a block keeps only that store, one whole block fails. */
  lemma WholeBlockIsLost(ids: seq<nat>)
    ensures |ids| == THRESHOLD + 1 ==> InJobs(ids) == [ids[THRESHOLD]]
    ensures |ids| == THRESHOLD ==> Fails(ids) && InJobs(ids) == []
  {
  }
}
