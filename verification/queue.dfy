/**
 * The work-queue as a sequential state machine: a run applies handler calls
 * one after another, each as one atomic step. The lemmas state what holds of
 * every run: statuses only move forward, no job is handed out twice, claims
 * come out in ascending id order, and scoped calls never touch other sources.
 */
module Queue {
  import opened Wrappers
  import opened Ids
  import opened Jobs
  import opened Repository
  import opened Controller

  /** One call to a handler. `SubmitAuto` carries the id the generator produced. */
  datatype Op =
    | CheckActive(source: string, id: string)
    | ClaimAny
    | ClaimFrom(source: string)
    | Submit(document: Document, source: string, id: string)
    | SubmitAuto(document: Document, source: string, freshId: string)
    | MarkDone(source: string, id: string)

  /** The id generator only produces ULIDs. */
  predicate WellFormed(op: Op)
  {
    op.SubmitAuto? ==> ValidUlid(op.freshId)
  }

  predicate AllWellFormed(ops: seq<Op>)
  {
    forall i :: 0 <= i < |ops| ==> WellFormed(ops[i])
  }

  /** The claim filter a claim call uses; None for the other calls. */
  function ClaimFilter(op: Op): Option<Option<string>>
  {
    match op
    case ClaimAny => Some(None)
    case ClaimFrom(s) => Some(Some(s))
    case _ => None
  }

  function Step(t: Table, op: Op): (r: Reply)
    requires WellFormed(op)
  {
    match op
    case CheckActive(source, id) => IsJobActive(t, source, id)
    case ClaimAny => FindAvailableJobHandler(t, None)
    case ClaimFrom(source) => FindAvailableJobHandler(t, Some(source))
    case Submit(document, source, id) => CreateJobWithId(t, document, source, id)
    case SubmitAuto(document, source, freshId) => CreateJobAutoId(t, document, source, freshId)
    case MarkDone(source, id) => NotifyJobDone(t, source, id)
  }

  /** The table after a run and the responses of its calls, in order. */
  datatype Trace = Trace(table: Table, responses: seq<Response>)

  function Run(t: Table, ops: seq<Op>): (tr: Trace)
    requires AllWellFormed(ops)
    ensures |tr.responses| == |ops|
    decreases |ops|
  {
    if ops == [] then Trace(t, [])
    else
      var r := Step(t, ops[0]);
      var rest := Run(r.table, ops[1..]);
      Trace(rest.table, [r.response] + rest.responses)
  }

  // ---------------------------------------------------------------------
  // Forward-only lifecycle
  // ---------------------------------------------------------------------

  /** No call removes a row, changes its source or payload, or moves its
      status backwards. */
  lemma StepAdvances(t: Table, op: Op)
    requires WellFormed(op)
    ensures Advanced(t, Step(t, op).table)
  {
  }

  /** Over a whole run no row disappears, none changes source or payload,
      and no status moves backwards. */
  lemma {:induction false} RunAdvances(t: Table, ops: seq<Op>)
    requires AllWellFormed(ops)
    ensures Advanced(t, Run(t, ops).table)
    decreases |ops|
  {
    if ops != [] {
      var r := Step(t, ops[0]);
      StepAdvances(t, ops[0]);
      RunAdvances(r.table, ops[1..]);
      AdvancedTransitive(t, r.table, Run(r.table, ops[1..]).table);
    }
  }

  lemma WellFormedConcat(a: seq<Op>, b: seq<Op>)
    requires AllWellFormed(a) && AllWellFormed(b)
    ensures AllWellFormed(a + b)
  {
    forall i | 0 <= i < |a + b|
      ensures WellFormed((a + b)[i])
    {
      if i < |a| { assert WellFormed(a[i]); } else { assert WellFormed(b[i - |a|]); }
    }
  }

  /** A non-empty run is its first step followed by the run of the rest. */
  lemma RunUnfold(t: Table, ops: seq<Op>)
    requires AllWellFormed(ops) && ops != []
    ensures WellFormed(ops[0]) && AllWellFormed(ops[1..])
    ensures var r := Step(t, ops[0]);
            && Run(t, ops).table == Run(r.table, ops[1..]).table
            && Run(t, ops).responses == [r.response] + Run(r.table, ops[1..]).responses
  {
    assert WellFormed(ops[0]);
    assert AllWellFormed(ops[1..]) by {
      forall i | 0 <= i < |ops| - 1
        ensures WellFormed(ops[1..][i])
      {
        assert ops[1..][i] == ops[i + 1];
      }
    }
  }

  /** Running two call sequences back to back is running their concatenation. */
  lemma {:induction false} RunAppend(t: Table, a: seq<Op>, b: seq<Op>)
    requires AllWellFormed(a) && AllWellFormed(b)
    ensures AllWellFormed(a + b)
    ensures Run(t, a + b).table == Run(Run(t, a).table, b).table
    ensures Run(t, a + b).responses == Run(t, a).responses + Run(Run(t, a).table, b).responses
    decreases |a|
  {
    WellFormedConcat(a, b);
    if a == [] {
      assert a + b == b;
    } else {
      var ab := a + b;
      var r := Step(t, a[0]);
      assert ab[0] == a[0];
      assert ab[1..] == a[1..] + b;
      RunUnfold(t, a);
      RunUnfold(t, ab);
      var mid := Run(r.table, a[1..]);
      RunAppend(r.table, a[1..], b);
      var tail := Run(mid.table, b);
      assert Run(t, ab).table == tail.table;
      assert Run(t, ab).responses == [r.response] + (mid.responses + tail.responses);
      assert Run(t, a).responses == [r.response] + mid.responses;
      assert [r.response] + (mid.responses + tail.responses) == ([r.response] + mid.responses) + tail.responses;
    }
  }

  /** A job's status observed at any two moments of a run has only moved
      forward (AVAILABLE, then ACTIVE, then DONE, possibly skipping ACTIVE). */
  lemma StatusNeverRegresses(t: Table, ops: seq<Op>, i: nat, j: nat, id: string)
    requires AllWellFormed(ops)
    requires i <= j <= |ops|
    requires id in Run(t, ops[..i]).table
    ensures id in Run(t, ops[..j]).table
    ensures Advances(Run(t, ops[..i]).table[id].status, Run(t, ops[..j]).table[id].status)
  {
    var a := ops[..i];
    var b := ops[i..j];
    assert ops[..j] == a + b;
    assert AllWellFormed(a);
    assert AllWellFormed(b) by {
      forall k | 0 <= k < |b|
        ensures WellFormed(b[k])
      {
        assert b[k] == ops[i + k];
      }
    }
    RunAppend(t, a, b);
    RunAdvances(Run(t, a).table, b);
  }

  /** Only a claim moves a job from AVAILABLE to ACTIVE, and that claim
      returns the job. */
  lemma OnlyClaimActivates(t: Table, op: Op, id: string)
    requires WellFormed(op)
    requires id in t && t[id].status == Available
    requires Step(t, op).table[id].status == Active
    ensures ClaimFilter(op).Some?
    ensures Step(t, op).response.status == Ok
    ensures Step(t, op).response.body == Some(JobOf(Step(t, op).table, id))
  {
  }

  // ---------------------------------------------------------------------
  // No job is handed out twice
  // ---------------------------------------------------------------------

  /** Ids of the jobs handed out by a run, in order: the 200 responses that
      carry a job. */
  function Handed(rs: seq<Response>): (ids: seq<string>)
    ensures |ids| <= |rs|
  {
    if rs == [] then []
    else if rs[0].status == Ok && rs[0].body.Some? then [rs[0].body.value.id] + Handed(rs[1..])
    else Handed(rs[1..])
  }

  /** A response carrying a job with status 200 comes from a claim that
      handed out a then-claimable job. */
  lemma StepHandsOutClaimable(t: Table, op: Op)
    requires WellFormed(op)
    requires Step(t, op).response.status == Ok && Step(t, op).response.body.Some?
    ensures ClaimFilter(op).Some?
    ensures Claimable(t, ClaimFilter(op).value, Step(t, op).response.body.value.id)
  {
  }

  /** A job that is no longer AVAILABLE is never handed out again. */
  lemma {:induction false} NeverHandedAgain(t: Table, ops: seq<Op>, x: string)
    requires AllWellFormed(ops)
    requires x in t && t[x].status != Available
    ensures x !in Handed(Run(t, ops).responses)
    decreases |ops|
  {
    if ops != [] {
      var r := Step(t, ops[0]);
      if r.response.status == Ok && r.response.body.Some? {
        StepHandsOutClaimable(t, ops[0]);
      }
      NeverHandedAgain(r.table, ops[1..], x);
    }
  }

  predicate Distinct(ids: seq<string>)
  {
    forall i, j :: 0 <= i < j < |ids| ==> ids[i] != ids[j]
  }

  /** Every run hands out each job at most once. */
  lemma {:induction false} NoDoubleClaim(t: Table, ops: seq<Op>)
    requires AllWellFormed(ops)
    ensures Distinct(Handed(Run(t, ops).responses))
    decreases |ops|
  {
    if ops != [] {
      var r := Step(t, ops[0]);
      var rest := Run(r.table, ops[1..]);
      NoDoubleClaim(r.table, ops[1..]);
      if r.response.status == Ok && r.response.body.Some? {
        var x := r.response.body.value.id;
        StepHandsOutClaimable(t, ops[0]);
        NeverHandedAgain(r.table, ops[1..], x);
        assert Handed(Run(t, ops).responses) == [x] + Handed(rest.responses);
      } else {
        assert Handed(Run(t, ops).responses) == Handed(rest.responses);
      }
    }
  }

  // ---------------------------------------------------------------------
  // Repeated claims: FIFO by id, and exactly as many successes as jobs
  // ---------------------------------------------------------------------

  /** Every call is a claim with the same filter. */
  predicate AllClaims(ops: seq<Op>, filter: Option<string>)
  {
    forall i :: 0 <= i < |ops| ==> ClaimFilter(ops[i]) == Some(filter)
  }

  lemma AllClaimsWellFormed(ops: seq<Op>, filter: Option<string>)
    requires AllClaims(ops, filter)
    ensures AllWellFormed(ops)
  {
    forall i | 0 <= i < |ops|
      ensures WellFormed(ops[i])
    {
      assert ClaimFilter(ops[i]).Some?;
    }
  }

  lemma AllClaimsTail(ops: seq<Op>, filter: Option<string>)
    requires AllClaims(ops, filter) && ops != []
    ensures AllClaims(ops[1..], filter)
    ensures ClaimFilter(ops[0]) == Some(filter)
  {
    forall i | 0 <= i < |ops[1..]|
      ensures ClaimFilter(ops[1..][i]) == Some(filter)
    {
      assert ops[1..][i] == ops[i + 1];
    }
  }

  /** A claim call is the claim handler with its filter. */
  lemma ClaimStep(t: Table, op: Op, filter: Option<string>)
    requires ClaimFilter(op) == Some(filter)
    ensures WellFormed(op)
    ensures Step(t, op) == FindAvailableJobHandler(t, filter)
  {
  }

  /** A claim succeeds exactly when some job is claimable, and then there is
      one claimable job fewer. */
  lemma ClaimCountsDown(t: Table, filter: Option<string>)
    ensures var r := FindAvailableJobHandler(t, filter);
            && (r.response.status == Ok <==> |Candidates(t, filter)| > 0)
            && |Candidates(r.table, filter)| ==
                 if r.response.status == Ok then |Candidates(t, filter)| - 1 else |Candidates(t, filter)|
  {
    var r := FindAvailableJobHandler(t, filter);
    ClaimShrinksCandidates(t, filter);
    if r.response.status == Ok {
      assert r.response.body.value.id in Candidates(t, filter);
    } else {
      assert Candidates(t, filter) == {};
    }
  }

  /** A job claimable after a claim was claimable before it, and is not the
      one that claim handed out. */
  lemma ClaimableBeforeClaim(t: Table, filter: Option<string>, x: string)
    requires Claimable(FindAvailableJobHandler(t, filter).table, filter, x)
    ensures Claimable(t, filter, x)
    ensures FindAvailableJobHandler(t, filter).response.body.Some? ==>
      x != FindAvailableJobHandler(t, filter).response.body.value.id
  {
  }

  /** In a run of claims, every job handed out was claimable at the start. */
  lemma {:induction false} ClaimsHandOutInitiallyClaimable(t: Table, ops: seq<Op>, filter: Option<string>)
    requires AllClaims(ops, filter)
    ensures AllWellFormed(ops)
    ensures forall x :: x in Handed(Run(t, ops).responses) ==> Claimable(t, filter, x)
    decreases |ops|
  {
    AllClaimsWellFormed(ops, filter);
    if ops != [] {
      AllClaimsTail(ops, filter);
      ClaimStep(t, ops[0], filter);
      var r := FindAvailableJobHandler(t, filter);
      ClaimsHandOutInitiallyClaimable(r.table, ops[1..], filter);
      var later := Handed(Run(r.table, ops[1..]).responses);
      forall x | x in later
        ensures Claimable(t, filter, x)
      {
        ClaimableBeforeClaim(t, filter, x);
      }
      if r.response.status == Ok {
        assert Handed(Run(t, ops).responses) == [r.response.body.value.id] + later;
      } else {
        assert Handed(Run(t, ops).responses) == later;
      }
    }
  }

  predicate StrictlyAscending(ids: seq<string>)
  {
    forall i, j :: 0 <= i < j < |ids| ==> Less(ids[i], ids[j])
  }

  /** Repeated claims with one filter hand jobs out in ascending id order:
      non-decreasing millisecond timestamp, with ids of one millisecond
      ordered by their random part. */
  lemma {:induction false} ClaimsAreFifo(t: Table, ops: seq<Op>, filter: Option<string>)
    requires AllClaims(ops, filter)
    ensures AllWellFormed(ops)
    ensures StrictlyAscending(Handed(Run(t, ops).responses))
    decreases |ops|
  {
    AllClaimsWellFormed(ops, filter);
    if ops != [] {
      AllClaimsTail(ops, filter);
      ClaimStep(t, ops[0], filter);
      var r := FindAvailableJobHandler(t, filter);
      ClaimsAreFifo(r.table, ops[1..], filter);
      var later := Handed(Run(r.table, ops[1..]).responses);
      if r.response.status == Ok {
        var m := r.response.body.value.id;
        ClaimsHandOutInitiallyClaimable(r.table, ops[1..], filter);
        forall k | 0 <= k < |later|
          ensures Less(m, later[k])
        {
          ClaimableBeforeClaim(t, filter, later[k]);
        }
        assert Handed(Run(t, ops).responses) == [m] + later;
      } else {
        assert Handed(Run(t, ops).responses) == later;
      }
    }
  }

  /**
   * N claims against a queue holding M claimable jobs: the first min(N, M)
   * answer 200 and the rest 404.
   */
  lemma {:induction false} ClaimsDrainQueue(t: Table, ops: seq<Op>, filter: Option<string>)
    requires AllClaims(ops, filter)
    ensures AllWellFormed(ops)
    ensures forall i :: 0 <= i < |ops| ==>
      (Run(t, ops).responses[i].status == Ok <==> i < |Candidates(t, filter)|)
    ensures forall i :: 0 <= i < |ops| ==> Run(t, ops).responses[i].status in {Ok, NotFound}
    decreases |ops|
  {
    AllClaimsWellFormed(ops, filter);
    if ops != [] {
      AllClaimsTail(ops, filter);
      ClaimStep(t, ops[0], filter);
      var r := FindAvailableJobHandler(t, filter);
      ClaimsDrainQueue(r.table, ops[1..], filter);
      ClaimCountsDown(t, filter);
      var all := Run(t, ops).responses;
      var rest := Run(r.table, ops[1..]).responses;
      assert all == [r.response] + rest;
      forall i | 0 <= i < |ops|
        ensures all[i].status == Ok <==> i < |Candidates(t, filter)|
        ensures all[i].status in {Ok, NotFound}
      {
        if i > 0 {
          assert all[i] == rest[i - 1];
        }
      }
    }
  }

  // ---------------------------------------------------------------------
  // Source isolation
  // ---------------------------------------------------------------------

  /** Calls that only concern source `s`: claims restricted to it, marking
      its jobs done, submitting jobs to it, and activity checks (which write
      nothing). */
  predicate ScopedTo(op: Op, s: string)
  {
    || op == ClaimFrom(s)
    || (op.MarkDone? && op.source == s)
    || (op.Submit? && op.source == s)
    || (op.SubmitAuto? && op.source == s)
    || op.CheckActive?
  }

  /** Calls scoped to one source never change a row of another source. */
  lemma {:induction false} OtherSourcesUntouched(t: Table, ops: seq<Op>, s: string)
    requires AllWellFormed(ops)
    requires forall i :: 0 <= i < |ops| ==> ScopedTo(ops[i], s)
    ensures forall k :: k in t && t[k].source != s ==> k in Run(t, ops).table && Run(t, ops).table[k] == t[k]
    decreases |ops|
  {
    if ops != [] {
      assert ScopedTo(ops[0], s);
      var r := Step(t, ops[0]);
      assert AllWellFormed(ops[1..]) && forall i :: 0 <= i < |ops[1..]| ==> ScopedTo(ops[1..][i], s) by {
        forall i | 0 <= i < |ops[1..]|
          ensures WellFormed(ops[1..][i]) && ScopedTo(ops[1..][i], s)
        {
          assert ops[1..][i] == ops[i + 1];
        }
      }
      OtherSourcesUntouched(r.table, ops[1..], s);
      forall k | k in t && t[k].source != s
        ensures r.table[k] == t[k]
      {
      }
    }
  }
}
