/**
 * The job table and the store operations the HTTP handlers call. The table
 * is keyed by job id; every operation is one atomic step from a table to a
 * table plus what the SQL statement reports.
 */
module Repository {
  import opened Wrappers
  import opened Ids
  import opened Jobs

  /** One row of the job table, less its key. */
  datatype Row = Row(status: Status, source: string, document: Document)

  /** The job table: primary key `id` to the rest of the row. */
  type Table = map<string, Row>

  /** The job a row describes. */
  function JobOf(t: Table, id: string): (j: Job)
    requires id in t
    ensures j.id == id
    ensures Row(j.status, j.source, j.document) == t[id]
  {
    Job(id, t[id].status, t[id].source, t[id].document)
  }

  /** A statement's effect: the new table and the number of rows it affected. */
  datatype Write = Write(table: Table, rows: nat)

  /** A claim's effect: the new table and the job handed out, if any. */
  datatype Claim = Claim(table: Table, job: Option<Job>)

  /** Every row of `t` is still in `t'`, keeps its source and document, and
      its status has not moved backwards. */
  ghost predicate Advanced(t: Table, t': Table)
  {
    forall id :: id in t ==>
      && id in t'
      && t'[id].source == t[id].source
      && t'[id].document == t[id].document
      && Advances(t[id].status, t'[id].status)
  }

  lemma {:induction false} AdvancedTransitive(t1: Table, t2: Table, t3: Table)
    requires Advanced(t1, t2) && Advanced(t2, t3)
    ensures Advanced(t1, t3)
  {
    forall id | id in t1
      ensures id in t3 && t3[id].source == t1[id].source && t3[id].document == t1[id].document
      ensures Advances(t1[id].status, t3[id].status)
    {
      assert id in t2;
    }
  }

  // ---------------------------------------------------------------------
  // createJob: INSERT ... ON CONFLICT (id) DO NOTHING
  // ---------------------------------------------------------------------

  /**
   * Inserts an AVAILABLE row for `id` unless the id is already taken, in
   * which case nothing happens; reports the rows affected.
   */
  function CreateJob(t: Table, id: string, source: string, document: Document): (w: Write)
    ensures w.rows == 0 || w.rows == 1
    ensures w.rows == 1 <==> id !in t
    ensures w.table.Keys == t.Keys + {id}
    ensures |w.table| == |t| + w.rows
    ensures forall k :: k in t ==> w.table[k] == t[k]
    ensures id !in t ==> w.table[id] == Row(Available, source, document)
  {
    if id in t then Write(t, 0)
    else Write(t[id := Row(Available, source, document)], 1)
  }

  /** Inserting an id twice leaves one row for it, holding the first payload. */
  lemma CreateTwiceKeepsFirst(t: Table, id: string, source1: string, doc1: Document, source2: string, doc2: Document)
    requires id !in t
    ensures var w1 := CreateJob(t, id, source1, doc1);
            var w2 := CreateJob(w1.table, id, source2, doc2);
            && w1.rows == 1 && w2.rows == 0
            && w2.table == w1.table
            && |w2.table| == |t| + 1
            && w2.table[id] == Row(Available, source1, doc1)
  {
  }

  // ---------------------------------------------------------------------
  // Reads
  // ---------------------------------------------------------------------

  /** `readJob(id)`: the row with that id, or nothing. */
  function ReadJob(t: Table, id: string): (r: Option<Job>)
    ensures r.None? <==> id !in t
    ensures r.Some? ==> r.value.id == id && r.value == JobOf(t, id)
  {
    if id in t then Some(JobOf(t, id)) else None
  }

  /** Reading back a freshly inserted id yields an AVAILABLE job carrying the
      inserted source and payload. */
  lemma ReadAfterCreate(t: Table, id: string, source: string, document: Document)
    requires id !in t
    ensures ReadJob(CreateJob(t, id, source, document).table, id) == Some(Job(id, Available, source, document))
  {
  }

  /**
   * `readJob(id, status, source)`: the job with that id, provided it is in
   * that status and belongs to that source; otherwise nothing (null).
   */
  function ReadJobWith(t: Table, id: string, status: Status, source: string): (r: Option<Job>)
    ensures r.Some? <==> id in t && t[id].status == status && t[id].source == source
    ensures r.Some? ==> r.value == Job(id, status, source, t[id].document)
  {
    match ReadJob(t, id)
    case Some(j) => if j.status == status && j.source == source then Some(j) else None
    case None => None
  }

  /** Rows ordered by strictly ascending id. */
  predicate SortedById(rows: seq<Job>)
  {
    forall i, j :: 0 <= i < j < |rows| ==> Less(rows[i].id, rows[j].id)
  }

  /**
   * `readJobs`: every row of the table, once each, in ascending id order.
   * The table is not changed (it is a value).
   */
  method ReadJobs(t: Table) returns (rows: seq<Job>)
    ensures |rows| == |t|
    ensures SortedById(rows)
    ensures forall i :: 0 <= i < |rows| ==> rows[i].id in t && rows[i] == JobOf(t, rows[i].id)
    ensures forall id :: id in t ==> JobOf(t, id) in rows
  {
    rows := [];
    var left := t.Keys;
    while left != {}
      invariant left <= t.Keys
      invariant |rows| + |left| == |t|
      invariant SortedById(rows)
      invariant forall i :: 0 <= i < |rows| ==> rows[i].id in t.Keys - left && rows[i] == JobOf(t, rows[i].id)
      invariant forall id :: id in t.Keys - left ==> JobOf(t, id) in rows
      invariant forall i, k :: 0 <= i < |rows| && k in left ==> Less(rows[i].id, k)
      decreases left
    {
      var m := MinId(left);
      forall k | k in left - {m}
        ensures Less(m, k)
      {
      }
      rows := rows + [JobOf(t, m)];
      left := left - {m};
    }
  }

  // ---------------------------------------------------------------------
  // findAvailableJob: the claim
  // ---------------------------------------------------------------------

  /** The job `id` may be handed out by a claim restricted to `source`
      (no restriction when `source` is None). */
  predicate Claimable(t: Table, source: Option<string>, id: string)
  {
    && id in t
    && t[id].status == Available
    && (source.None? || t[id].source == source.value)
  }

  /** Ids a claim restricted to `source` may hand out. */
  function Candidates(t: Table, source: Option<string>): (c: set<string>)
    ensures forall id :: id in c <==> Claimable(t, source, id)
  {
    set id | id in t && Claimable(t, source, id)
  }

  /**
   * Claims the AVAILABLE job with the smallest id (within `source`, if one
   * is given), turns it ACTIVE and returns it; with no such job, nothing
   * changes and nothing is returned.
   */
  function FindAvailableJob(t: Table, source: Option<string>): (c: Claim)
    ensures c.job.None? <==> forall id :: id in t ==> !Claimable(t, source, id)
    ensures c.job.None? ==> c.table == t
    ensures c.job.Some? ==>
      var id := c.job.value.id;
      && Claimable(t, source, id)
      && (forall k :: Claimable(t, source, k) ==> Le(id, k))
      && c.job.value == Job(id, Active, t[id].source, t[id].document)
      && c.table.Keys == t.Keys
      && c.table[id] == t[id].(status := Active)
      && (forall k :: k in t && k != id ==> c.table[k] == t[k])
  {
    var ids := Candidates(t, source);
    if ids == {} then Claim(t, None)
    else
      var id := MinId(ids);
      var t' := t[id := t[id].(status := Active)];
      Claim(t', Some(JobOf(t', id)))
  }

  /** A claim removes exactly the job it hands out from the claimable set,
      and leaves the table alone when it hands out nothing. */
  lemma ClaimShrinksCandidates(t: Table, source: Option<string>)
    ensures var c := FindAvailableJob(t, source);
            && (c.job.None? ==> Candidates(t, source) == {})
            && (c.job.Some? ==> Candidates(c.table, source) == Candidates(t, source) - {c.job.value.id})
  {
  }

  // ---------------------------------------------------------------------
  // jobDone
  // ---------------------------------------------------------------------

  /**
   * Marks the row with this id and source DONE, whatever its status was, and
   * reports the rows affected.
   */
  function JobDone(t: Table, id: string, source: string): (w: Write)
    ensures w.rows == 0 || w.rows == 1
    ensures w.rows == 1 <==> id in t && t[id].source == source
    ensures w.rows == 0 ==> w.table == t
    ensures w.table.Keys == t.Keys
    ensures w.rows == 1 ==> w.table[id] == Row(Done, t[id].source, t[id].document)
    ensures forall k :: k in t && k != id ==> w.table[k] == t[k]
  {
    if id in t && t[id].source == source then Write(t[id := t[id].(status := Done)], 1)
    else Write(t, 0)
  }

  /** Marking a job done twice has no further effect and reports the row both times. */
  lemma JobDoneIdempotent(t: Table, id: string, source: string)
    ensures var w1 := JobDone(t, id, source);
            var w2 := JobDone(w1.table, id, source);
            w2.table == w1.table && w2.rows == w1.rows
  {
  }
}
