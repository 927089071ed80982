/**
 * The HTTP handlers of the job controller, each as a pure step from a table
 * to a new table and a response. Status codes are plain values; routing and
 * JSON bodies are not modelled.
 */
module Controller {
  import opened Wrappers
  import opened Ids
  import opened Jobs
  import opened Repository

  /** The response statuses the handlers produce (200, 201, 400, 404, 409). */
  datatype HttpStatus = Ok | Created | BadRequest | NotFound | Conflict

  datatype Response = Response(status: HttpStatus, body: Option<Job>)

  /** A handler's effect: the table afterwards and the response sent. */
  datatype Reply = Reply(table: Table, response: Response)

  /** HEAD /job/active/{source}/{id}: 200 exactly when that job is ACTIVE
      under that source, 404 otherwise; a pure read. */
  function IsJobActive(t: Table, source: string, id: string): (r: Reply)
    ensures r.table == t
    ensures r.response.body.None?
    ensures r.response.status == Ok || r.response.status == NotFound
    ensures r.response.status == Ok <==> id in t && t[id].status == Active && t[id].source == source
  {
    if ReadJobWith(t, id, Active, source).None? then Reply(t, Response(NotFound, None))
    else Reply(t, Response(Ok, None))
  }

  /** GET /job/available/{source} and GET /job/available: claim the next job
      (restricted to `source` when given) and return it, or 404. */
  function FindAvailableJobHandler(t: Table, source: Option<string>): (r: Reply)
    ensures r.response.status == Ok || r.response.status == NotFound
    ensures r.response.status == NotFound <==> forall id :: id in t ==> !Claimable(t, source, id)
    ensures r.response.status == NotFound ==> r.table == t && r.response.body.None?
    ensures r.response.status == Ok ==>
      && r.response.body.Some?
      && var j := r.response.body.value;
      && Claimable(t, source, j.id)
      && (forall k :: Claimable(t, source, k) ==> Le(j.id, k))
      && j.status == Active
      && (source.Some? ==> j.source == source.value)
      && r.table == t[j.id := t[j.id].(status := Active)]
      && j == JobOf(r.table, j.id)
  {
    var c := FindAvailableJob(t, source);
    match c.job
    case None => Reply(c.table, Response(NotFound, None))
    case Some(j) => Reply(c.table, Response(Ok, Some(j)))
  }

  /**
   * POST /job/available/{source}/{id}: 400 for an id that is not a ULID
   * (the table is untouched), 409 when the id is taken (the stored job is
   * untouched), otherwise 201 with the new AVAILABLE job.
   */
  function CreateJobWithId(t: Table, document: Document, source: string, id: string): (r: Reply)
    ensures r.response.status in {BadRequest, Conflict, Created}
    ensures r.response.status == BadRequest <==> !ValidUlid(id)
    ensures r.response.status == Conflict <==> ValidUlid(id) && id in t
    ensures r.response.status != Created ==> r.table == t && r.response.body.None?
    ensures r.response.status == Created ==>
      && id !in t
      && r.response.body == Some(Job(id, Available, source, document))
      && r.table == t[id := Row(Available, source, document)]
  {
    match ParseUlid(id)
    case Failure(_) => Reply(t, Response(BadRequest, None))
    case Success(_) =>
      var w := CreateJob(t, id, source, document);
      if w.rows < 1 then Reply(w.table, Response(Conflict, None))
      else Reply(w.table, Response(Created, Some(Create(id, Available, source, document).value)))
  }

  /**
   * POST /job/available/{source}: inserts under a freshly generated id and
   * answers 201 with an AVAILABLE job, whatever the insert reported. The
   * generator's output is the parameter `freshId`; it always produces a
   * ULID.
   */
  function CreateJobAutoId(t: Table, document: Document, source: string, freshId: string): (r: Reply)
    requires ValidUlid(freshId)
    ensures r.response == Response(Created, Some(Job(freshId, Available, source, document)))
    ensures freshId in t ==> r.table == t
    ensures freshId !in t ==> r.table == t[freshId := Row(Available, source, document)]
  {
    var w := CreateJob(t, freshId, source, document);
    Reply(w.table, Response(Created, Some(Create(freshId, Available, source, document).value)))
  }

  /** POST /job/done/{source}/{id}: 404 when no row has that id and source,
      otherwise the row becomes DONE and the answer is 200. */
  function NotifyJobDone(t: Table, source: string, id: string): (r: Reply)
    ensures r.response.body.None?
    ensures r.response.status == Ok || r.response.status == NotFound
    ensures r.response.status == NotFound <==> !(id in t && t[id].source == source)
    ensures r.response.status == NotFound ==> r.table == t
    ensures r.response.status == Ok ==> r.table == t[id := t[id].(status := Done)]
  {
    var w := JobDone(t, id, source);
    if w.rows < 1 then Reply(w.table, Response(NotFound, None))
    else Reply(w.table, Response(Ok, None))
  }

  // ---------------------------------------------------------------------
  // Scenarios the handlers promise
  // ---------------------------------------------------------------------

  /** A 201 reply's body is exactly what a later read of that id, status and
      source returns. */
  lemma CreatedIsReadBack(t: Table, document: Document, source: string, id: string)
    requires CreateJobWithId(t, document, source, id).response.status == Created
    ensures var r := CreateJobWithId(t, document, source, id);
            var j := r.response.body.value;
            ReadJobWith(r.table, j.id, j.status, j.source) == Some(j)
  {
  }

  /**
   * A 201 from the auto-id handler reads back as its body, provided the
   * generated id was free; when it was taken see
   * `AutoIdCollisionKeepsStoredRow`.
   */
  lemma AutoIdCreatedIsReadBack(t: Table, document: Document, source: string, freshId: string)
    requires ValidUlid(freshId) && freshId !in t
    ensures var r := CreateJobAutoId(t, document, source, freshId);
            var j := r.response.body.value;
            && r.response.status == Created
            && j == Job(freshId, Available, source, document)
            && ReadJobWith(r.table, j.id, j.status, j.source) == Some(j)
  {
  }

  /**
   * Any id with a lower-case letter is outside the accepted ULID form, so
   * the explicit-id handler answers 400 and stores nothing.
   */
  lemma LowerCaseIdRejected(t: Table, document: Document, source: string, id: string)
    requires exists i :: 0 <= i < |id| && 'a' <= id[i] <= 'z'
    ensures !ValidUlid(id)
    ensures var r := CreateJobWithId(t, document, source, id);
            r.response.status == BadRequest && r.table == t
  {
  }

  /**
   * Submitting the same fresh id twice: 201 then 409, one row for the id,
   * holding the first payload with status AVAILABLE.
   */
  lemma SubmitTwice(t: Table, id: string, source1: string, doc1: Document, source2: string, doc2: Document)
    requires ValidUlid(id) && id !in t
    ensures var r1 := CreateJobWithId(t, doc1, source1, id);
            var r2 := CreateJobWithId(r1.table, doc2, source2, id);
            && r1.response.status == Created
            && r2.response.status == Conflict
            && r2.table.Keys == t.Keys + {id}
            && |r2.table| == |t| + 1
            && ReadJob(r2.table, id) == Some(Job(id, Available, source1, doc1))
  {
  }

  /**
   * When the generated id is already taken, the auto-id handler still
   * answers 201, and its body need not be the job the table holds for that
   * id: the stored row wins.
   */
  lemma AutoIdCollisionKeepsStoredRow(t: Table, document: Document, source: string, freshId: string)
    requires ValidUlid(freshId) && freshId in t
    requires t[freshId] != Row(Available, source, document)
    ensures var r := CreateJobAutoId(t, document, source, freshId);
            && r.response.status == Created
            && r.table == t
            && ReadJob(r.table, freshId) != r.response.body
  {
  }

  /**
   * The life of one job seen through the handlers: not active while
   * AVAILABLE; claimed, it is active under its source; once marked done
   * (which succeeds) it is no longer active.
   */
  lemma ClaimActiveDone(t: Table, source: Option<string>)
    requires FindAvailableJobHandler(t, source).response.status == Ok
    ensures var c := FindAvailableJobHandler(t, source);
            var j := c.response.body.value;
            var d := NotifyJobDone(c.table, j.source, j.id);
            && IsJobActive(t, j.source, j.id).response.status == NotFound
            && IsJobActive(c.table, j.source, j.id).response.status == Ok
            && d.response.status == Ok
            && IsJobActive(d.table, j.source, j.id).response.status == NotFound
            && ReadJob(d.table, j.id) == Some(j.(status := Done))
  {
  }
}
