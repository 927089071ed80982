/**
 * The Job record: its lifecycle status, the case-insensitive status parser,
 * the id-validating setter and the `create` factory.
 */
module Jobs {
  import opened Wrappers
  import opened Ids

  // ---------------------------------------------------------------------
  // Status
  // ---------------------------------------------------------------------

  /** Lifecycle of a job; a job only ever moves rightwards. */
  datatype Status = Available | Active | Done

  /** The enum constants in declaration order. */
  const Declared: seq<Status> := [Available, Active, Done]

  /** The constant's name, as `Enum.name()` reports it. */
  function Name(st: Status): string
  {
    match st
    case Available => "AVAILABLE"
    case Active => "ACTIVE"
    case Done => "DONE"
  }

  /** The constant's position in the declaration, as `Enum.ordinal()` reports it. */
  function Ordinal(st: Status): (r: nat)
    ensures r < |Declared| && Declared[r] == st
  {
    match st
    case Available => 0
    case Active => 1
    case Done => 2
  }

  /** `b` is `a` or a later stage of the lifecycle. */
  predicate Advances(a: Status, b: Status)
  {
    Ordinal(a) <= Ordinal(b)
  }

  /** ASCII upper-casing of one character. */
  function UpperChar(c: char): (r: char)
    ensures 'a' <= c <= 'z' ==> 'A' <= r <= 'Z' && r as int - c as int == 'A' as int - 'a' as int
    ensures !('a' <= c <= 'z') ==> r == c
  {
    if 'a' <= c <= 'z' then (c as int - 'a' as int + 'A' as int) as char else c
  }

  /** ASCII upper-casing of a string (the model of `String.toUpperCase`). */
  function Upper(s: string): (r: string)
    ensures |r| == |s|
    ensures forall i :: 0 <= i < |s| ==> r[i] == UpperChar(s[i])
  {
    seq(|s|, i requires 0 <= i < |s| => UpperChar(s[i]))
  }

  /** Upper-casing twice changes nothing more. */
  lemma UpperIdempotent(s: string)
    ensures Upper(Upper(s)) == Upper(s)
  {
  }

  /** How `Status.get` fails: a null argument or an unknown constant name. */
  datatype StatusError = NullName | NoSuchConstant(name: string)

  /**
   * `Status.get`: rejects null, upper-cases the argument and returns the
   * constant with that name.
   */
  function Get(s: Option<string>): (r: Result<Status, StatusError>)
    ensures s.None? ==> r == Failure(NullName)
    ensures r.Success? <==> s.Some? && exists st :: Name(st) == Upper(s.value)
    ensures r.Success? ==> Name(r.value) == Upper(s.value)
  {
    match s
    case None => Failure(NullName)
    case Some(name) =>
      var u := Upper(name);
      if u == Name(Available) then Success(Available)
      else if u == Name(Active) then Success(Active)
      else if u == Name(Done) then Success(Done)
      else Failure(NoSuchConstant(u))
  }

  /** `Status.get` ignores case: a name and its upper-cased form parse alike. */
  lemma GetIgnoresCase(s: string)
    ensures Get(Some(s)) == Get(Some(Upper(s)))
  {
    UpperIdempotent(s);
  }

  /** Every constant parses back from its name. */
  lemma GetNameRoundTrip(st: Status)
    ensures Get(Some(Name(st))) == Success(st)
  {
  }

  /** The lower-case spelling used by clients is accepted. */
  lemma GetLowerCaseActive()
    ensures Get(Some("active")) == Success(Active)
  {
    assert Upper("active") == "ACTIVE";
  }

  /** Names other than the three constants (in any case) are rejected. */
  lemma GetRejectsUnknown(s: string)
    requires Upper(s) != "AVAILABLE" && Upper(s) != "ACTIVE" && Upper(s) != "DONE"
    ensures Get(Some(s)) == Failure(NoSuchConstant(Upper(s)))
  {
  }

  // ---------------------------------------------------------------------
  // The opaque payload (stored and returned, never interpreted)
  // ---------------------------------------------------------------------

  /** Java's `long`. */
  newtype Long = x: int | -0x8000_0000_0000_0000 <= x < 0x8000_0000_0000_0000

  datatype PseudoFuncRule = PseudoFuncRule(name: Option<string>, pattern: Option<string>, func: Option<string>)

  datatype PseudoConfig = PseudoConfig(debug: bool, rules: Option<seq<PseudoFuncRule>>)

  datatype Document = Document(
    storageRoot: Option<string>,
    storagePath: Option<string>,
    storageVersion: Long,
    topic: Option<string>,
    initialPosition: Option<string>,
    pseudoConfig: Option<PseudoConfig>)

  // ---------------------------------------------------------------------
  // Job
  // ---------------------------------------------------------------------

  datatype Job = Job(id: string, status: Status, source: string, document: Document)

  /**
   * Lombok's generated `equals`: field by field. It coincides with value
   * equality of the record, which the assertions on jobs rely on.
   */
  function SameJob(a: Job, b: Job): (r: bool)
    ensures r <==> a == b
  {
    && a.id == b.id
    && a.status == b.status
    && a.source == b.source
    && a.document == b.document
  }

  /** The only failure of the setter and the factory: an id that is not a ULID. */
  datatype JobError = InvalidId(id: string)

  /**
   * `setId`: the id is parsed first and assigned only if parsing succeeds, so
   * a rejected id leaves the job as it was (the caller keeps `j`).
   */
  function SetId(j: Job, id: string): (r: Result<Job, JobError>)
    ensures r.Success? <==> ValidUlid(id)
    ensures r.Failure? ==> r.error == InvalidId(id)
    ensures r.Success? ==>
      && r.value.id == id
      && r.value.status == j.status
      && r.value.source == j.source
      && r.value.document == j.document
  {
    match ParseUlid(id)
    case Success(_) => Success(j.(id := id))
    case Failure(_) => Failure(InvalidId(id))
  }

  /** `Job.create`: the four setters in order, the id-validating one first. */
  function Create(id: string, status: Status, source: string, document: Document): (r: Result<Job, JobError>)
    ensures r.Success? <==> ValidUlid(id)
    ensures r.Failure? ==> r.error == InvalidId(id)
    ensures r.Success? ==>
      && r.value.id == id
      && r.value.status == status
      && r.value.source == source
      && r.value.document == document
  {
    // `new Job()` leaves every field unset; the placeholder values below are
    // all overwritten by the setters that follow.
    var blank := Job("", Available, "", document);
    match SetId(blank, id)
    case Failure(e) => Failure(e)
    case Success(j) => Success(j.(status := status).(source := source).(document := document))
  }
}
