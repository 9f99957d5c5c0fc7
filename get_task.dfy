/** The status endpoint `GET /v1/<id>`: projection of the task engine's
    state onto the public status, and assembly of the reply. */
module GetTask {
  import opened Values

  // Public statuses the service reports.
  const SubmittedStatus := "submitted"
  const ProcessingStatus := "processing"
  const DoneStatus := "done"
  const ErrorStatus := "error"

  /** The key of the reply that holds the status. */
  const StatusKey := "status"

  /** Engine state to public status; any other state is not listed. */
  const StateMap: map<string, string> :=
    map[
      "PENDING" := SubmittedStatus,
      "STARTED" := ProcessingStatus,
      "PROCESSING" := ProcessingStatus,
      "SUCCESS" := DoneStatus,
      "FAILURE" := DoneStatus,
      "RETRY" := ProcessingStatus,
      "REVOKED" := DoneStatus
    ]

  /** Reference reading of the table as an explicit case analysis with a
      pass-through default arm. */
  function ProjectByCase(state: string): string {
    match state
    case "PENDING" => SubmittedStatus
    case "STARTED" | "PROCESSING" | "RETRY" => ProcessingStatus
    case "SUCCESS" | "FAILURE" | "REVOKED" => DoneStatus
    case _ => state
  }

  /** The status reported for an engine state: the table's entry when there
      is one, otherwise the state itself. The lookup never fails. */
  function Project(state: string): (status: string)
    ensures status == ProjectByCase(state)
  {
    if state in StateMap then StateMap[state] else state
  }

  /** Every listed engine state. */
  lemma TableEntries()
    ensures Project("PENDING") == SubmittedStatus
    ensures Project("STARTED") == ProcessingStatus
    ensures Project("PROCESSING") == ProcessingStatus
    ensures Project("RETRY") == ProcessingStatus
    ensures Project("SUCCESS") == DoneStatus
    ensures Project("FAILURE") == DoneStatus
    ensures Project("REVOKED") == DoneStatus
  {
  }

  /** The table only yields submitted, processing or done: failure and
      revocation are reported as done, never as error. */
  lemma TableNeverYieldsError(state: string)
    requires state in StateMap
    ensures Project(state) in {SubmittedStatus, ProcessingStatus, DoneStatus}
    ensures Project(state) != ErrorStatus
  {
  }

  /** A state the table does not list is reported verbatim. */
  lemma UnlistedStatePassesThrough(state: string)
    requires state !in StateMap
    ensures Project(state) == state
  {
  }

  /** The only engine state reported as error is the literal "error". */
  lemma ErrorOnlyVerbatim(state: string)
    ensures Project(state) == ErrorStatus <==> state == ErrorStatus
  {
  }

  /** Done is reported exactly for SUCCESS, FAILURE, REVOKED and the
      literal "done". */
  lemma DoneIff(state: string)
    ensures Project(state) == DoneStatus <==>
            state in {"SUCCESS", "FAILURE", "REVOKED", DoneStatus}
  {
  }

  /** No public status is itself a listed engine state, so projecting a
      second time changes nothing. */
  lemma ProjectIdempotent(state: string)
    ensures Project(Project(state)) == Project(state)
  {
  }

  /** `resp` is the dictionary built for a task that is not ready: the
      status key plus every key of `info`, the values of `info` copied over
      the projected status. */
  ghost predicate IsStatusResponse(resp: map<string, Json>, state: string, info: map<string, Json>) {
    && resp.Keys == {StatusKey} + info.Keys
    && (forall k :: k in info ==> resp[k] == info[k])
    && (StatusKey !in info ==> resp[StatusKey] == JStr(Project(state)))
  }

  /** The three clauses of IsStatusResponse fix the dictionary. */
  lemma StatusResponseUnique(r1: map<string, Json>, r2: map<string, Json>, state: string, info: map<string, Json>)
    requires IsStatusResponse(r1, state, info) && IsStatusResponse(r2, state, info)
    ensures r1 == r2
  {
  }

  /** With no info the reply is exactly the projected status. */
  lemma StatusOnlyWithoutInfo(resp: map<string, Json>, state: string)
    requires IsStatusResponse(resp, state, map[])
    ensures resp == map[StatusKey := JStr(Project(state))]
  {
  }

  /** Sets the status, then copies the engine's info dictionary key by key,
      so that an info entry named "status" overrides the projection. */
  method AssembleStatus(state: string, info: map<string, Json>) returns (resp: map<string, Json>)
    ensures resp.Keys == {StatusKey} + info.Keys
    ensures forall k :: k in info ==> resp[k] == info[k]
    ensures StatusKey !in info ==> resp[StatusKey] == JStr(Project(state))
  {
    resp := map[];
    var statusval := Project(state);
    resp := resp[StatusKey := JStr(statusval)];
    var pending := info.Keys;
    while pending != {}
      invariant pending <= info.Keys
      invariant resp.Keys == {StatusKey} + (info.Keys - pending)
      invariant forall k :: k in info && k !in pending ==> resp[k] == info[k]
      invariant StatusKey !in info ==> resp[StatusKey] == JStr(statusval)
      decreases pending
    {
      var key :| key in pending;
      resp := resp[key := info[key]];
      pending := pending - {key};
    }
  }

  /** What the endpoint answers: a JSON body, or an internal error raised
      while building it. */
  datatype Reply = Body(body: Json) | InternalError

  /** `GET /v1/<id>`. The engine's answers are inputs: whether the task is
      ready, its stored result, its state and its info. A ready task's result
      is returned unchanged. Otherwise the status dictionary is built; an info
      that is neither absent nor a dictionary has no keys to copy, and the
      endpoint fails. */
  method Get(ready: bool, stored: Json, state: string, info: Json) returns (reply: Reply)
    ensures ready ==> reply == Body(stored)
    ensures !ready ==> (reply.Body? <==> info.JNull? || info.JObject?)
    ensures !ready && reply.Body? ==>
              reply.body.JObject? &&
              IsStatusResponse(reply.body.members, state, if info.JObject? then info.members else map[])
  {
    if ready {
      return Body(stored);
    }
    var copied: map<string, Json> := map[];
    match info {
      case JNull =>
      case JObject(members) =>
        copied := members;
      case _ =>
        return InternalError;
    }
    var resp := AssembleStatus(state, copied);
    reply := Body(JObject(resp));
  }
}
