/** The engine's control protocol as a step on values: validate, decide, log, run the store call, log again. */
module Protocol {
  import opened Prelude
  import opened Text
  import opened FtsQuery
  import opened Floats
  import opened Timestamps
  import opened Tables
  import opened Scans
  import opened Recall
  import opened Ranking
  import opened Store
  import opened Audit

  datatype Action = ActPut | ActGet | ActRecall | ActDelete | ActAuditRead | ActRepair

  datatype Decision = Allow | Deny(reason: string)

  datatype Config = Config(
    maxNamespaceBytes: nat, maxExternalIdBytes: nat, maxContentBytes: nat, maxMetadataBytes: nat,
    maxQueryBytes: nat, maxRecallLimit: nat)

  const DEFAULT_CONFIG: Config := Config(256, 512, 16 * 1024, 16 * 1024, 2048, 128)

  /** Everything the engine calls but does not change. `fails` says which calls of the audit sink fail. */
  datatype World = World(
    sv: Services, scoring: Scoring, decide: (string, string, Action) -> Decision, fails: nat -> bool,
    clock: nat -> DateTime, config: Config)

  /** A request with the inputs its store call takes from outside, and the fault its store call meets, if any. */
  datatype Request =
    | ReqPut(put: PutRequest, freshId: string, now: DateTime, putFault: Option<PutStage>, measureFails: bool)
    | ReqGet(key: KeyRequest, readFails: bool)
    | ReqDelete(key: KeyRequest, deleteFault: Option<DeleteStage>)
    | ReqRecall(recall: RecallRequest, recallFault: Option<Error>)
    | ReqHealth(ns: string, readFails: bool)
    | ReqRepair(ns: string, limit: nat, apply: bool, order: seq<string>, repairFault: Option<RepairFault>)
    | ReqAudit(ns: string, listFails: bool)

  datatype State = State(db: Db, log: seq<AuditEvent>, calls: nat)

  function NamespaceOf(q: Request): string {
    match q
    case ReqPut(put, _, _, _, _) => put.namespace
    case ReqGet(key, _) => key.namespace
    case ReqDelete(key, _) => key.namespace
    case ReqRecall(recall, _) => recall.namespace
    case ReqHealth(ns, _) => ns
    case ReqRepair(ns, _, _, _, _) => ns
    case ReqAudit(ns, _) => ns
  }

  function ActionOf(q: Request): Action {
    match q
    case ReqPut(_, _, _, _, _) => ActPut
    case ReqGet(_, _) => ActGet
    case ReqDelete(_, _) => ActDelete
    case ReqRecall(_, _) => ActRecall
    case ReqHealth(_, _) => ActAuditRead
    case ReqRepair(_, _, _, _, _) => ActRepair
    case ReqAudit(_, _) => ActAuditRead
  }

  /** `format!("{action:?}")` */
  function ActionName(a: Action): string {
    match a
    case ActPut => "Put"
    case ActGet => "Get"
    case ActRecall => "Recall"
    case ActDelete => "Delete"
    case ActAuditRead => "AuditRead"
    case ActRepair => "Repair"
  }

  function OperationName(q: Request): string {
    match q
    case ReqPut(_, _, _, _, _) => "put"
    case ReqGet(_, _) => "get"
    case ReqDelete(_, _) => "delete"
    case ReqRecall(_, _) => "recall"
    case ReqHealth(_, _) => "vector_health"
    case ReqRepair(_, _, _, _, _) => "vector_repair"
    case ReqAudit(_, _) => "audit_events"
  }

  function OperationKind(q: Request): Kind {
    match q
    case ReqPut(_, _, _, _, _) => Write
    case ReqGet(_, _) => Read
    case ReqDelete(_, _) => Deleted
    case ReqRecall(_, _) => Recalled
    case ReqHealth(_, _) => Read
    case ReqRepair(_, _, apply, _, _) => if apply then Write else Read
    case ReqAudit(_, _) => Read
  }

  // ----- validation -----

  predicate NamespaceOk(c: Config, ns: string) {
    Trim(ns) != "" && Utf8Len(ns) <= c.maxNamespaceBytes
  }

  predicate ExternalIdOk(c: Config, ext: Option<string>) {
    ext.Some? ==> Trim(ext.value) != "" && Utf8Len(ext.value) <= c.maxExternalIdBytes
  }

  predicate SelectorOk(c: Config, key: KeyRequest) {
    match (key.id, key.externalId)
    case (Some(_), Some(_)) => false
    case (None, None) => false
    case (Some(id), None) => Trim(id) != ""
    case (None, Some(_)) => ExternalIdOk(c, key.externalId)
  }

  /** The checks of a put that come before its metadata is serialised to be measured. */
  predicate PutMeasured(c: Config, req: PutRequest) {
    NamespaceOk(c, req.namespace) && ExternalIdOk(c, req.externalId) &&
    Utf8Len(req.content) <= c.maxContentBytes && req.metadata.isObject
  }

  predicate PutOk(c: Config, req: PutRequest) {
    PutMeasured(c, req) && Utf8Len(req.metadata.json) <= c.maxMetadataBytes
  }

  predicate RecallOk(round: real -> Float, c: Config, req: RecallRequest) {
    NamespaceOk(c, req.namespace) && Trim(req.query) != "" && Utf8Len(req.query) <= c.maxQueryBytes &&
    0 < req.limit <= c.maxRecallLimit && ValidWeights(round, req.weights)
  }

  /** The error of a request that does not get past validation. */
  function Rejection(c: Config, q: Request): Error {
    if q.ReqPut? && q.measureFails && PutMeasured(c, q.put) then Internal else Validation
  }

  predicate Accepted(w: World, q: Request) {
    var c := w.config;
    match q
    case ReqPut(put, _, _, _, measureFails) => PutOk(c, put) && !measureFails
    case ReqGet(key, _) => NamespaceOk(c, key.namespace) && SelectorOk(c, key)
    case ReqDelete(key, _) => NamespaceOk(c, key.namespace) && SelectorOk(c, key)
    case ReqRecall(recall, _) => RecallOk(w.scoring.arith.round, c, recall)
    case ReqHealth(ns, _) => NamespaceOk(c, ns)
    case ReqRepair(ns, _, _, _, _) => NamespaceOk(c, ns)
    case ReqAudit(ns, _) => NamespaceOk(c, ns)
  }

  // ----- the step -----

  ghost predicate LegalRequest(db: Db, q: Request) {
    q.ReqRepair? ==> Scan(db.memories, VectorIds(db, Some(q.ns)), q.order)
  }

  /** What the store call of an accepted and allowed request does: the new tables and its error, if any. */
  ghost function StoreCall(w: World, db: Db, q: Request): (r: (Db, Option<Error>))
    requires LegalRequest(db, q)
  {
    match q
    case ReqPut(put, freshId, now, fault, _) =>
      var (db', r) := PutDb(w.sv, db, put, freshId, now, fault);
      (db', if r.Err? then Some(r.error) else None)
    case ReqGet(key, readFails) =>
      var r := GetOutcome(db.memories, key, readFails);
      (db, if r.Err? then Some(r.error) else None)
    case ReqDelete(key, fault) =>
      var (db', r) := DeleteDb(db, key, fault);
      (db', if r.Err? then Some(r.error) else None)
    case ReqRecall(recall, fault) =>
      (db, if !ValidRecall(recall) then Some(Validation)
           else if fault.Some? then fault
           else if MatchFails(w.scoring.lower, recall.query) then Some(Storage)
           else None)
    case ReqHealth(_, readFails) => (db, if readFails then Some(Storage) else None)
    case ReqRepair(_, limit, apply, order, fault) =>
      var (db', r) := RepairDb(w.sv.parsers, db, order, limit, apply, fault);
      (db', if r.Err? then Some(r.error) else None)
    case ReqAudit(_, _) => (db, None)
  }

  function Event(w: World, s: State, who: string, ns: string, action: string, kind: Kind, d: Detail): AuditEvent {
    AuditEvent(who, ns, action, kind, d, w.clock(s.calls))
  }

  /** One call of the sink. */
  function Emit(w: World, s: State, who: string, ns: string, action: string, kind: Kind, d: Detail): State {
    s.(log := if w.fails(s.calls) then s.log else s.log + [Event(w, s, who, ns, action, kind, d)],
       calls := s.calls + 1)
  }

  function EmitDecision(w: World, s: State, who: string, q: Request): State {
    var ns, name := NamespaceOf(q), ActionName(ActionOf(q));
    match w.decide(who, ns, ActionOf(q))
    case Allow => Emit(w, s, who, ns, name, Allowed, NoDetail)
    case Deny(reason) => Emit(w, s, who, ns, name, Denied, ReasonDetail(reason))
  }

  /** `audit_events` lists before it logs its decision, so a failing list leaves no event at all. */
  predicate ListFailed(w: World, who: string, q: Request) {
    q.ReqAudit? && q.listFails && w.decide(who, NamespaceOf(q), ActionOf(q)) == Allow
  }

  /** The rest of a call whose Allowed event is logged: the store call and, if it goes through, the operation event. */
  ghost function Continue(w: World, s: State, who: string, q: Request, d: Detail): (r: (State, Option<Error>))
    requires LegalRequest(s.db, q)
  {
    var (db', error) := StoreCall(w, s.db, q);
    if error.Some? then (s.(db := db'), error)
    else (Emit(w, s.(db := db'), who, NamespaceOf(q), OperationName(q), OperationKind(q), d),
          if w.fails(s.calls) then Some(Storage) else None)
  }

  /** The error a decision gives: a denial, or an event of the decision that is lost. */
  function DecisionError(w: World, calls: nat, who: string, q: Request): Option<Error> {
    var decision := w.decide(who, NamespaceOf(q), ActionOf(q));
    if decision.Deny? then Some(if w.fails(calls) then Internal else PolicyDenied(decision.reason))
    else if w.fails(calls) then Some(Storage)
    else None
  }

  /** The state after a call, and its error. `d` is the detail of the operation event. */
  ghost function Call(w: World, s: State, who: string, q: Request, d: Detail): (r: (State, Option<Error>))
    requires LegalRequest(s.db, q)
  {
    if !Accepted(w, q) then (s, Some(Rejection(w.config, q)))
    else
      var s1, error := EmitDecision(w, s, who, q), DecisionError(w, s.calls, who, q);
      if ListFailed(w, who, q) then (s, Some(Storage))
      else if error.Some? then (s1, error)
      else Continue(w, s1, who, q, d)
  }

  // ----- the log -----

  predicate IsOperation(e: AuditEvent) { e.kind != Allowed && e.kind != Denied }

  /** The Allowed event that an operation event must follow. */
  predicate Authorises(a: AuditEvent, e: AuditEvent) {
    && a.kind == Allowed && a.principal == e.principal && a.namespace == e.namespace
    && match a.action
       case "Put" => e.action == "put" && e.kind == Write
       case "Get" => e.action == "get" && e.kind == Read
       case "Delete" => e.action == "delete" && e.kind == Deleted
       case "Recall" => e.action == "recall" && e.kind == Recalled
       case "AuditRead" => (e.action == "vector_health" || e.action == "audit_events") && e.kind == Read
       case "Repair" => e.action == "vector_repair" && (e.kind == Write || e.kind == Read)
       case _ => false
  }

  /** (Denied | Allowed | Allowed Operation)*: every operation event directly follows the event that allows it. */
  ghost predicate WellFormed(log: seq<AuditEvent>) {
    forall i | 0 <= i < |log| && IsOperation(log[i]) :: i > 0 && Authorises(log[i - 1], log[i])
  }

  /** A decision event says what the policy says. */
  ghost predicate Says(w: World, e: AuditEvent) {
    && (e.kind == Allowed ==>
          exists a: Action :: e.action == ActionName(a) && w.decide(e.principal, e.namespace, a) == Allow)
    && (e.kind == Denied ==>
          exists a: Action :: e.action == ActionName(a) && w.decide(e.principal, e.namespace, a).Deny?)
  }

  ghost predicate Truthful(w: World, log: seq<AuditEvent>) { forall i | 0 <= i < |log| :: Says(w, log[i]) }

  /** The decision event of a request. */
  predicate IsDecisionOf(w: World, e: AuditEvent, who: string, q: Request) {
    && e.principal == who && e.namespace == NamespaceOf(q) && e.action == ActionName(ActionOf(q))
    && e.kind == if w.decide(who, NamespaceOf(q), ActionOf(q)) == Allow then Allowed else Denied
  }

  /** The operation event of a request. */
  predicate IsOperationOf(e: AuditEvent, who: string, q: Request, d: Detail) {
    && e.principal == who && e.namespace == NamespaceOf(q) && e.detail == d
    && e.action == OperationName(q) && e.kind == OperationKind(q)
  }

  /** What one call may append: nothing, its decision, or its decision to allow and its operation. */
  ghost predicate Appends(w: World, s: State, s': State, who: string, q: Request, d: Detail) {
    && |s.log| <= |s'.log| <= |s.log| + 2 && s'.log[..|s.log|] == s.log
    && (|s'.log| > |s.log| ==> IsDecisionOf(w, s'.log[|s.log|], who, q))
    && (|s'.log| == |s.log| + 2 ==>
          w.decide(who, NamespaceOf(q), ActionOf(q)) == Allow && IsOperationOf(s'.log[|s.log| + 1], who, q, d))
  }
}
