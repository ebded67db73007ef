/** Audit events and the append-only SQLite sink, whose writes and reads may fail. */
module Audit {
  import opened Prelude
  import opened Timestamps

  datatype Kind = Allowed | Denied | Read | Write | Recalled | Deleted | Unknown

  /** The JSON detail of an event. */
  datatype Detail =
    | NoDetail | ReasonDetail(reason: string) | IdDetail(id: string) | OkDetail | HitsDetail(hits: nat)
    | HealthDetail(total: nat, invalid: nat) | CountDetail(count: nat, limit: nat)
    | RepairDetail(apply: bool, repairable: nat, repaired: nat, bad: nat)

  datatype AuditEvent = AuditEvent(
    principal: string, namespace: string, action: string, kind: Kind, detail: Detail, timestamp: DateTime)

  /** `limit.clamp(1, 2_000)`: a limit of zero still lists one event. */
  function ListLimit(limit: nat): nat { Min(Max(limit, 1), 2000) }

  /** Positions SQL may return: events of the namespace, newest first, cut at the limit. */
  ghost predicate LegalList(log: seq<AuditEvent>, ns: string, limit: nat, answer: seq<nat>) {
    && NoDuplicates(answer) && |answer| <= limit
    && (forall k | 0 <= k < |answer| :: answer[k] < |log| && log[answer[k]].namespace == ns)
    && (forall j, k | 0 <= j < k < |answer| :: !Before(log[answer[j]].timestamp, log[answer[k]].timestamp))
    && (forall i | 0 <= i < |log| && log[i].namespace == ns && i !in answer ::
          |answer| == limit && forall k | 0 <= k < |answer| :: !Before(log[answer[k]].timestamp, log[i].timestamp))
  }

  function Select(log: seq<AuditEvent>, answer: seq<nat>): seq<AuditEvent>
    requires forall k | 0 <= k < |answer| :: answer[k] < |log|
  {
    if answer == [] then [] else Select(log, answer[..|answer| - 1]) + [log[answer[|answer| - 1]]]
  }

  class AuditSink {
    const fails: nat -> bool
    var log: seq<AuditEvent>
    var calls: nat

    constructor (fails: nat -> bool)
      ensures this.fails == fails && log == [] && calls == 0
    {
      this.fails := fails;
      log, calls := [], 0;
    }

    /** Appends the event, or fails and appends nothing. */
    method Record(event: AuditEvent) returns (ok: bool)
      modifies this
      ensures calls == old(calls) + 1 && ok == !fails(old(calls))
      ensures log == if ok then old(log) + [event] else old(log)
    {
      ok := !fails(calls);
      calls := calls + 1;
      if ok {
        log := log + [event];
      }
    }

    method List(ns: string, limit: nat, answer: seq<nat>) returns (out: seq<AuditEvent>)
      requires LegalList(log, ns, ListLimit(limit), answer)
      ensures out == Select(log, answer)
    {
      out := [];
      for i := 0 to |answer|
        invariant out == Select(log, answer[..i])
      {
        assert answer[..i + 1][..i] == answer[..i];
        out := out + [log[answer[i]]];
      }
      assert answer[..|answer|] == answer;
    }
  }

  /** A listing holds only events of its namespace that are in the log, as many as fit. */
  lemma {:induction false} SelectMembers(log: seq<AuditEvent>, answer: seq<nat>)
    requires forall k | 0 <= k < |answer| :: answer[k] < |log|
    ensures |Select(log, answer)| == |answer|
    ensures forall e | e in Select(log, answer) :: e in log
    ensures forall k | 0 <= k < |answer| :: Select(log, answer)[k] == log[answer[k]]
  {
    if answer != [] {
      SelectMembers(log, answer[..|answer| - 1]);
    }
  }

  // ----- there is always a legal listing -----

  /** A listing has as many events as its namespace has in the log, but at least room for one and never more than
      2000. */
  lemma ListSize(log: seq<AuditEvent>, ns: string, limit: nat, answer: seq<nat>, events: set<nat>)
    requires LegalList(log, ns, ListLimit(limit), answer)
    requires forall i: nat :: i in events <==> i < |log| && log[i].namespace == ns
    ensures |Select(log, answer)| == Min(if limit == 0 then 1 else if limit > 2000 then 2000 else limit, |events|)
    ensures |answer| < |events| ==> forall i, k | i in events && i !in answer && k in answer ::
              !Before(log[k].timestamp, log[i].timestamp)
  {
    SelectMembers(log, answer);
    DistinctCount(answer);
    var listed := set k | k in answer;
    SubsetCount(listed, events);
    if listed != events {
      var i :| i in events && i !in listed;
      assert |answer| == ListLimit(limit);
    }
  }

  /** All these positions, newest event first. */
  ghost predicate NewestEvents(log: seq<AuditEvent>, ids: set<nat>, list: seq<nat>)
    requires forall i | i in ids :: i < |log|
  {
    && NoDuplicates(list) && (forall i: nat :: i in list <==> i in ids)
    && (forall k | 0 <= k < |list| :: list[k] < |log|)
    && forall j, k | 0 <= j < k < |list| :: !Before(log[list[j]].timestamp, log[list[k]].timestamp)
  }

  lemma {:induction false} NewestEvent(log: seq<AuditEvent>, ids: set<nat>) returns (top: nat)
    requires ids != {} && forall i | i in ids :: i < |log|
    ensures top in ids && forall i | i in ids :: !Before(log[top].timestamp, log[i].timestamp)
    decreases |ids|
  {
    top :| top in ids;
    BeforeIsStrictOrder(log[top].timestamp, log[top].timestamp, log[top].timestamp);
    if ids != {top} {
      var other := NewestEvent(log, ids - {top});
      forall i | i in ids
        ensures Before(log[top].timestamp, log[other].timestamp) ==> !Before(log[other].timestamp, log[i].timestamp)
        ensures !Before(log[top].timestamp, log[other].timestamp) ==> !Before(log[top].timestamp, log[i].timestamp)
      {
        BeforeIsStrictOrder(log[top].timestamp, log[other].timestamp, log[i].timestamp);
        BeforeIsStrictOrder(log[top].timestamp, log[i].timestamp, log[other].timestamp);
        BeforeIsStrictOrder(log[other].timestamp, log[top].timestamp, log[other].timestamp);
      }
      if Before(log[top].timestamp, log[other].timestamp) {
        top := other;
      }
    }
  }

  lemma {:induction false} NewestEventsExist(log: seq<AuditEvent>, ids: set<nat>) returns (list: seq<nat>)
    requires forall i | i in ids :: i < |log|
    ensures NewestEvents(log, ids, list)
    decreases |ids|
  {
    if ids == {} {
      return [];
    }
    var top := NewestEvent(log, ids);
    var rest := NewestEventsExist(log, ids - {top});
    list := [top] + rest;
    assert forall k | 0 <= k < |list| :: list[k] < |log|;
    forall j, k | 0 <= j < k < |list|
      ensures list[j] != list[k] && !Before(log[list[j]].timestamp, log[list[k]].timestamp)
    {
      assert list[k] == rest[k - 1] && rest[k - 1] in rest;
    }
    assert forall i: nat :: i in list <==> i == top || i in rest;
  }

  /** Whatever the log holds, SQLite has an answer to every listing. */
  lemma ListExists(log: seq<AuditEvent>, ns: string, limit: nat) returns (answer: seq<nat>)
    ensures LegalList(log, ns, limit, answer)
  {
    var ids := set i: nat | i < |log| && log[i].namespace == ns;
    var list := NewestEventsExist(log, ids);
    answer := Take(list, limit);
    TakeMembers(list, limit);
    assert forall k | 0 <= k < |answer| :: answer[k] in list;
    forall i | 0 <= i < |log| && log[i].namespace == ns && i !in answer
      ensures |answer| == limit
      ensures forall k | 0 <= k < |answer| :: !Before(log[answer[k]].timestamp, log[i].timestamp)
    {
      assert i in list;
      assert forall k | 0 <= k < |answer| :: list[k] in answer;
      var j :| 0 <= j < |list| && list[j] == i;
    }
  }
}
