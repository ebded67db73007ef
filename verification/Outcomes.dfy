/** What put, get and delete of the store answer, and what one of them answers after another. */
module Outcomes {
  import opened Prelude
  import opened Text
  import opened Timestamps
  import opened Tables
  import opened Refinement

  /** The request names this record: it is stored in the request's namespace under the id or the external id it asks
      for. */
  ghost predicate Names(m: Memories, req: KeyRequest, rec: Record) {
    && rec.id in m && rec.row == m[rec.id] && rec.row.namespace == req.namespace
    && (req.id == Some(rec.id) || (req.externalId.Some? && rec.row.externalId == req.externalId))
  }

  /** Get returns exactly the record that a well-formed request names, `NotFound` exactly when it names none, and a
      storage error exactly when its read fails. */
  lemma GetMeans(m: Memories, req: KeyRequest, readFails: bool)
    requires UniqueExternal(m)
    ensures GetOutcome(m, req, readFails) == Err(Validation) <==> Malformed(req)
    ensures GetOutcome(m, req, readFails) == Err(Storage) <==> !Malformed(req) && readFails
    ensures forall rec :: GetOutcome(m, req, readFails) == Ok(rec) <==>
              !Malformed(req) && !readFails && Names(m, req, rec)
    ensures GetOutcome(m, req, readFails) == Err(NotFound) <==>
              !Malformed(req) && !readFails && forall rec :: !Names(m, req, rec)
  {
    forall id
      ensures MapSelect(m, req) == Ok(id) <==> !Malformed(req) && id in m && Names(m, req, Record(id, m[id]))
    {
      SelectOutcome(m, req, id);
    }
    SelectOutcome(m, req, "");
    if MapSelect(m, req).Ok? {
      var id := MapSelect(m, req).value;
      assert Names(m, req, Record(id, m[id]));
    }
    forall rec | Names(m, req, rec) && !Malformed(req)
      ensures MapSelect(m, req) == Ok(rec.id)
    {
      assert rec == Record(rec.id, m[rec.id]);
    }
  }

  /** Some record of the namespace has this external id. */
  ghost predicate Known(m: Memories, ns: string, ext: Option<string>) {
    exists id :: id in m && m[id].namespace == ns && m[id].externalId == ext
  }

  /** A put succeeds exactly when its request is valid, no statement of its fails, and the id it draws for a new record
      is free. */
  lemma PutSucceedsIff(sv: Services, db: Db, req: PutRequest, freshId: string, now: DateTime, fault: Option<PutStage>)
    ensures var valid := Trim(req.namespace) != "" && (req.externalId.Some? ==> Trim(req.externalId.value) != "") &&
                         req.metadata.isObject;
            var known := req.externalId.Some? && Known(db.memories, req.namespace, req.externalId);
            var r := PutDb(sv, db, req, freshId, now, fault).1;
            && (r.Ok? <==> && valid && (fault == None || (fault == Some(PutLookup) && req.externalId.None?))
                           && (known || freshId !in db.memories))
            && (!valid ==> r == Err(Validation))
            && (valid && r.Err? ==> r.error == match fault case Some(PutEmbed(error)) => error case _ => Storage)
  {
    if req.externalId.Some? {
      forall id
        ensures HasExternal(db.memories, id, req.namespace, req.externalId.value) <==>
                id in db.memories && db.memories[id].namespace == req.namespace &&
                db.memories[id].externalId == req.externalId
      {
      }
    }
  }

  /** The record that put answers and stores: the request's content and metadata at the time of the call. It overwrites
      the record with the same external id, which keeps its id and creation time, or starts under the fresh id. */
  lemma PutStores(sv: Services, db: Db, req: PutRequest, freshId: string, now: DateTime)
    requires UniqueExternal(db.memories) && PutDb(sv, db, req, freshId, now, None).1.Ok?
    ensures var (db', r) := PutDb(sv, db, req, freshId, now, None);
            var Record(id, row) := r.value;
            && db'.memories == db.memories[id := row]
            && row.namespace == req.namespace && row.externalId == req.externalId
            && row.content == req.content && row.metadata == req.metadata && row.contentHash == sv.hash(req.content)
            && row.updatedAt == now
            && (if id in db.memories
                then req.externalId.Some? && db.memories[id].namespace == req.namespace &&
                     db.memories[id].externalId == req.externalId && row.createdAt == db.memories[id].createdAt
                else id == freshId && row.createdAt == now)
  {
    MapPutStoresOne(sv, db.memories, req, freshId, now);
    PutThenGet(sv, db.memories, req, freshId, now);
  }

  /** What a put answered, a get finds afterwards, by id and by external id. */
  lemma StoredPutThenGet(sv: Services, db: Db, req: PutRequest, freshId: string, now: DateTime)
    requires UniqueExternal(db.memories) && PutDb(sv, db, req, freshId, now, None).1.Ok?
    ensures var (db', r) := PutDb(sv, db, req, freshId, now, None);
            && GetOutcome(db'.memories, KeyRequest(req.namespace, Some(r.value.id), None), false) == r
            && (req.externalId.Some? ==>
                  GetOutcome(db'.memories, KeyRequest(req.namespace, None, req.externalId), false) == r)
  {
    MapPutStoresOne(sv, db.memories, req, freshId, now);
    PutThenGet(sv, db.memories, req, freshId, now);
  }

  /** A delete succeeds exactly when no statement fails and the request names a record; it removes that record from the
      memories and changes no other. */
  lemma DeleteMeans(db: Db, req: KeyRequest, fault: Option<DeleteStage>)
    requires UniqueExternal(db.memories)
    ensures var (db', r) := DeleteDb(db, req, fault);
            && (r.Ok? <==> !Malformed(req) && fault.None? && exists rec :: Names(db.memories, req, rec))
            && (r == Err(Validation) <==> Malformed(req))
            && (r == Err(NotFound) <==> && !Malformed(req) && fault != Some(DeleteBegin) && fault != Some(DeleteLookup)
                                        && forall rec :: !Names(db.memories, req, rec))
            && (r.Err? ==> r.error in {Validation, NotFound, Storage})
            && (r.Err? ==> db' == db)
            && (r.Ok? ==> forall rec | Names(db.memories, req, rec) :: db'.memories == db.memories - {rec.id})
  {
    GetMeans(db.memories, req, false);
    SelectOutcome(db.memories, req, "");
    FailedDelete(db, req, fault);
    DeleteRefines(db, req, fault);
    if MapSelect(db.memories, req).Ok? {
      var id := MapSelect(db.memories, req).value;
      assert GetOutcome(db.memories, req, false) == Ok(Record(id, db.memories[id]));
    }
  }

  /** A deleted record is not found any more, and every get of another record answers as before. */
  lemma StoredDeleteThenGet(db: Db, req: KeyRequest, other: KeyRequest)
    requires UniqueExternal(db.memories) && DeleteDb(db, req, None).1.Ok?
    ensures var db' := DeleteDb(db, req, None).0;
            var before, after := GetOutcome(db.memories, other, false), GetOutcome(db'.memories, other, false);
            && GetOutcome(db'.memories, req, false) == Err(NotFound)
            && after == if before == GetOutcome(db.memories, req, false) then Err(NotFound) else before
  {
    DeleteMeans(db, req, None);
    GetMeans(db.memories, req, false);
    GetMeans(db.memories, other, false);
    DeletedKeepsUnique(db, req);
    var db' := DeleteDb(db, req, None).0;
    var gone := GetOutcome(db.memories, req, false).value;
    forall key, rec
      ensures Names(db'.memories, key, rec) <==> Names(db.memories, key, rec) && rec.id != gone.id
    {
    }
    GetMeans(db'.memories, req, false);
    GetMeans(db'.memories, other, false);
  }

  lemma DeletedKeepsUnique(db: Db, req: KeyRequest)
    requires UniqueExternal(db.memories)
    ensures UniqueExternal(DeleteDb(db, req, None).0.memories)
  {
    var m := DeleteDb(db, req, None).0.memories;
    forall i, j, ns, ext | HasExternal(m, i, ns, ext) && HasExternal(m, j, ns, ext)
      ensures i == j
    {
      assert HasExternal(db.memories, i, ns, ext) && HasExternal(db.memories, j, ns, ext);
    }
  }
}
