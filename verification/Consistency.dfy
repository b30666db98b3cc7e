/** The cross-store invariant: a slot is flagged as booked exactly when a Pending or
    Confirmed booking refers to it, and no slot is held by two such bookings. This module
    proves which handlers keep it, shows where the routes as written break it, gives the
    corrected status update, deletion and reconciliation, and proves that a serial run of
    requests against the corrected handlers keeps it. */
module Consistency {
  import opened Results
  import opened Text
  import opened Schema
  import opened Store
  import opened ExpertRoutes
  import opened BookingRoutes
  import opened Sync

  /** Slot `i` of expert `eid` is flagged exactly when an active booking refers to it. */
  predicate SlotAgrees(db: Db, eid: ObjectId, i: int)
    requires eid in db.experts && 0 <= i < |db.experts[eid].timeSlots|
  {
    db.experts[eid].timeSlots[i].isBooked <==> ActiveBooking(db.bookings, eid, db.experts[eid].timeSlots[i].id)
  }

  predicate Occupied(db: Db)
  {
    forall eid, i :: eid in db.experts && 0 <= i < |db.experts[eid].timeSlots| ==> SlotAgrees(db, eid, i)
  }

  /** No two active bookings refer to the same slot. */
  predicate SingleActive(bookings: map<ObjectId, Booking>)
  {
    forall x, y :: x in bookings && y in bookings && Active(bookings[x]) && Active(bookings[y])
                   && bookings[x].expertId == bookings[y].expertId && bookings[x].slotId == bookings[y].slotId
                   ==> x == y
  }

  /** Slot ids are unique within their expert, so the first slot with an id is the slot. */
  predicate UniqueSlotIds(experts: map<ObjectId, Expert>)
  {
    forall eid, i, j :: eid in experts && 0 <= i < j < |experts[eid].timeSlots| ==>
                          experts[eid].timeSlots[i].id != experts[eid].timeSlots[j].id
  }

  predicate Consistent(db: Db)
  {
    Occupied(db) && SingleActive(db.bookings) && UniqueSlotIds(db.experts)
  }

  // ---------------------------------------------------------------------------
  // Helpers about the stores

  /** Whether a slot has an active booking, split on one booking of the store. */
  lemma ActiveSplit(bookings: map<ObjectId, Booking>, id: ObjectId, eid: ObjectId, sid: string)
    requires id in bookings
    ensures ActiveBooking(bookings, eid, sid) <==>
              || ActiveBooking(bookings - {id}, eid, sid)
              || (Active(bookings[id]) && bookings[id].expertId == eid && bookings[id].slotId == sid)
  {
    if ActiveBooking(bookings, eid, sid) {
      var x :| x in bookings && bookings[x].expertId == eid && bookings[x].slotId == sid && Active(bookings[x]);
      if x != id {
        assert x in bookings - {id};
      }
    }
    if ActiveBooking(bookings - {id}, eid, sid) {
      var x :| x in bookings - {id} && (bookings - {id})[x].expertId == eid && (bookings - {id})[x].slotId == sid
               && Active((bookings - {id})[x]);
      assert x in bookings;
    }
  }

  lemma LowerCanonical(s: string)
    requires CanonicalId(s)
    ensures Lower(s) == s
  {
    assert forall i :: 0 <= i < |s| ==> Lower(s)[i] == s[i];
  }

  /** `findIndex` only looks at the ids. */
  lemma {:induction false} FindSlotSameIds(a: seq<TimeSlot>, b: seq<TimeSlot>, sid: Option<string>)
    requires |a| == |b| && forall k :: 0 <= k < |a| ==> a[k].id == b[k].id
    ensures FindSlot(a, sid) == FindSlot(b, sid)
  {
    if a != [] && sid.Some? && a[0].id != sid.value {
      FindSlotSameIds(a[1..], b[1..], sid);
    }
  }

  /** With unique slot ids, a slot id names one index. */
  lemma SlotIndexUnique(experts: map<ObjectId, Expert>, eid: ObjectId, i: int, j: int)
    requires UniqueSlotIds(experts) && eid in experts
    requires 0 <= i < |experts[eid].timeSlots| && 0 <= j < |experts[eid].timeSlots|
    requires experts[eid].timeSlots[i].id == experts[eid].timeSlots[j].id
    ensures i == j
  {
  }

  lemma FlagWriteKeepsIds(before: map<ObjectId, Expert>, after: map<ObjectId, Expert>, eid: ObjectId, i: nat, v: bool)
    requires UniqueSlotIds(before) && OnlyFlagChanged(before, after, eid, i, v)
    ensures UniqueSlotIds(after)
    ensures forall e :: e in before ==> |after[e].timeSlots| == |before[e].timeSlots|
    ensures forall e, k :: e in before && 0 <= k < |before[e].timeSlots| ==>
              after[e].timeSlots[k].id == before[e].timeSlots[k].id
    ensures forall e, k :: e in before && 0 <= k < |before[e].timeSlots| && (e != eid || k != i) ==>
              after[e].timeSlots[k] == before[e].timeSlots[k]
  {
  }

  /** A write that keeps every booking's contribution to the active set: the same slots are
      held by active bookings before and after, and the flags are unchanged. */
  lemma SameHoldersKeepConsistent(db: Db, after: Db, bid: ObjectId)
    requires Consistent(db)
    requires after.experts == db.experts
    requires after.bookings - {bid} == db.bookings - {bid}
    requires (bid in after.bookings && Active(after.bookings[bid])) <==> (bid in db.bookings && Active(db.bookings[bid]))
    requires bid in after.bookings && Active(after.bookings[bid]) ==>
               after.bookings[bid].expertId == db.bookings[bid].expertId
               && after.bookings[bid].slotId == db.bookings[bid].slotId
    ensures Consistent(after)
  {
    forall eid, sid ensures ActiveBooking(after.bookings, eid, sid) <==> ActiveBooking(db.bookings, eid, sid) {
      if bid in after.bookings {
        ActiveSplit(after.bookings, bid, eid, sid);
      }
      if bid in db.bookings {
        ActiveSplit(db.bookings, bid, eid, sid);
      }
      if bid !in after.bookings {
        assert after.bookings - {bid} == after.bookings;
      }
      if bid !in db.bookings {
        assert db.bookings - {bid} == db.bookings;
      }
    }
    forall eid, i | eid in after.experts && 0 <= i < |after.experts[eid].timeSlots|
      ensures SlotAgrees(after, eid, i)
    {
      assert SlotAgrees(db, eid, i);
    }
    forall x, y | && x in after.bookings && y in after.bookings
                  && Active(after.bookings[x]) && Active(after.bookings[y])
                  && after.bookings[x].expertId == after.bookings[y].expertId
                  && after.bookings[x].slotId == after.bookings[y].slotId
      ensures x == y
    {
      assert x != bid ==> x in db.bookings by {
        if x != bid { assert x in after.bookings - {bid}; }
      }
      assert y != bid ==> y in db.bookings by {
        if y != bid { assert y in after.bookings - {bid}; }
      }
      assert x != bid ==> after.bookings[x] == db.bookings[x] by {
        if x != bid { assert x in after.bookings - {bid}; }
      }
      assert y != bid ==> after.bookings[y] == db.bookings[y] by {
        if y != bid { assert y in after.bookings - {bid}; }
      }
    }
  }

  /** Releasing the slot of an active booking: the booking stops being active (or goes),
      and its slot, if it still exists, is unflagged. */
  lemma ReleaseKeepsConsistent(db: Db, after: Db, bid: ObjectId)
    requires Consistent(db)
    requires bid in db.bookings && Active(db.bookings[bid])
    requires after.bookings - {bid} == db.bookings - {bid}
    requires bid in after.bookings ==> !Active(after.bookings[bid])
    requires SlotOfBooking(db.experts, db.bookings[bid]).None? ==> after.experts == db.experts
    requires SlotOfBooking(db.experts, db.bookings[bid]).Some? ==>
               OnlyFlagChanged(db.experts, after.experts, db.bookings[bid].expertId,
                               SlotOfBooking(db.experts, db.bookings[bid]).value, false)
    ensures Consistent(after)
  {
    var b := db.bookings[bid];
    var slot := SlotOfBooking(db.experts, b);
    var i: nat := if slot.Some? then slot.value else 0;
    if slot.Some? {
      FlagWriteKeepsIds(db.experts, after.experts, b.expertId, i, false);
    }
    forall eid, sid ensures ActiveBooking(after.bookings, eid, sid) <==>
                              ActiveBooking(db.bookings, eid, sid) && (eid != b.expertId || sid != b.slotId)
    {
      ActiveSplit(db.bookings, bid, eid, sid);
      if bid in after.bookings {
        ActiveSplit(after.bookings, bid, eid, sid);
      } else {
        assert after.bookings - {bid} == after.bookings;
      }
    }
    forall eid, k | eid in after.experts && 0 <= k < |after.experts[eid].timeSlots|
      ensures SlotAgrees(after, eid, k)
    {
      assert SlotAgrees(db, eid, k);
      var sid := db.experts[eid].timeSlots[k].id;
      if eid == b.expertId && sid == b.slotId {
        assert slot.Some?;
        SlotIndexUnique(db.experts, eid, k, i);
      }
    }
    forall x, y | && x in after.bookings && y in after.bookings
                  && Active(after.bookings[x]) && Active(after.bookings[y])
                  && after.bookings[x].expertId == after.bookings[y].expertId
                  && after.bookings[x].slotId == after.bookings[y].slotId
      ensures x == y
    {
      assert x != bid && y != bid;
      assert x in after.bookings - {bid} && y in after.bookings - {bid};
    }
  }

  // ---------------------------------------------------------------------------
  // Booking keeps the invariant

  /** Reserving a free slot for a fresh booking id keeps the invariant. */
  lemma ReserveKeepsConsistent(db: Db, eid: ObjectId, i: nat, req: BookRequest, newId: ObjectId, now: nat)
    requires Consistent(db)
    requires RequesterValid(req) && eid in db.experts && i < |db.experts[eid].timeSlots|
    requires !db.experts[eid].timeSlots[i].isBooked && newId !in db.bookings
    ensures Consistent(Commit(db, SaveAndFlag(db, eid, i, req, newId, now).writes))
  {
    var r := SaveAndFlag(db, eid, i, req, newId, now);
    var slot := db.experts[eid].timeSlots[i];
    var b := r.reply;
    var after := Commit(db, r.writes);
    assert after.bookings - {newId} == db.bookings by {
      assert after.bookings == db.bookings[newId := b];
    }
    assert !ActiveBooking(db.bookings, eid, slot.id) by {
      assert SlotAgrees(db, eid, i);
    }
    FlagWriteKeepsIds(db.experts, after.experts, eid, i, true);
    forall e, k | e in after.experts && 0 <= k < |after.experts[e].timeSlots|
      ensures SlotAgrees(after, e, k)
    {
      var sid := db.experts[e].timeSlots[k].id;
      ActiveSplit(after.bookings, newId, e, sid);
      if e == eid && k == i {
        assert after.experts[e].timeSlots[k].isBooked;
      } else {
        assert SlotAgrees(db, e, k);
        if e == eid && sid == slot.id {
          SlotIndexUnique(db.experts, eid, k, i);
        }
      }
    }
    forall x, y | && x in after.bookings && y in after.bookings
                  && Active(after.bookings[x]) && Active(after.bookings[y])
                  && after.bookings[x].expertId == after.bookings[y].expertId
                  && after.bookings[x].slotId == after.bookings[y].slotId
      ensures x == y
    {
      if x != newId && y != newId {
        assert db.bookings[x] == after.bookings[x] && db.bookings[y] == after.bookings[y];
      }
    }
  }

  /** A successful booking keeps the invariant. */
  lemma BookKeepsConsistent(db: Db, expertParam: string, req: BookRequest, newId: ObjectId, now: nat)
    requires Consistent(db)
    requires Book(db, expertParam, req, newId, now).Ok?
    ensures Consistent(Commit(db, Book(db, expertParam, req, newId, now).value.writes))
  {
    var eid := Lower(expertParam);
    assert Book(db, expertParam, req, newId, now) == ReserveSlot(db, eid, req, newId, now);
    var i := FindSlot(db.experts[eid].timeSlots, req.slotId).value;
    ReserveKeepsConsistent(db, eid, i, req, newId, now);
  }

  /** Once a slot is reserved, a second request for the same slot id answers Conflict. */
  lemma ReservedSlotConflicts(db: Db, eid: ObjectId, i: nat, req: BookRequest, newId: ObjectId, now: nat,
                              req2: BookRequest, newId2: ObjectId, now2: nat)
    requires RequesterValid(req) && eid in db.experts && i < |db.experts[eid].timeSlots|
    requires FindSlot(db.experts[eid].timeSlots, req.slotId) == Some(i)
    requires RequesterValid(req2) && req2.slotId == req.slotId
    ensures ReserveSlot(Commit(db, SaveAndFlag(db, eid, i, req, newId, now).writes), eid, req2, newId2, now2)
            == Err(Conflict)
  {
    var after := Commit(db, SaveAndFlag(db, eid, i, req, newId, now).writes);
    assert after.experts[eid] == SetFlag(db.experts[eid], i, true);
    FindSlotSameIds(db.experts[eid].timeSlots, after.experts[eid].timeSlots, req.slotId);
  }

  /** Booking the same slot again right after a successful booking answers Conflict. */
  lemma SecondBookingConflicts(db: Db, expertParam: string, req: BookRequest, newId: ObjectId, now: nat,
                               expertParam2: string, req2: BookRequest, newId2: ObjectId, now2: nat)
    requires Book(db, expertParam, req, newId, now).Ok?
    requires ValidateBooking(expertParam2, req2).None?
    requires Lower(expertParam2) == Lower(expertParam) && req2.slotId == req.slotId
    ensures Book(Commit(db, Book(db, expertParam, req, newId, now).value.writes), expertParam2, req2, newId2, now2)
            == Err(Conflict)
  {
    var eid := Lower(expertParam);
    assert Book(db, expertParam, req, newId, now) == ReserveSlot(db, eid, req, newId, now);
    var i := FindSlot(db.experts[eid].timeSlots, req.slotId).value;
    ReservedSlotConflicts(db, eid, i, req, newId, now, req2, newId2, now2);
    assert CastId(expertParam2) == Some(eid);
  }

  // ---------------------------------------------------------------------------
  // Findings: the status update and deletion as written

  /** Reopening a Completed booking does not occupy its slot again: afterwards either an
      active booking sits on a free slot, or two active bookings hold the same slot. */
  lemma ReopenBreaksConsistency(db: Db, bid: ObjectId, reopenAs: string)
    requires Consistent(db) && CanonicalId(bid)
    requires bid in db.bookings && db.bookings[bid].status == Completed
    requires SlotOfBooking(db.experts, db.bookings[bid]).Some?
    requires reopenAs == "Pending" || reopenAs == "Confirmed"
    ensures SetStatus(db, bid, Some(reopenAs)).Ok?
    ensures !Consistent(Commit(db, SetStatus(db, bid, Some(reopenAs)).value.writes))
  {
    LowerCanonical(bid);
    var b := db.bookings[bid];
    var i := SlotOfBooking(db.experts, b).value;
    var r := SetStatus(db, bid, Some(reopenAs));
    var after := Commit(db, r.value.writes);
    var st := ParseStatus(Some(reopenAs)).value;
    assert after.experts == db.experts;
    assert after.bookings[bid] == b.(status := st) && Active(after.bookings[bid]);
    assert ActiveBooking(after.bookings, b.expertId, b.slotId);
    if db.experts[b.expertId].timeSlots[i].isBooked {
      assert SlotAgrees(db, b.expertId, i);
      var x :| x in db.bookings && db.bookings[x].expertId == b.expertId && db.bookings[x].slotId == b.slotId
               && Active(db.bookings[x]);
      assert x != bid && after.bookings[x] == db.bookings[x];
      assert !SingleActive(after.bookings);
    } else {
      assert !SlotAgrees(after, b.expertId, i);
    }
  }

  /** Marking an already Completed booking Completed again frees its slot even while another
      active booking holds it. */
  lemma RecompletionFreesHeldSlot(db: Db, bid: ObjectId)
    requires Consistent(db) && CanonicalId(bid)
    requires bid in db.bookings && db.bookings[bid].status == Completed
    requires SlotOfBooking(db.experts, db.bookings[bid]).Some?
    requires db.experts[db.bookings[bid].expertId].timeSlots[SlotOfBooking(db.experts, db.bookings[bid]).value].isBooked
    ensures SetStatus(db, bid, Some("Completed")).Ok?
    ensures var b := db.bookings[bid];
            var i := SlotOfBooking(db.experts, b).value;
            var after := Commit(db, SetStatus(db, bid, Some("Completed")).value.writes);
            && b.expertId in after.experts && i < |after.experts[b.expertId].timeSlots|
            && !after.experts[b.expertId].timeSlots[i].isBooked
            && ActiveBooking(after.bookings, b.expertId, b.slotId)
    ensures !Occupied(Commit(db, SetStatus(db, bid, Some("Completed")).value.writes))
  {
    LowerCanonical(bid);
    var b := db.bookings[bid];
    var i := SlotOfBooking(db.experts, b).value;
    var r := SetStatus(db, bid, Some("Completed"));
    var after := Commit(db, r.value.writes);
    assert SlotAgrees(db, b.expertId, i);
    var x :| x in db.bookings && db.bookings[x].expertId == b.expertId && db.bookings[x].slotId == b.slotId
             && Active(db.bookings[x]);
    assert x != bid && after.bookings[x] == db.bookings[x];
    assert ActiveBooking(after.bookings, b.expertId, b.slotId);
    assert !SlotAgrees(after, b.expertId, i);
  }

  /** Deleting a Completed booking frees its slot even while another active booking holds it. */
  lemma DeleteCompletedFreesHeldSlot(db: Db, bid: ObjectId)
    requires Consistent(db) && CanonicalId(bid)
    requires bid in db.bookings && db.bookings[bid].status == Completed
    requires SlotOfBooking(db.experts, db.bookings[bid]).Some?
    requires db.experts[db.bookings[bid].expertId].timeSlots[SlotOfBooking(db.experts, db.bookings[bid]).value].isBooked
    ensures Delete(db, bid).Ok?
    ensures var b := db.bookings[bid];
            var i := SlotOfBooking(db.experts, b).value;
            var after := Commit(db, Delete(db, bid).value.writes);
            && b.expertId in after.experts && i < |after.experts[b.expertId].timeSlots|
            && !after.experts[b.expertId].timeSlots[i].isBooked
            && ActiveBooking(after.bookings, b.expertId, b.slotId)
    ensures !Occupied(Commit(db, Delete(db, bid).value.writes))
  {
    LowerCanonical(bid);
    var b := db.bookings[bid];
    var i := SlotOfBooking(db.experts, b).value;
    var r := Delete(db, bid);
    var after := Commit(db, r.value.writes);
    assert SlotAgrees(db, b.expertId, i);
    var x :| x in db.bookings && db.bookings[x].expertId == b.expertId && db.bookings[x].slotId == b.slotId
             && Active(db.bookings[x]);
    assert x != bid && x in after.bookings && after.bookings[x] == db.bookings[x];
    assert ActiveBooking(after.bookings, b.expertId, b.slotId);
    assert !SlotAgrees(after, b.expertId, i);
  }

  // ---------------------------------------------------------------------------
  // Corrected status update and deletion

  /** The status update with the slot kept in step: a Completed booking is final, so it
      can neither be reopened nor release its slot a second time. Updates of an active
      booking behave as the route as written. */
  function SetStatusGuarded(db: Db, idParam: string, status: Option<string>): (r: Result<Effect<Booking>>)
    ensures r.Ok? <==>
              && ParseStatus(status).Some? && ObjectIdText(idParam) && Lower(idParam) in db.bookings
              && (db.bookings[Lower(idParam)].status == Completed ==> ParseStatus(status).value == Completed)
    ensures (r == Err(ValidationError(CompletedIsFinal))) <==>
              && ParseStatus(status).Some? && ObjectIdText(idParam) && Lower(idParam) in db.bookings
              && db.bookings[Lower(idParam)].status == Completed && ParseStatus(status).value != Completed
    ensures r.Ok? && db.bookings[Lower(idParam)].status == Completed ==>
              Commit(db, r.value.writes) == db && r.value.events == []
    ensures r.Err? && r.error != ValidationError(CompletedIsFinal) ==> r == SetStatus(db, idParam, status)
    ensures ObjectIdText(idParam) && Lower(idParam) in db.bookings && Active(db.bookings[Lower(idParam)]) ==>
              r == SetStatus(db, idParam, status)
  {
    var written := SetStatus(db, idParam, status);
    if written.Err? then written
    else
      var bid := Lower(idParam);
      var b := db.bookings[bid];
      if Active(b) then written
      else if ParseStatus(status).value != Completed then Err(ValidationError(CompletedIsFinal))
      else
        CommitOne(db, SaveBooking(bid, b));
        assert db.bookings[bid := b] == db.bookings;
        Ok(Effect([SaveBooking(bid, b)], [], b))
  }

  /** Deletion that frees the slot only when the booking still held it, that is, when it
      was deleted before it was completed. */
  function DeleteGuarded(db: Db, idParam: string): (r: Result<Effect<()>>)
    ensures r.Ok? <==> ObjectIdText(idParam) && Lower(idParam) in db.bookings
    ensures r.Err? ==> r == Delete(db, idParam)
    ensures r.Ok? ==> Commit(db, r.value.writes).bookings == db.bookings - {Lower(idParam)}
    ensures r.Ok? && !Active(db.bookings[Lower(idParam)]) ==>
              Commit(db, r.value.writes).experts == db.experts && r.value.events == []
    ensures ObjectIdText(idParam) && Lower(idParam) in db.bookings && Active(db.bookings[Lower(idParam)]) ==>
              r == Delete(db, idParam)
  {
    var written := Delete(db, idParam);
    if written.Err? then written
    else
      var bid := Lower(idParam);
      if Active(db.bookings[bid]) then written
      else
        CommitOne(db, RemoveBooking(bid));
        Ok(Effect([RemoveBooking(bid)], [], ()))
  }

  lemma SetStatusGuardedKeepsConsistent(db: Db, idParam: string, status: Option<string>)
    requires Consistent(db)
    requires SetStatusGuarded(db, idParam, status).Ok?
    ensures Consistent(Commit(db, SetStatusGuarded(db, idParam, status).value.writes))
  {
    var r := SetStatusGuarded(db, idParam, status);
    var bid := Lower(idParam);
    var b := db.bookings[bid];
    var st := ParseStatus(status).value;
    var after := Commit(db, r.value.writes);
    if !Active(b) {
      assert after == db;
    } else {
      assert r == SetStatus(db, idParam, status);
      assert after.bookings == db.bookings[bid := b.(status := st)];
      assert after.bookings - {bid} == db.bookings - {bid};
      if st == Completed {
        ReleaseKeepsConsistent(db, after, bid);
      } else {
        SameHoldersKeepConsistent(db, after, bid);
      }
    }
  }

  lemma DeleteGuardedKeepsConsistent(db: Db, idParam: string)
    requires Consistent(db)
    requires DeleteGuarded(db, idParam).Ok?
    ensures Consistent(Commit(db, DeleteGuarded(db, idParam).value.writes))
  {
    var r := DeleteGuarded(db, idParam);
    var bid := Lower(idParam);
    var after := Commit(db, r.value.writes);
    assert after.bookings == db.bookings - {bid};
    assert after.bookings - {bid} == db.bookings - {bid};
    if Active(db.bookings[bid]) {
      ReleaseKeepsConsistent(db, after, bid);
    } else {
      SameHoldersKeepConsistent(db, after, bid);
    }
  }

  // ---------------------------------------------------------------------------
  // A serial run of requests

  datatype Call =
    | BookCall(expertParam: string, req: BookRequest, newId: ObjectId, now: nat)
    | StatusCall(idParam: string, status: Option<string>)
    | DeleteCall(idParam: string)

  /** One request handled to completion by the corrected handlers; a refused request
      writes nothing. */
  function Serve(db: Db, c: Call): Db
  {
    match c
    case BookCall(p, req, id, now) =>
      var r := Book(db, p, req, id, now);
      if r.Ok? then Commit(db, r.value.writes) else db
    case StatusCall(p, s) =>
      var r := SetStatusGuarded(db, p, s);
      if r.Ok? then Commit(db, r.value.writes) else db
    case DeleteCall(p) =>
      var r := DeleteGuarded(db, p);
      if r.Ok? then Commit(db, r.value.writes) else db
  }

  function ServeAll(db: Db, calls: seq<Call>): Db
    decreases |calls|
  {
    if calls == [] then db else ServeAll(Serve(db, calls[0]), calls[1..])
  }

  /** Every serial sequence of book, status and delete requests keeps the invariant. */
  lemma {:induction false} ServeAllKeepsConsistent(db: Db, calls: seq<Call>)
    requires Consistent(db)
    ensures Consistent(ServeAll(db, calls))
    decreases |calls|
  {
    if calls != [] {
      var c := calls[0];
      match c {
      case BookCall(p, req, id, now) =>
        if Book(db, p, req, id, now).Ok? {
          BookKeepsConsistent(db, p, req, id, now);
        }
      case StatusCall(p, s) =>
        if SetStatusGuarded(db, p, s).Ok? {
          SetStatusGuardedKeepsConsistent(db, p, s);
        }
      case DeleteCall(p) =>
        if DeleteGuarded(db, p).Ok? {
          DeleteGuardedKeepsConsistent(db, p);
        }
      }
      ServeAllKeepsConsistent(Serve(db, c), calls[1..]);
    }
  }

  /** A store with no bookings, no flagged slot and unique slot ids is consistent. */
  lemma FreshStoreConsistent(db: Db)
    requires db.bookings == map[] && UniqueSlotIds(db.experts)
    requires forall eid, i :: eid in db.experts && 0 <= i < |db.experts[eid].timeSlots| ==>
               var t := db.experts[eid].timeSlots[i];
               t == NewTimeSlot(t.id, t.date, t.time)
    ensures Consistent(db)
  {
    forall eid, i | eid in db.experts && 0 <= i < |db.experts[eid].timeSlots| ensures SlotAgrees(db, eid, i) {
      var t := db.experts[eid].timeSlots[i];
      assert !NewTimeSlot(t.id, t.date, t.time).isBooked;
      assert !ActiveBooking(db.bookings, eid, t.id);
    }
  }

  // ---------------------------------------------------------------------------
  // The reconciler against the invariant

  /** As written, the pass keeps a flag that only a Completed booking backs, so the
      invariant stays broken after it. */
  lemma ReconcileKeepsCompletedOnlyFlag(db: Db, eid: ObjectId, i: int)
    requires eid in db.experts && 0 <= i < |db.experts[eid].timeSlots|
    requires db.experts[eid].timeSlots[i].isBooked
    requires AnyBooking(db.bookings, eid, db.experts[eid].timeSlots[i].id)
    requires !ActiveBooking(db.bookings, eid, db.experts[eid].timeSlots[i].id)
    ensures Reconcile(AnyStatus, db).experts[eid].timeSlots[i].isBooked
    ensures !Occupied(Reconcile(AnyStatus, db))
  {
    var after := Reconcile(AnyStatus, db);
    assert RepairedFrom(AnyStatus, eid, db.experts[eid], after.experts[eid], db.bookings);
    assert after.experts[eid].timeSlots[i].id == db.experts[eid].timeSlots[i].id;
    assert !SlotAgrees(after, eid, i);
  }

  /** The corrected pass: afterwards every flagged slot has an active booking, and when every
      active booking's slot was flagged before, the slot flags agree with the bookings. */
  lemma ReconcileActiveRestores(db: Db)
    ensures forall eid, i :: (eid in db.experts && 0 <= i < |db.experts[eid].timeSlots| &&
              Reconcile(ActiveOnly, db).experts[eid].timeSlots[i].isBooked) ==>
              ActiveBooking(db.bookings, eid, db.experts[eid].timeSlots[i].id)
    ensures (forall eid, i :: (eid in db.experts && 0 <= i < |db.experts[eid].timeSlots| &&
              ActiveBooking(db.bookings, eid, db.experts[eid].timeSlots[i].id)) ==>
              db.experts[eid].timeSlots[i].isBooked)
            ==> Occupied(Reconcile(ActiveOnly, db))
  {
    var after := Reconcile(ActiveOnly, db);
    forall eid, i | eid in db.experts && 0 <= i < |db.experts[eid].timeSlots|
      ensures after.experts[eid].timeSlots[i].isBooked ==> ActiveBooking(db.bookings, eid, db.experts[eid].timeSlots[i].id)
    {
      assert RepairedFrom(ActiveOnly, eid, db.experts[eid], after.experts[eid], db.bookings);
    }
    if forall eid, i :: (eid in db.experts && 0 <= i < |db.experts[eid].timeSlots| &&
         ActiveBooking(db.bookings, eid, db.experts[eid].timeSlots[i].id)) ==> db.experts[eid].timeSlots[i].isBooked
    {
      forall eid, i | eid in after.experts && 0 <= i < |after.experts[eid].timeSlots|
        ensures SlotAgrees(after, eid, i)
      {
        assert RepairedFrom(ActiveOnly, eid, db.experts[eid], after.experts[eid], db.bookings);
        assert after.experts[eid].timeSlots[i].id == db.experts[eid].timeSlots[i].id;
      }
    }
  }

  /** With every active booking's slot flagged, no slot held twice and unique slot ids, the
      active-booking pass leaves the whole invariant. */
  lemma ReconcileActiveRestoresConsistent(db: Db)
    requires SingleActive(db.bookings) && UniqueSlotIds(db.experts)
    requires forall eid, i :: (eid in db.experts && 0 <= i < |db.experts[eid].timeSlots| &&
               ActiveBooking(db.bookings, eid, db.experts[eid].timeSlots[i].id)) ==>
               db.experts[eid].timeSlots[i].isBooked
    ensures Consistent(Reconcile(ActiveOnly, db))
  {
    ReconcileActiveRestores(db);
    ReconcileKeepsRest(ActiveOnly, db);
  }

  // ---------------------------------------------------------------------------
  // Interrupted handlers: the writes are awaited one by one, so a failure between them
  // leaves only the first one applied.

  /** A booking interrupted after the booking was saved leaves an active booking on an
      unflagged slot, and no reconciliation pass flags it. */
  lemma InterruptedBookingNotRepaired(db: Db, expertParam: string, req: BookRequest, newId: ObjectId,
                                      now: nat, ev: Evidence)
    requires Book(db, expertParam, req, newId, now).Ok?
    ensures var ws := Book(db, expertParam, req, newId, now).value.writes;
            |ws| == 2 && !Occupied(Commit(db, ws[..1])) && !Occupied(Reconcile(ev, Commit(db, ws[..1])))
  {
    var r := Book(db, expertParam, req, newId, now);
    var eid := Lower(expertParam);
    assert r == ReserveSlot(db, eid, req, newId, now);
    var i := FindSlot(db.experts[eid].timeSlots, req.slotId).value;
    var slot := db.experts[eid].timeSlots[i];
    var ws := r.value.writes;
    assert ws[..1] == [ws[0]];
    CommitOne(db, ws[0]);
    var mid := Commit(db, ws[..1]);
    assert mid.experts == db.experts && mid.bookings == db.bookings[newId := r.value.reply];
    assert newId in mid.bookings && mid.bookings[newId] == r.value.reply;
    assert ActiveBooking(mid.bookings, eid, slot.id);
    UnflaggedHeldSlotStays(ev, mid, eid, i);
  }

  /** Reconciliation only clears flags, so an active booking on an unflagged slot stays
      out of step. */
  lemma UnflaggedHeldSlotStays(ev: Evidence, db: Db, eid: ObjectId, i: int)
    requires eid in db.experts && 0 <= i < |db.experts[eid].timeSlots|
    requires !db.experts[eid].timeSlots[i].isBooked
    requires ActiveBooking(db.bookings, eid, db.experts[eid].timeSlots[i].id)
    ensures !Occupied(db) && !Occupied(Reconcile(ev, db))
  {
    assert !SlotAgrees(db, eid, i);
    var fixed := Reconcile(ev, db);
    assert RepairedFrom(ev, eid, db.experts[eid], fixed.experts[eid], db.bookings);
    assert !SlotAgrees(fixed, eid, i);
  }

  /** Reconciliation touches only flags, so slot ids stay unique; with the bookings
      untouched, the whole invariant follows from the occupancy part. */
  lemma ReconcileKeepsRest(ev: Evidence, db: Db)
    requires SingleActive(db.bookings) && UniqueSlotIds(db.experts)
    requires Occupied(Reconcile(ev, db))
    ensures Consistent(Reconcile(ev, db))
  {
    var after := Reconcile(ev, db);
    forall eid, i, j | eid in after.experts && 0 <= i < j < |after.experts[eid].timeSlots|
      ensures after.experts[eid].timeSlots[i].id != after.experts[eid].timeSlots[j].id
    {
      assert RepairedFrom(ev, eid, db.experts[eid], after.experts[eid], db.bookings);
    }
  }

  /** Releasing a slot interrupted after the booking write (completion or deletion) leaves
      a flag no active booking backs; the corrected pass restores the invariant. */
  lemma InterruptedReleaseRepaired(db: Db, mid: Db, bid: ObjectId)
    requires Consistent(db)
    requires bid in db.bookings && Active(db.bookings[bid])
    requires mid.experts == db.experts
    requires mid.bookings - {bid} == db.bookings - {bid}
    requires bid in mid.bookings ==> !Active(mid.bookings[bid])
    ensures Consistent(Reconcile(ActiveOnly, mid))
  {
    var b := db.bookings[bid];
    forall eid, i | eid in mid.experts && 0 <= i < |mid.experts[eid].timeSlots| &&
                    ActiveBooking(mid.bookings, eid, mid.experts[eid].timeSlots[i].id)
      ensures mid.experts[eid].timeSlots[i].isBooked
    {
      var sid := mid.experts[eid].timeSlots[i].id;
      var x :| x in mid.bookings && mid.bookings[x].expertId == eid && mid.bookings[x].slotId == sid
               && Active(mid.bookings[x]);
      assert x != bid;
      assert x in mid.bookings - {bid};
      assert x in db.bookings && db.bookings[x] == mid.bookings[x];
      assert SlotAgrees(db, eid, i);
    }
    ReconcileActiveRestores(mid);
    forall x, y | && x in mid.bookings && y in mid.bookings
                  && Active(mid.bookings[x]) && Active(mid.bookings[y])
                  && mid.bookings[x].expertId == mid.bookings[y].expertId
                  && mid.bookings[x].slotId == mid.bookings[y].slotId
      ensures x == y
    {
      assert x in mid.bookings - {bid} && y in mid.bookings - {bid};
      assert db.bookings[x] == mid.bookings[x] && db.bookings[y] == mid.bookings[y];
    }
    ReconcileKeepsRest(ActiveOnly, mid);
  }

  lemma InterruptedCompletionRepaired(db: Db, idParam: string)
    requires Consistent(db)
    requires SetStatusGuarded(db, idParam, Some("Completed")).Ok?
    ensures var ws := SetStatusGuarded(db, idParam, Some("Completed")).value.writes;
            |ws| >= 1 && Consistent(Reconcile(ActiveOnly, Commit(db, ws[..1])))
  {
    var r := SetStatusGuarded(db, idParam, Some("Completed"));
    var bid := Lower(idParam);
    var ws := r.value.writes;
    var b := db.bookings[bid];
    if Active(b) {
      assert r == SetStatus(db, idParam, Some("Completed"));
      assert ws[0] == SaveBooking(bid, b.(status := Completed));
      assert ws[..1] == [ws[0]];
      CommitOne(db, ws[0]);
      var mid := Commit(db, ws[..1]);
      assert mid.bookings - {bid} == db.bookings - {bid};
      InterruptedReleaseRepaired(db, mid, bid);
    } else {
      assert ws == [SaveBooking(bid, b)];
      assert ws[..1] == ws;
      assert Commit(db, ws) == db;
      ReconcileActiveRestores(db);
      forall eid, i | eid in db.experts && 0 <= i < |db.experts[eid].timeSlots| &&
                      ActiveBooking(db.bookings, eid, db.experts[eid].timeSlots[i].id)
        ensures db.experts[eid].timeSlots[i].isBooked
      {
        assert SlotAgrees(db, eid, i);
      }
      ReconcileKeepsRest(ActiveOnly, db);
    }
  }

  lemma InterruptedDeletionRepaired(db: Db, idParam: string)
    requires Consistent(db)
    requires DeleteGuarded(db, idParam).Ok?
    ensures var ws := DeleteGuarded(db, idParam).value.writes;
            |ws| >= 1 && Consistent(Reconcile(ActiveOnly, Commit(db, ws[..1])))
  {
    var r := DeleteGuarded(db, idParam);
    var bid := Lower(idParam);
    var ws := r.value.writes;
    assert ws[0] == RemoveBooking(bid);
    assert ws[..1] == [ws[0]];
    CommitOne(db, ws[0]);
    var mid := Commit(db, ws[..1]);
    assert mid.experts == db.experts && mid.bookings == db.bookings - {bid};
    assert mid.bookings - {bid} == db.bookings - {bid};
    if Active(db.bookings[bid]) {
      InterruptedReleaseRepaired(db, mid, bid);
    } else {
      SameHoldersKeepConsistent(db, mid, bid);
      ReconcileActiveRestores(mid);
      forall eid, i | eid in mid.experts && 0 <= i < |mid.experts[eid].timeSlots| &&
                      ActiveBooking(mid.bookings, eid, mid.experts[eid].timeSlots[i].id)
        ensures mid.experts[eid].timeSlots[i].isBooked
      {
        assert SlotAgrees(mid, eid, i);
      }
      ReconcileKeepsRest(ActiveOnly, mid);
    }
  }
}
