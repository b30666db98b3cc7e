/** The reconciliation pass: every slot flagged as booked for which no booking backs the
    flag is cleared. It writes to the experts store only. */
module Sync {
  import opened Schema
  import opened Store

  /** What counts as a booking backing a flag: `AnyStatus` is the existence query of the
      pass as written; `ActiveOnly` is the corrected query, which asks for a Pending or
      Confirmed booking. */
  datatype Evidence = AnyStatus | ActiveOnly

  predicate Backed(ev: Evidence, bookings: map<ObjectId, Booking>, eid: ObjectId, slotId: string)
  {
    match ev
    case AnyStatus => AnyBooking(bookings, eid, slotId)
    case ActiveOnly => ActiveBooking(bookings, eid, slotId)
  }

  /** `after` is `before` with some `isBooked` flags turned from true to false. */
  predicate OnlyClearedFlags(before: Expert, after: Expert)
  {
    && after.name == before.name && after.category == before.category
    && after.experience == before.experience && after.rating == before.rating
    && after.avatar == before.avatar
    && |after.timeSlots| == |before.timeSlots|
    && forall i :: 0 <= i < |before.timeSlots| ==>
         && after.timeSlots[i] == before.timeSlots[i].(isBooked := after.timeSlots[i].isBooked)
         && (after.timeSlots[i].isBooked ==> before.timeSlots[i].isBooked)
  }

  /** `after` is `before` with exactly the flagged slots that no booking refers to cleared. */
  predicate RepairedFrom(ev: Evidence, eid: ObjectId, before: Expert, after: Expert, bookings: map<ObjectId, Booking>)
  {
    && OnlyClearedFlags(before, after)
    && forall i :: 0 <= i < |before.timeSlots| ==>
         (after.timeSlots[i].isBooked <==> before.timeSlots[i].isBooked && Backed(ev, bookings, eid, before.timeSlots[i].id))
  }

  /** The inner loop over one expert's slots. */
  function RepairSlots(ev: Evidence, eid: ObjectId, slots: seq<TimeSlot>, bookings: map<ObjectId, Booking>)
    : (r: seq<TimeSlot>)
    ensures |r| == |slots|
    ensures forall i :: 0 <= i < |slots| ==> r[i] == slots[i].(isBooked := r[i].isBooked)
    ensures forall i :: 0 <= i < |slots| ==>
              (r[i].isBooked <==> slots[i].isBooked && Backed(ev, bookings, eid, slots[i].id))
  {
    if slots == [] then []
    else
      var t := slots[0];
      var t' := if t.isBooked && !Backed(ev, bookings, eid, t.id) then t.(isBooked := false) else t;
      [t'] + RepairSlots(ev, eid, slots[1..], bookings)
  }

  /** The inner loop clears some flag: a slot is flagged with no booking behind it. */
  predicate NeedsRepair(ev: Evidence, eid: ObjectId, e: Expert, bookings: map<ObjectId, Booking>)
  {
    SlotsNeedRepair(ev, eid, e.timeSlots, bookings)
  }

  predicate SlotsNeedRepair(ev: Evidence, eid: ObjectId, slots: seq<TimeSlot>, bookings: map<ObjectId, Booking>)
  {
    slots != [] && ((slots[0].isBooked && !Backed(ev, bookings, eid, slots[0].id))
                    || SlotsNeedRepair(ev, eid, slots[1..], bookings))
  }

  lemma {:induction false} SlotsNeedRepairIff(ev: Evidence, eid: ObjectId, slots: seq<TimeSlot>,
                                              bookings: map<ObjectId, Booking>)
    ensures SlotsNeedRepair(ev, eid, slots, bookings) <==>
              exists i :: 0 <= i < |slots| && slots[i].isBooked && !Backed(ev, bookings, eid, slots[i].id)
  {
    if slots != [] {
      SlotsNeedRepairIff(ev, eid, slots[1..], bookings);
      if exists i :: 0 <= i < |slots| && slots[i].isBooked && !Backed(ev, bookings, eid, slots[i].id) {
        var i :| 0 <= i < |slots| && slots[i].isBooked && !Backed(ev, bookings, eid, slots[i].id);
        if i > 0 {
          assert slots[1..][i - 1] == slots[i];
        }
      }
      if SlotsNeedRepair(ev, eid, slots[1..], bookings) {
        var i :| 0 <= i < |slots[1..]| && slots[1..][i].isBooked && !Backed(ev, bookings, eid, slots[1..][i].id);
        assert slots[i + 1] == slots[1..][i];
      }
    }
  }

  function RepairExpert(ev: Evidence, eid: ObjectId, e: Expert, bookings: map<ObjectId, Booking>): (r: Expert)
    ensures RepairedFrom(ev, eid, e, r, bookings)
    ensures !NeedsRepair(ev, eid, e, bookings) <==> r == e
  {
    var r := e.(timeSlots := RepairSlots(ev, eid, e.timeSlots, bookings));
    SlotsNeedRepairIff(ev, eid, e.timeSlots, bookings);
    assert !NeedsRepair(ev, eid, e, bookings) ==> r.timeSlots == e.timeSlots;
    r
  }

  /** The state the reconciliation pass leaves behind: each flagged slot stays flagged
      exactly when a booking backs it. */
  function Reconcile(ev: Evidence, db: Db): (r: Db)
    ensures r.bookings == db.bookings
    ensures r.experts.Keys == db.experts.Keys
    ensures forall eid :: eid in db.experts ==> RepairedFrom(ev, eid, db.experts[eid], r.experts[eid], db.bookings)
  {
    Db(map eid | eid in db.experts :: RepairExpert(ev, eid, db.experts[eid], db.bookings), db.bookings)
  }

  /** A repaired expert has nothing left to repair. */
  lemma RepairedNeedsNone(ev: Evidence, eid: ObjectId, e: Expert, bookings: map<ObjectId, Booking>)
    ensures !NeedsRepair(ev, eid, RepairExpert(ev, eid, e, bookings), bookings)
  {
    var r := RepairExpert(ev, eid, e, bookings);
    SlotsNeedRepairIff(ev, eid, r.timeSlots, bookings);
    assert RepairedFrom(ev, eid, e, r, bookings);
  }

  /** A second pass right after the first changes nothing. */
  lemma ReconcileIdempotent(ev: Evidence, db: Db)
    ensures Reconcile(ev, Reconcile(ev, db)) == Reconcile(ev, db)
  {
    var once := Reconcile(ev, db);
    var twice := Reconcile(ev, once);
    forall eid | eid in once.experts ensures twice.experts[eid] == once.experts[eid] {
      RepairedNeedsNone(ev, eid, db.experts[eid], db.bookings);
    }
    assert twice.experts == once.experts;
  }

  /** Run again right after a pass, the loop saves no expert. */
  lemma {:induction false} ReconcileLeavesNothingToSave(order: seq<ObjectId>, db: Db)
    requires forall k :: 0 <= k < |order| ==> order[k] in db.experts
    ensures SaveOrder(order, Reconcile(AnyStatus, db), false) == []
    decreases |order|
  {
    if order != [] {
      var once := Reconcile(AnyStatus, db);
      assert once.experts[order[0]] == RepairExpert(AnyStatus, order[0], db.experts[order[0]], db.bookings);
      RepairedNeedsNone(AnyStatus, order[0], db.experts[order[0]], db.bookings);
      ReconcileLeavesNothingToSave(order[1..], db);
    }
  }

  predicate Distinct(order: seq<ObjectId>)
  {
    forall i, j :: 0 <= i < j < |order| ==> order[i] != order[j]
  }

  /** The loop over the experts in the order `Expert.find()` returns them. `fixedAny` is
      never reset, so once one expert needed a repair every later expert is saved too.
      The result is the experts store afterwards and the experts saved, in order. */
  function SyncPass(order: seq<ObjectId>, db: Db, fixedAny: bool): (r: (map<ObjectId, Expert>, seq<ObjectId>))
    requires forall k :: 0 <= k < |order| ==> order[k] in db.experts
    ensures r.0.Keys == db.experts.Keys
    ensures |r.1| <= |order|
    ensures fixedAny ==> r.1 == order
    decreases |order|
  {
    if order == [] then (db.experts, [])
    else
      var eid := order[0];
      var e := db.experts[eid];
      if fixedAny || NeedsRepair(AnyStatus, eid, e, db.bookings) then
        var rest := SyncPass(order[1..], db.(experts := db.experts[eid := RepairExpert(AnyStatus, eid, e, db.bookings)]), true);
        assert order == [eid] + order[1..];
        (rest.0, [eid] + rest.1)
      else
        // nothing to save: the store goes on unchanged
        SyncPass(order[1..], db, false)
  }

  /** The loop leaves every listed expert repaired and every other one as it was. */
  lemma {:induction false} SyncPassStore(order: seq<ObjectId>, db: Db, fixedAny: bool)
    requires forall k :: 0 <= k < |order| ==> order[k] in db.experts
    requires Distinct(order)
    ensures forall eid :: eid in db.experts && eid !in order ==>
              SyncPass(order, db, fixedAny).0[eid] == db.experts[eid]
    ensures forall k :: 0 <= k < |order| ==>
              SyncPass(order, db, fixedAny).0[order[k]] == RepairExpert(AnyStatus, order[k], db.experts[order[k]], db.bookings)
    decreases |order|
  {
    if order != [] {
      var eid := order[0];
      var e := db.experts[eid];
      var fixed := fixedAny || NeedsRepair(AnyStatus, eid, e, db.bookings);
      var db' := if fixed then db.(experts := db.experts[eid := RepairExpert(AnyStatus, eid, e, db.bookings)]) else db;
      var tail := order[1..];
      assert Distinct(tail);
      assert forall k :: 0 <= k < |tail| ==> tail[k] == order[k + 1];
      assert eid !in tail;
      SyncPassStore(tail, db', fixed);
      var rest := SyncPass(tail, db', fixed);
      assert SyncPass(order, db, fixedAny).0 == rest.0;
      forall k | 0 <= k < |order|
        ensures rest.0[order[k]] == RepairExpert(AnyStatus, order[k], db.experts[order[k]], db.bookings)
      {
        if k > 0 {
          assert order[k] == tail[k - 1] && order[k] != eid;
        }
      }
    }
  }

  /** The experts the loop saves, read off the store it starts from: everything from the
      first expert that needs a repair on, so always a suffix of the order. */
  function SaveOrder(order: seq<ObjectId>, db: Db, fixedAny: bool): (r: seq<ObjectId>)
    requires forall k :: 0 <= k < |order| ==> order[k] in db.experts
    ensures |r| <= |order| && r == order[|order| - |r|..]
    ensures fixedAny ==> r == order
    decreases |order|
  {
    if order == [] || fixedAny || NeedsRepair(AnyStatus, order[0], db.experts[order[0]], db.bookings) then order
    else SaveOrder(order[1..], db, false)
  }

  /** The saves of the loop are `SaveOrder`: before the first repair the store is untouched,
      and after it every expert is saved. */
  lemma {:induction false} PassSaves(order: seq<ObjectId>, db: Db, fixedAny: bool)
    requires forall k :: 0 <= k < |order| ==> order[k] in db.experts
    ensures SyncPass(order, db, fixedAny).1 == SaveOrder(order, db, fixedAny)
    decreases |order|
  {
    if order != [] {
      SyncPassUnfold(order, db, fixedAny);
      if !(fixedAny || NeedsRepair(AnyStatus, order[0], db.experts[order[0]], db.bookings)) {
        PassSaves(order[1..], db, false);
      }
    }
  }

  /** Every expert the loop passes over before its first save needed no repair. */
  lemma {:induction false} SkippedNeedNoRepair(order: seq<ObjectId>, db: Db, fixedAny: bool, k: nat)
    requires forall j :: 0 <= j < |order| ==> order[j] in db.experts
    requires k < |order| - |SaveOrder(order, db, fixedAny)|
    ensures !NeedsRepair(AnyStatus, order[k], db.experts[order[k]], db.bookings)
    decreases |order|
  {
    if k > 0 {
      SkippedNeedNoRepair(order[1..], db, false, k - 1);
    }
  }

  /** Unless a repair was already under way, the first expert saved is one that needed it. */
  lemma {:induction false} FirstSavedNeedsRepair(order: seq<ObjectId>, db: Db)
    requires forall j :: 0 <= j < |order| ==> order[j] in db.experts
    ensures var saves := SaveOrder(order, db, false);
            |saves| > 0 ==> NeedsRepair(AnyStatus, saves[0], db.experts[saves[0]], db.bookings)
    decreases |order|
  {
    if order != [] && !NeedsRepair(AnyStatus, order[0], db.experts[order[0]], db.bookings) {
      FirstSavedNeedsRepair(order[1..], db);
    }
  }

  /** One turn of the loop for the saves: once an expert needed a repair every later one is
      saved, and an expert that needs none leaves the store as it was. */
  lemma SyncPassUnfold(order: seq<ObjectId>, db: Db, fixedAny: bool)
    requires order != [] && forall k :: 0 <= k < |order| ==> order[k] in db.experts
    ensures SyncPass(order, db, fixedAny).1 ==
              if fixedAny || NeedsRepair(AnyStatus, order[0], db.experts[order[0]], db.bookings) then order
              else SyncPass(order[1..], db, false).1
  {
    if !(fixedAny || NeedsRepair(AnyStatus, order[0], db.experts[order[0]], db.bookings)) {
      assert db.(experts := db.experts) == db;
    } else {
      assert order == [order[0]] + order[1..];
    }
  }

  lemma PassIsReconcile(order: seq<ObjectId>, db: Db)
    requires forall k :: 0 <= k < |order| ==> order[k] in db.experts
    requires forall eid :: eid in db.experts ==> eid in order
    requires Distinct(order)
    ensures Reconcile(AnyStatus, db) == Db(SyncPass(order, db, false).0, db.bookings)
  {
    SyncPassStore(order, db, false);
    ReconcileIsPass(order, db, SyncPass(order, db, false).0);
  }

  lemma ReconcileIsPass(order: seq<ObjectId>, db: Db, experts: map<ObjectId, Expert>)
    requires forall eid :: eid in db.experts ==> eid in order
    requires experts.Keys == db.experts.Keys
    requires forall k :: 0 <= k < |order| && order[k] in db.experts ==>
               experts[order[k]] == RepairExpert(AnyStatus, order[k], db.experts[order[k]], db.bookings)
    ensures Reconcile(AnyStatus, db) == Db(experts, db.bookings)
  {
    var rec := Reconcile(AnyStatus, db).experts;
    forall eid | eid in db.experts ensures experts[eid] == rec[eid] {
      var k :| 0 <= k < |order| && order[k] == eid;
    }
    assert experts == rec;
  }

  /** The whole pass over every expert: the experts store ends up exactly as `Reconcile`
      describes, and the saves start at the first expert that needed a repair. */
  function RunSync(order: seq<ObjectId>, db: Db): (r: (Db, seq<ObjectId>))
    requires forall k :: 0 <= k < |order| ==> order[k] in db.experts
    requires forall eid :: eid in db.experts ==> eid in order
    requires Distinct(order)
    ensures r.0 == Reconcile(AnyStatus, db)
    // the saves are those SaveOrder describes
    ensures r.1 == SaveOrder(order, db, false)
  {
    PassIsReconcile(order, db);
    PassSaves(order, db, false);
    var pass := SyncPass(order, db, false);
    (Db(pass.0, db.bookings), pass.1)
  }
}
