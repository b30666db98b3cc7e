/** The two independent stores, the writes the handlers issue against them in order, the
    events they broadcast, and the lookups they share. */
module Store {
  import opened Results
  import opened Text
  import opened Schema

  /** The experts collection and the bookings collection, keyed by ObjectId. */
  datatype Db = Db(experts: map<ObjectId, Expert>, bookings: map<ObjectId, Booking>)

  /** The real-time notifications broadcast to every connected client. */
  datatype Event = SlotBooked(expertId: ObjectId, slotId: string)
                 | SlotAvailable(expertId: ObjectId, slotId: string)

  /** One awaited store operation. */
  datatype Write =
    | SaveBooking(id: ObjectId, booking: Booking)      // insert or overwrite a booking document
    | RemoveBooking(id: ObjectId)                      // findByIdAndDelete
    | SetBooked(expertId: ObjectId, index: nat, value: bool)  // save of timeSlots[index].isBooked

  /** What a successful handler does: its writes in the order they are awaited, the events
      it emits after them, and its reply. */
  datatype Effect<T> = Effect(writes: seq<Write>, events: seq<Event>, reply: T)

  /** The expert with slot `i` flagged `v`; nothing else differs. */
  function SetFlag(e: Expert, i: nat, v: bool): (r: Expert)
    ensures |r.timeSlots| == |e.timeSlots|
    ensures r.name == e.name && r.category == e.category && r.experience == e.experience
    ensures r.rating == e.rating && r.avatar == e.avatar
    ensures forall k :: 0 <= k < |e.timeSlots| ==> r.timeSlots[k].id == e.timeSlots[k].id
    ensures forall k :: 0 <= k < |e.timeSlots| && k != i ==> r.timeSlots[k] == e.timeSlots[k]
    ensures i < |e.timeSlots| ==> r.timeSlots[i] == e.timeSlots[i].(isBooked := v)
  {
    if i < |e.timeSlots| then e.(timeSlots := e.timeSlots[i := e.timeSlots[i].(isBooked := v)])
    else e
  }

  function ApplyWrite(db: Db, w: Write): Db
  {
    match w
    case SaveBooking(id, b) => db.(bookings := db.bookings[id := b])
    case RemoveBooking(id) => db.(bookings := db.bookings - {id})
    case SetBooked(eid, i, v) =>
      if eid in db.experts then db.(experts := db.experts[eid := SetFlag(db.experts[eid], i, v)])
      else db
  }

  /** The store after the writes have been applied one after another. */
  function Commit(db: Db, ws: seq<Write>): Db
    decreases |ws|
  {
    if ws == [] then db else Commit(ApplyWrite(db, ws[0]), ws[1..])
  }

  /** Committing in two batches is committing once: a run of writes cut short after `k`
      of them, then resumed, ends in the same store. */
  lemma {:induction false} CommitSplit(db: Db, ws: seq<Write>, k: nat)
    requires k <= |ws|
    ensures Commit(Commit(db, ws[..k]), ws[k..]) == Commit(db, ws)
    decreases k
  {
    if k > 0 {
      assert ws[..k][0] == ws[0];
      assert ws[..k][1..] == ws[1..][..k - 1];
      assert ws[k..] == ws[1..][k - 1..];
      CommitSplit(ApplyWrite(db, ws[0]), ws[1..], k - 1);
    } else {
      assert ws[..0] == [];
    }
  }

  lemma CommitPair(db: Db, a: Write, b: Write)
    ensures Commit(db, [a, b]) == ApplyWrite(ApplyWrite(db, a), b)
  {
    assert [a, b][1..] == [b];
    CommitOne(ApplyWrite(db, a), b);
  }

  lemma CommitOne(db: Db, a: Write)
    ensures Commit(db, [a]) == ApplyWrite(db, a)
  {
    assert [a][1..] == [];
  }

  /** `timeSlots.findIndex(s => s.id === slotId)`: the first slot with that id; an absent
      slot id matches nothing. */
  function FindSlot(slots: seq<TimeSlot>, slotId: Option<string>): (r: Option<nat>)
    ensures r.Some? ==> slotId.Some? && r.value < |slots| && slots[r.value].id == slotId.value
    ensures r.Some? ==> forall k :: 0 <= k < r.value ==> slots[k].id != slotId.value
    ensures r.None? ==> forall k :: 0 <= k < |slots| ==> slotId.None? || slots[k].id != slotId.value
  {
    if slotId.None? || slots == [] then None
    else if slots[0].id == slotId.value then Some(0)
    else match FindSlot(slots[1..], slotId)
      case None => None
      case Some(k) => Some(k + 1)
  }

  /** `Booking.exists({ expertId, slotId })`: a booking in any status refers to the slot. */
  predicate AnyBooking(bookings: map<ObjectId, Booking>, eid: ObjectId, slotId: string)
  {
    exists id :: id in bookings && bookings[id].expertId == eid && bookings[id].slotId == slotId
  }

  /** A Pending or Confirmed booking refers to the slot. */
  predicate ActiveBooking(bookings: map<ObjectId, Booking>, eid: ObjectId, slotId: string)
  {
    exists id :: id in bookings && bookings[id].expertId == eid && bookings[id].slotId == slotId
                 && Active(bookings[id])
  }

  /** The index of the slot a booking refers to, if its expert still exists and still has
      a slot with that id: the first such slot. */
  function SlotOfBooking(experts: map<ObjectId, Expert>, b: Booking): (r: Option<nat>)
    ensures r.Some? ==> && b.expertId in experts && r.value < |experts[b.expertId].timeSlots|
                        && experts[b.expertId].timeSlots[r.value].id == b.slotId
    ensures r.Some? ==> forall k :: 0 <= k < r.value ==> experts[b.expertId].timeSlots[k].id != b.slotId
    ensures r.None? && b.expertId in experts ==>
              forall k :: 0 <= k < |experts[b.expertId].timeSlots| ==> experts[b.expertId].timeSlots[k].id != b.slotId
  {
    if b.expertId in experts then FindSlot(experts[b.expertId].timeSlots, Some(b.slotId)) else None
  }

  /** Casting route id text to an ObjectId, as `findById` does: 24 hexadecimal digits
      name the document with the lower-case form of that text; anything else makes the
      query throw. */
  function CastId(s: string): (r: Option<ObjectId>)
    ensures r.Some? <==> ObjectIdText(s)
    ensures r.Some? ==> CanonicalId(r.value) && r.value == Lower(s)
  {
    if ObjectIdText(s) then CastCanonical(s, s); Some(Lower(s)) else None
  }

  /** The store differs from `before` only in that slot `i` of expert `eid` is flagged `v`
      (if that slot exists). */
  predicate OnlyFlagChanged(before: map<ObjectId, Expert>, after: map<ObjectId, Expert>,
                            eid: ObjectId, i: nat, v: bool)
  {
    && after.Keys == before.Keys
    && (forall e :: e in before && e != eid ==> after[e] == before[e])
    && (eid in before ==> after[eid] == SetFlag(before[eid], i, v))
  }
}
