/** The booking routes: listing by requester e-mail (`GET /`), status update
    (`PATCH /:id/status`) and deletion (`DELETE /:id`). */
module BookingRoutes {
  import opened Results
  import opened Text
  import opened Schema
  import opened Store

  /** The stored bookings whose id is in `ids` and whose `userEmail` is exactly `email`. */
  function MatchingAmong(bookings: map<ObjectId, Booking>, email: string, ids: set<ObjectId>)
    : set<(ObjectId, Booking)>
  {
    set id | id in ids && id in bookings && bookings[id].userEmail == email :: (id, bookings[id])
  }

  /** Ordered by creation time, newest first (`sort({ createdAt: -1 })`). */
  predicate NewestFirst(s: seq<(ObjectId, Booking)>)
  {
    forall i, j :: 0 <= i < j < |s| ==> s[i].1.createdAt >= s[j].1.createdAt
  }

  /** Inserting one entry into a newest-first listing keeps it newest first. */
  function InsertNewest(s: seq<(ObjectId, Booking)>, x: (ObjectId, Booking)): (r: seq<(ObjectId, Booking)>)
    ensures multiset(r) == multiset(s) + multiset{x}
    ensures forall e :: e in r ==> e in s || e == x
  {
    if s == [] || s[0].1.createdAt <= x.1.createdAt then
      [x] + s
    else
      assert s == [s[0]] + s[1..];
      [s[0]] + InsertNewest(s[1..], x)
  }

  lemma {:induction false} InsertNewestSorted(s: seq<(ObjectId, Booking)>, x: (ObjectId, Booking))
    requires NewestFirst(s)
    ensures NewestFirst(InsertNewest(s, x))
  {
    if s != [] && s[0].1.createdAt > x.1.createdAt {
      var rest := InsertNewest(s[1..], x);
      InsertNewestSorted(s[1..], x);
      forall e | e in rest ensures e.1.createdAt <= s[0].1.createdAt {
        if e in s[1..] {
          var k :| 0 <= k < |s[1..]| && s[1..][k] == e;
          assert s[k + 1] == e;
        }
      }
      assert InsertNewest(s, x) == [s[0]] + rest;
    }
  }

  /** Taking one more id into account adds its booking exactly when the e-mail matches. */
  lemma MatchingStep(bookings: map<ObjectId, Booking>, email: string, done: set<ObjectId>, id: ObjectId)
    requires id in bookings && id !in done
    ensures (id, bookings[id]) !in MatchingAmong(bookings, email, done)
    ensures multiset(MatchingAmong(bookings, email, done + {id})) ==
              multiset(MatchingAmong(bookings, email, done))
              + (if bookings[id].userEmail == email then multiset{(id, bookings[id])} else multiset{})
  {
    var before := MatchingAmong(bookings, email, done);
    var after := MatchingAmong(bookings, email, done + {id});
    if bookings[id].userEmail == email {
      assert after == before + {(id, bookings[id])};
    } else {
      assert after == before;
    }
  }

  /** `Booking.find({ userEmail: email }).sort({ createdAt: -1 })`: every booking made with
      exactly this e-mail, each once, newest first. */
  method FindByEmail(bookings: map<ObjectId, Booking>, email: string) returns (acc: seq<(ObjectId, Booking)>)
    ensures NewestFirst(acc)
    ensures multiset(acc) == multiset(MatchingAmong(bookings, email, bookings.Keys))
  {
    var remaining := bookings.Keys;
    acc := [];
    assert MatchingAmong(bookings, email, bookings.Keys - remaining) == {};
    while remaining != {}
      invariant remaining <= bookings.Keys
      invariant NewestFirst(acc)
      invariant multiset(acc) == multiset(MatchingAmong(bookings, email, bookings.Keys - remaining))
      decreases |remaining|
    {
      var id :| id in remaining;
      var done := bookings.Keys - remaining;
      MatchingStep(bookings, email, done, id);
      if bookings[id].userEmail == email {
        InsertNewestSorted(acc, (id, bookings[id]));
        acc := InsertNewest(acc, (id, bookings[id]));
      }
      assert bookings.Keys - (remaining - {id}) == done + {id};
      remaining := remaining - {id};
    }
    assert bookings.Keys - remaining == bookings.Keys;
  }

  /** `GET /?email=`: the e-mail must be present, not blank and match the e-mail pattern;
      then the bookings made with exactly this e-mail, newest first. Reading changes
      neither store. */
  method ListBookings(db: Db, email: Option<string>) returns (r: Result<seq<(ObjectId, Booking)>>)
    ensures r == Err(ValidationError(MissingEmailQuery)) <==> MissingText(email)
    ensures (r == Err(ValidationError(InvalidEmailQuery)))
              <==> (!MissingText(email) && !EmailPattern(email.value))
    ensures r.Ok? <==> (!MissingText(email) && EmailPattern(email.value))
    ensures r.Ok? ==> && NewestFirst(r.value)
                      && multiset(r.value) == multiset(MatchingAmong(db.bookings, email.value, db.bookings.Keys))
  {
    if MissingText(email) {
      return Err(ValidationError(MissingEmailQuery));
    }
    if !EmailPattern(email.value) {
      return Err(ValidationError(InvalidEmailQuery));
    }
    var found := FindByEmail(db.bookings, email.value);
    r := Ok(found);
  }

  /** `PATCH /:id/status`: validate the status, load the booking, save the new status, and
      only when it is Completed free the booking's slot (if its expert and slot still
      exist) and announce it. */
  function SetStatus(db: Db, idParam: string, status: Option<string>): (r: Result<Effect<Booking>>)
    ensures r == Err(ValidationError(InvalidStatus)) <==> ParseStatus(status).None?
    ensures r == Err(ServerError) <==> (ParseStatus(status).Some? && !ObjectIdText(idParam))
    ensures (r == Err(NotFound(BookingMissing)))
              <==> (ParseStatus(status).Some? && ObjectIdText(idParam) && Lower(idParam) !in db.bookings)
    ensures r.Ok? <==> ParseStatus(status).Some? && ObjectIdText(idParam) && Lower(idParam) in db.bookings
    ensures r.Ok? ==>
              && var bid := Lower(idParam);
                 var st := ParseStatus(status).value;
                 var b := db.bookings[bid];
                 var after := Commit(db, r.value.writes);
                 && r.value.reply == b.(status := st)
                 && after.bookings == db.bookings[bid := b.(status := st)]
                 && (st != Completed || SlotOfBooking(db.experts, b).None? ==>
                       after.experts == db.experts && r.value.events == [])
                 && (st == Completed && SlotOfBooking(db.experts, b).Some? ==>
                       var i := SlotOfBooking(db.experts, b).value;
                       && OnlyFlagChanged(db.experts, after.experts, b.expertId, i, false)
                       && !after.experts[b.expertId].timeSlots[i].isBooked
                       && r.value.events == [SlotAvailable(b.expertId, b.slotId)])
  {
    match ParseStatus(status)
    case None => Err(ValidationError(InvalidStatus))
    case Some(st) =>
      match CastId(idParam)
      case None => Err(ServerError)   // findById throws on an id it cannot cast
      case Some(bid) =>
        if bid !in db.bookings then Err(NotFound(BookingMissing))
        else
          var b := db.bookings[bid].(status := st);
          var save := SaveBooking(bid, b);
          CommitOne(db, save);
          if st != Completed then Ok(Effect([save], [], b))
          else
            match SlotOfBooking(db.experts, b)
            case None => Ok(Effect([save], [], b))
            case Some(i) =>
              CommitPair(db, save, SetBooked(b.expertId, i, false));
              Ok(Effect([save, SetBooked(b.expertId, i, false)], [SlotAvailable(b.expertId, b.slotId)], b))
  }

  /** `DELETE /:id`: remove the booking whatever its status, then free its slot (if its
      expert and slot still exist) and announce it, even when the slot was already free. */
  function Delete(db: Db, idParam: string): (r: Result<Effect<()>>)
    ensures r == Err(ServerError) <==> !ObjectIdText(idParam)
    ensures r == Err(NotFound(BookingMissing)) <==> (ObjectIdText(idParam) && Lower(idParam) !in db.bookings)
    ensures r.Ok? <==> ObjectIdText(idParam) && Lower(idParam) in db.bookings
    ensures r.Ok? ==>
              && var bid := Lower(idParam);
                 var b := db.bookings[bid];
                 var after := Commit(db, r.value.writes);
                 && after.bookings == db.bookings - {bid}
                 && (SlotOfBooking(db.experts, b).None? ==> after.experts == db.experts && r.value.events == [])
                 && (SlotOfBooking(db.experts, b).Some? ==>
                       var i := SlotOfBooking(db.experts, b).value;
                       && OnlyFlagChanged(db.experts, after.experts, b.expertId, i, false)
                       && !after.experts[b.expertId].timeSlots[i].isBooked
                       && (!db.experts[b.expertId].timeSlots[i].isBooked ==> after.experts == db.experts)
                       && r.value.events == [SlotAvailable(b.expertId, b.slotId)])
  {
    match CastId(idParam)
    case None => Err(ServerError)
    case Some(bid) =>
      if bid !in db.bookings then Err(NotFound(BookingMissing))
      else
        var b := db.bookings[bid];
        var remove := RemoveBooking(bid);
        CommitOne(db, remove);
        match SlotOfBooking(db.experts, b)
        case None => Ok(Effect([remove], [], ()))
        case Some(i) =>
          CommitPair(db, remove, SetBooked(b.expertId, i, false));
          var e := db.experts[b.expertId];
          assert !e.timeSlots[i].isBooked ==> e.timeSlots[i := e.timeSlots[i].(isBooked := false)] == e.timeSlots;
          Ok(Effect([remove, SetBooked(b.expertId, i, false)], [SlotAvailable(b.expertId, b.slotId)], ()))
  }
}
