/** The expert routes: booking a slot (`POST /:id/book`) and the paging arithmetic of the
    expert listing (`GET /`). */
module ExpertRoutes {
  import opened Results
  import opened Text
  import opened Schema
  import opened Store

  /** The body of a booking request; every field may be absent. */
  datatype BookRequest = BookRequest(
    slotId: Option<string>,
    userName: Option<string>,
    userEmail: Option<string>,
    userPhone: Option<string>,
    notes: Option<string>)

  /** The three requester checks all pass. */
  predicate RequesterValid(req: BookRequest)
  {
    !MissingText(req.userName) && EmailOk(req.userEmail) && PhoneOk(req.userPhone)
  }

  /** The checks `POST /:id/book` makes before touching either store, in their order:
      name, e-mail, phone, then the expert id format. */
  function ValidateBooking(expertParam: string, req: BookRequest): (r: Option<Reason>)
    ensures r.None? <==> RequesterValid(req) && ObjectIdText(expertParam)
    ensures MissingText(req.userName) ==> r == Some(MissingName)
    ensures (!MissingText(req.userName) && !EmailOk(req.userEmail)) ==> r == Some(InvalidEmail)
    ensures (!MissingText(req.userName) && EmailOk(req.userEmail) && !PhoneOk(req.userPhone))
            ==> r == Some(InvalidPhone)
    ensures r == Some(InvalidExpertId) <==> (RequesterValid(req) && !ObjectIdText(expertParam))
  {
    if MissingText(req.userName) then Some(MissingName)
    else if !EmailOk(req.userEmail) then Some(InvalidEmail)
    else if !PhoneOk(req.userPhone) then Some(InvalidPhone)
    else if !ObjectIdText(expertParam) then Some(InvalidExpertId)
    else None
  }

  /** The store part of `POST /:id/book`, reached once validation has passed: look up the
      expert `eid` and the first slot with the requested id, refuse a booked slot, else
      save a Pending booking and then flag the slot. `newId` is the ObjectId the driver
      assigns to the new document and `now` the clock reading of its creation timestamp. */
  function ReserveSlot(db: Db, eid: ObjectId, req: BookRequest, newId: ObjectId, now: nat)
    : (r: Result<Effect<Booking>>)
    requires RequesterValid(req)
    ensures r.Err? ==> r.error in {NotFound(ExpertMissing), NotFound(SlotMissing), Conflict, ServerError}
    ensures r == Err(NotFound(ExpertMissing)) <==> eid !in db.experts
    ensures r == Err(NotFound(SlotMissing)) <==>
              (eid in db.experts && forall k :: 0 <= k < |db.experts[eid].timeSlots| ==>
                 req.slotId.None? || db.experts[eid].timeSlots[k].id != req.slotId.value)
    ensures (eid in db.experts && FindSlot(db.experts[eid].timeSlots, req.slotId).Some?) ==>
              var i := FindSlot(db.experts[eid].timeSlots, req.slotId).value;
              && (r == Err(Conflict) <==> db.experts[eid].timeSlots[i].isBooked)
              && (r == Err(ServerError) <==> !db.experts[eid].timeSlots[i].isBooked && newId in db.bookings)
    // on success the free slot found is reserved as SaveAndFlag states
    ensures r.Ok? ==>
              && eid in db.experts && newId !in db.bookings
              && FindSlot(db.experts[eid].timeSlots, req.slotId).Some?
              && !db.experts[eid].timeSlots[FindSlot(db.experts[eid].timeSlots, req.slotId).value].isBooked
              && r.value == SaveAndFlag(db, eid, FindSlot(db.experts[eid].timeSlots, req.slotId).value, req, newId, now)
  {
    if eid !in db.experts then Err(NotFound(ExpertMissing))
    else
      var expert := db.experts[eid];
      match FindSlot(expert.timeSlots, req.slotId)
      case None => Err(NotFound(SlotMissing))
      case Some(i) =>
        var slot := expert.timeSlots[i];
        if slot.isBooked then Err(Conflict)
        else if newId in db.bookings then Err(ServerError)   // duplicate key on insert
        else Ok(SaveAndFlag(db, eid, i, req, newId, now))
  }

  /** The success path of the booking: save the Pending booking, then flag slot `i`, then
      announce it. */
  function SaveAndFlag(db: Db, eid: ObjectId, i: nat, req: BookRequest, newId: ObjectId, now: nat)
    : (r: Effect<Booking>)
    requires RequesterValid(req) && eid in db.experts && i < |db.experts[eid].timeSlots|
    ensures var slot := db.experts[eid].timeSlots[i];
            var b := r.reply;
            var after := Commit(db, r.writes);
            && |r.writes| == 2 && r.writes[0] == SaveBooking(newId, b)
            && b.status == Pending && b.createdAt == now
            && b.expertId == eid && b.expertName == db.experts[eid].name
            && b.slotId == slot.id && b.date == slot.date && b.time == slot.time
            && Some(b.userName) == req.userName && Some(b.userEmail) == req.userEmail
            && Some(b.userPhone) == req.userPhone
            && b.notes == (if req.notes.Some? then req.notes.value else "")
            && after.bookings == db.bookings[newId := b]
            && OnlyFlagChanged(db.experts, after.experts, eid, i, true)
            && after.experts[eid].timeSlots[i].isBooked
            && r.events == [SlotBooked(eid, slot.id)]
  {
    var expert := db.experts[eid];
    var slot := expert.timeSlots[i];
    var b := NewBooking(eid, expert.name, slot.id, slot.date, slot.time,
                        req.userName.value, req.userEmail.value, req.userPhone.value,
                        req.notes, now);
    var ws := [SaveBooking(newId, b), SetBooked(eid, i, true)];
    CommitPair(db, ws[0], ws[1]);
    Effect(ws, [SlotBooked(eid, slot.id)], b)
  }

  /** `POST /:id/book`: a validation failure answers before any lookup and writes nothing;
      otherwise the route id, cast to its ObjectId, goes to the store part. */
  function Book(db: Db, expertParam: string, req: BookRequest, newId: ObjectId, now: nat)
    : (r: Result<Effect<Booking>>)
    ensures ValidateBooking(expertParam, req).Some? ==>
              r == Err(ValidationError(ValidateBooking(expertParam, req).value))
    ensures r.Err? && r.error.ValidationError? ==> ValidateBooking(expertParam, req).Some?
    ensures r.Ok? ==> RequesterValid(req) && ObjectIdText(expertParam) && CastId(expertParam).Some?
    // a request that passes validation is answered by the store part for the lowercased id
    ensures ValidateBooking(expertParam, req).None? ==>
              RequesterValid(req) && r == ReserveSlot(db, Lower(expertParam), req, newId, now)
  {
    match ValidateBooking(expertParam, req)
    case Some(reason) => Err(ValidationError(reason))
    case None => ReserveSlot(db, CastId(expertParam).value, req, newId, now)
  }

  /** A record the Booking schema accepts: when the expert record satisfies the Expert
      schema, the booking Book creates satisfies every `required` of the Booking schema. */
  lemma BookCreatesValidBooking(db: Db, expertParam: string, req: BookRequest, newId: ObjectId, now: nat)
    requires Lower(expertParam) in db.experts ==> ExpertValid(db.experts[Lower(expertParam)])
    requires Book(db, expertParam, req, newId, now).Ok?
    ensures BookingValid(Book(db, expertParam, req, newId, now).value.reply)
  {
    var b := Book(db, expertParam, req, newId, now).value.reply;
    var e := db.experts[Lower(expertParam)];
    var i := FindSlot(e.timeSlots, req.slotId).value;
    assert SlotValid(e.timeSlots[i]);
    CastCanonical(expertParam, expertParam);
  }

  // ---------------------------------------------------------------------------
  // Paging of GET /

  datatype Paging = Paging(page: int, limit: int, skip: int, pages: int)

  /** `x || d` for the result of parseInt: NaN and zero are falsy. */
  function OrDefault(v: Option<int>, d: int): (r: int)
    ensures v.Some? && v.value != 0 ==> r == v.value
    ensures v.None? || v.value == 0 ==> r == d
  {
    if v.Some? && v.value != 0 then v.value else d
  }

  /** `Math.ceil`. */
  function Ceil(x: real): int
  {
    -((-x).Floor)
  }

  lemma CeilBounds(x: real)
    ensures Ceil(x) as real - 1.0 < x <= Ceil(x) as real
  {
  }

  lemma DivMul(t: real, l: real)
    requires l > 0.0
    ensures (t / l) * l == t
  {
  }

  lemma ScalePositive(a: real, b: real, l: real)
    requires a <= b && l > 0.0
    ensures a * l <= b * l
  {
  }

  lemma ScalePositiveStrict(a: real, b: real, l: real)
    requires a < b && l > 0.0
    ensures a * l < b * l
  {
  }

  lemma CastMul(a: int, b: int)
    ensures (a * b) as real == a as real * b as real
  {
  }

  /** `Math.ceil(total / limit)` for a positive limit is the least page count that holds
      `total` documents. */
  lemma CeilDivision(total: nat, limit: int)
    requires limit > 0
    ensures var c := Ceil(total as real / limit as real);
            c >= 0 && total <= c * limit && (c == 0 || (c - 1) * limit < total)
  {
    var l := limit as real;
    var t := total as real;
    var x := t / l;
    var c := Ceil(x);
    CeilBounds(x);
    // total <= c * limit
    AtMostQuotient(t, l, c as real);
    CastMul(c, limit);
    assert total as real <= (c * limit) as real;
    // (c - 1) * limit < total
    var d := c - 1;
    assert d as real == c as real - 1.0;
    BelowQuotient(t, l, d as real);
    CastMul(d, limit);
    assert (d * limit) as real < total as real;
  }

  lemma AtMostQuotient(t: real, l: real, c: real)
    requires l > 0.0 && t / l <= c
    ensures t <= c * l
  {
    ScalePositive(t / l, c, l);
    DivMul(t, l);
  }

  lemma BelowQuotient(t: real, l: real, d: real)
    requires l > 0.0 && d < t / l
    ensures d * l < t
  {
    ScalePositiveStrict(d, t / l, l);
    DivMul(t, l);
  }

  /** The paging fields of the expert listing for the query parameters `page` and `limit`
      and a matching-document count `total`. */
  function Paginate(pageQ: Option<string>, limitQ: Option<string>, total: nat): (p: Paging)
    ensures ParseInt(pageQ) == None || ParseInt(pageQ) == Some(0) ==> p.page == 1
    ensures ParseInt(pageQ).Some? && ParseInt(pageQ).value != 0 ==> p.page == ParseInt(pageQ).value
    ensures ParseInt(limitQ) == None || ParseInt(limitQ) == Some(0) ==> p.limit == 10
    ensures ParseInt(limitQ).Some? && ParseInt(limitQ).value != 0 ==> p.limit == ParseInt(limitQ).value
    // skip and pages follow from page and limit as PagingFor states
    ensures p.limit != 0 && p == PagingFor(p.page, p.limit, total)
  {
    PagingFor(OrDefault(ParseInt(pageQ), 1), OrDefault(ParseInt(limitQ), 10), total)
  }

  /** The paging fields once `page` and `limit` are known; `limit` is never 0 after the
      `|| 10` default. */
  function PagingFor(page: int, limit: int, total: nat): (p: Paging)
    requires limit != 0
    ensures p.page == page && p.limit == limit
    ensures p.skip == (page - 1) * limit
    ensures limit > 0 ==> p.pages >= 0 && total <= p.pages * limit
                          && (p.pages == 0 || (p.pages - 1) * limit < total)
  {
    Paging(page, limit, (page - 1) * limit, PageCount(total, limit))
  }

  /** `Math.ceil(total / limit)`. */
  function PageCount(total: nat, limit: int): (c: int)
    requires limit != 0
    ensures limit > 0 ==> c >= 0 && total <= c * limit && (c == 0 || (c - 1) * limit < total)
  {
    if limit > 0 then CeilDivision(total, limit); Ceil(total as real / limit as real)
    else Ceil(total as real / limit as real)
  }

  /** With a positive limit, every document index below `total` falls on exactly one of the
      `PageCount(total, l)` pages the route reports: page `t / l + 1`. */
  lemma PageOfIndex(l: int, total: nat, t: nat)
    requires l > 0 && t < total
    ensures var pages := PageCount(total, l);
            var n := t / l + 1;
            && 1 <= n <= pages
            && (n - 1) * l <= t < n * l
            && forall m :: 1 <= m <= pages && (m - 1) * l <= t < m * l ==> m == n
  {
    CoverPageOfIndex(l, PageCount(total, l), total, t);
  }

  /** The same for any page count that covers `total`. */
  lemma CoverPageOfIndex(l: int, pages: int, total: nat, t: nat)
    requires l > 0 && t < total && total <= pages * l
    ensures var n := t / l + 1;
            && 1 <= n <= pages
            && (n - 1) * l <= t < n * l
            && forall m :: 1 <= m <= pages && (m - 1) * l <= t < m * l ==> m == n
  {
    var q := t / l;
    var n := q + 1;
    assert q * l <= t < (q + 1) * l by {
      assert t == q * l + t % l;
    }
    if n > pages {
      MulMonotone(pages, q, l);
      assert false;
    }
    forall m | 1 <= m <= pages && (m - 1) * l <= t < m * l ensures m == n {
      if m < n {
        MulMonotone(m, q, l);
      } else if m > n {
        MulMonotone(n, m - 1, l);
      }
    }
  }

  lemma MulMonotone(a: int, b: int, l: int)
    requires a <= b && l > 0
    ensures a * l <= b * l
  {
    assert b * l - a * l == (b - a) * l;
  }
}
