/** The two persisted record shapes: an expert with its embedded, ordered time slots, and
    a booking that refers to one expert and one of its slots by id. */
module Schema {
  import opened Results

  /** The hexadecimal text of a MongoDB ObjectId. */
  type ObjectId = string

  datatype TimeSlot = TimeSlot(id: string, date: string, time: string, isBooked: bool)

  datatype Expert = Expert(
    name: string,
    category: string,
    experience: string,
    rating: real,
    avatar: string,
    timeSlots: seq<TimeSlot>)   // embedded in the expert record, in order

  datatype Status = Pending | Confirmed | Completed

  datatype Booking = Booking(
    expertId: ObjectId,
    expertName: string,
    slotId: string,
    date: string,
    time: string,
    userName: string,
    userEmail: string,
    userPhone: string,
    notes: string,
    status: Status,
    createdAt: nat)   // the automatic creation timestamp, as a clock reading

  /** A Pending or Confirmed booking holds its slot; a Completed one does not. */
  predicate Active(b: Booking)
  {
    b.status != Completed
  }

  /** A slot created without an explicit flag is free. */
  function NewTimeSlot(id: string, date: string, time: string): (t: TimeSlot)
    ensures !t.isBooked
    ensures t.id == id && t.date == date && t.time == time
  {
    TimeSlot(id, date, time, false)
  }

  function StatusName(s: Status): string
  {
    match s
    case Pending => "Pending"
    case Confirmed => "Confirmed"
    case Completed => "Completed"
  }

  /** The enum check of the status field: exactly the three status names are accepted,
      each naming its own status. */
  function ParseStatus(v: Option<string>): (r: Option<Status>)
    ensures r.Some? <==> v.Some? && v.value in ["Pending", "Confirmed", "Completed"]
    ensures r.Some? ==> StatusName(r.value) == v.value
    ensures forall s :: v == Some(StatusName(s)) ==> r == Some(s)
  {
    if v == Some("Pending") then Some(Pending)
    else if v == Some("Confirmed") then Some(Confirmed)
    else if v == Some("Completed") then Some(Completed)
    else None
  }

  /** A booking document as created: status defaults to Pending and absent notes to "". */
  function NewBooking(expertId: ObjectId, expertName: string, slotId: string, date: string,
                      time: string, userName: string, userEmail: string, userPhone: string,
                      notes: Option<string>, createdAt: nat): (b: Booking)
    ensures b.status == Pending && Active(b)
    ensures notes.None? ==> b.notes == ""
    ensures notes.Some? ==> b.notes == notes.value
    ensures b.expertId == expertId && b.expertName == expertName && b.slotId == slotId
    ensures b.date == date && b.time == time && b.createdAt == createdAt
    ensures b.userName == userName && b.userEmail == userEmail && b.userPhone == userPhone
  {
    Booking(expertId, expertName, slotId, date, time, userName, userEmail, userPhone,
            if notes.Some? then notes.value else "", Pending, createdAt)
  }

  /** Mongoose's `required` check on a string field: present and not empty. */
  predicate Present(s: string)
  {
    |s| > 0
  }

  predicate SlotValid(t: TimeSlot)
  {
    Present(t.id) && Present(t.date) && Present(t.time)
  }

  predicate ExpertValid(e: Expert)
  {
    && Present(e.name) && Present(e.category) && Present(e.experience) && Present(e.avatar)
    && forall i :: 0 <= i < |e.timeSlots| ==> SlotValid(e.timeSlots[i])
  }

  predicate BookingValid(b: Booking)
  {
    && Present(b.expertId) && Present(b.expertName)
    && Present(b.slotId) && Present(b.date) && Present(b.time)
    && Present(b.userName) && Present(b.userEmail) && Present(b.userPhone)
  }
}
