/** The booking view's `update` and `partial_update`. Anyone who is not
    staff gets 403. For staff, the serializer validates the request and
    saves it onto the stored booking. */
module BookingUpdate {
  import opened Common
  import opened Text
  import opened IceRental
  import opened ContactFields
  import opened BookingSerializer

  /** 403, 400 with the serializer's errors, or the saved booking. */
  datatype Reply = Forbidden | BadRequest(outcome: Outcome) | Saved(booking: Booking)

  const ForbiddenError := "Только администратор может изменять статус"

  /** `serializer.save()` on a stored booking: every validated field
      replaces the stored one, and the rest, the owner included, stay. */
  function Assign(b: Booking, v: BookingData): (r: Booking)
    ensures r.user == b.user
    ensures v == BookingData(None, None, None, None, None, None, None, None) ==> r == b
    ensures v.status.Some? ==> r.status == v.status.value
    ensures v.status.None? ==> r.status == b.status
  {
    Booking(b.user,
      if v.date.Some? then v.date.value.date else b.date,
      if v.start.Some? then v.start.value else b.start,
      if v.end.Some? then v.end.value else b.end,
      if v.duration.Some? then v.duration.value else b.duration,
      if v.name.Some? then v.name.value else b.name,
      if v.phone.Some? then v.phone.value else b.phone,
      if v.message.Some? then v.message.value else b.message,
      if v.status.Some? then v.status.value else b.status)
  }

  /** PUT (`partial` false) or PATCH (`partial` true) of booking `b` with
      the request data `d`, on the schedules and events the serializer
      looks up. */
  function UpdateBooking(staff: bool, partial: bool, b: Booking, d: BookingData,
                         schedules: seq<Schedule>, events: seq<EventTime>): (r: Reply)
    ensures r.Forbidden? <==> !staff
    ensures staff ==> (r.Saved? <==> Validate(d, partial, schedules, events).Valid?)
    ensures r.BadRequest? ==> r.outcome == Validate(d, partial, schedules, events) && !r.outcome.Valid?
    ensures r.Saved? ==> r.booking == Assign(b, Validate(d, partial, schedules, events).data)
  {
    if !staff then Forbidden
    else match Validate(d, partial, schedules, events)
      case Valid(v) => Saved(Assign(b, v))
      case other => BadRequest(other)
  }

  /** A staff PUT of a booking from three to eight hours long, all of
      whose fields pass, gets the approval error and changes nothing. */
  lemma LongBookingRefused(b: Booking, d: BookingData, schedules: seq<Schedule>, events: seq<EventTime>)
    requires d.date.Some? && d.start.Some? && d.end.Some?
    requires FieldChecks(d, false) == map[]
    requires 180 <= d.end.value - d.start.value <= 480
    ensures UpdateBooking(true, false, b, d, schedules, events) == BadRequest(NonFieldError(ApprovalError))
  {
    DurationMessages(Cleaned(d), schedules, events);
  }

  /** An update that sends the date and both times is saved only when its
      length is from one to three hours and meets no schedule of its
      weekday. The stored duration is then that length, and a name sent
      is stored stripped. */
  lemma SavedWithinRules(b: Booking, partial: bool, d: BookingData, schedules: seq<Schedule>, events: seq<EventTime>)
    requires d.date.Some? && d.start.Some? && d.end.Some?
    requires UpdateBooking(true, partial, b, d, schedules, events).Saved?
    ensures var r := UpdateBooking(true, partial, b, d, schedules, events).booking;
      60 <= r.end - r.start < 180
      && r.duration == Duration(r.start, r.end)
      && !ScheduleClash(r.start, r.end, SchedulesOn(schedules, d.date.value.weekday))
      && r.date == d.date.value.date
    ensures d.name.Some? ==>
      UpdateBooking(true, partial, b, d, schedules, events).booking.name == Trim(d.name.value, IsPySpace)
  {
    ValidationSpec(Cleaned(d), schedules, events);
  }

  /** As written, `validate` skips its rules whenever the date or a time
      is missing from the request. So a staff PATCH that sends only the
      end time is saved whatever length it gives the booking, for example
      five hours, past the approval limit. The duration is not
      recomputed. */
  lemma PatchEndUnchecked(b: Booking, schedules: seq<Schedule>, events: seq<EventTime>)
    ensures var d := BookingData(None, None, Some(b.start + 300), None, None, None, None, None);
      UpdateBooking(true, true, b, d, schedules, events) == Saved(b.(end := b.start + 300))
  {
    var d := BookingData(None, None, Some(b.start + 300), None, None, None, None, None);
    FieldChecksSpec(d, true);
    RequiredFieldsSpec(d, true);
  }

  /** A staff PATCH that sends only a status, as the admin page's status
      select does, stores that status and nothing else. */
  lemma StatusChange(b: Booking, s: BookingStatus, schedules: seq<Schedule>, events: seq<EventTime>)
    ensures var d := BookingData(None, None, None, None, None, None, None, Some(s));
      UpdateBooking(true, true, b, d, schedules, events) == Saved(b.(status := s))
  {
    var d := BookingData(None, None, None, None, None, None, None, Some(s));
    FieldChecksSpec(d, true);
    RequiredFieldsSpec(d, true);
  }
}
