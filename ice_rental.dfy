/** Ice rental: the time-slot table, the availability of each slot on a
    date against section schedules, events and approved bookings, and
    the permission, queryset and write rules of the booking endpoint.
    Times are minutes since midnight; a date is given with its weekday
    (0 = Monday). */
module IceRental {
  import opened Common
  import opened Ordering

  /** A rentable slot; `day` None means every day of the week. */
  datatype TimeSlot = TimeSlot(start: int, end: int, price: real, day: Option<int>, active: bool)

  /** A section group's weekly training time. */
  datatype Schedule = Schedule(day: int, start: int, end: int)

  /** An event, by its date and its start time. */
  datatype EventTime = EventTime(date: int, time: int)

  datatype BookingStatus = Pending | Approved | Rejected

  datatype Booking = Booking(
    user: Option<int>, date: int, start: int, end: int, duration: real,
    name: string, phone: string, message: string, status: BookingStatus)

  /** A requested date, with the weekday `date.weekday()` gives. */
  datatype Day = Day(date: int, weekday: int)

  /** The `date` query parameter: absent or empty, not a `YYYY-MM-DD`
      date, or a date. */
  datatype DateParam = NoDate | Unparsable | Parsed(day: Day)

  /** One entry of the `available_slots` answer. */
  datatype SlotView = SlotView(date: int, start: int, end: int, price: real, available: bool, bookedBy: Option<string>)

  /** The answer: 400 for a missing date, 500 for the parse error that
      nothing catches, or the slot list. */
  datatype SlotsReply = MissingDate | ServerError | Slots(entries: seq<SlotView>)

  /** An event occupies the ice for two hours from its start; the
      window may run past midnight. */
  const EventLength := 120

  /** The half-open intervals [s1, e1) and [s2, e2) meet. */
  predicate Overlaps(s1: int, e1: int, s2: int, e2: int)
  {
    !(e1 <= s2 || s1 >= e2)
  }

  /** The active slots for the weekday or for every day, in table order. */
  function ForWeekday(slots: seq<TimeSlot>, weekday: int): (r: seq<TimeSlot>)
    ensures forall x :: x in r <==> x in slots && x.active && (x.day == Some(weekday) || x.day.None?)
    ensures multiset(r) <= multiset(slots)
  {
    if slots == [] then []
    else
      var x := slots[|slots| - 1];
      var init := ForWeekday(slots[..|slots| - 1], weekday);
      assert slots == slots[..|slots| - 1] + [x];
      if x.active && (x.day == Some(weekday) || x.day.None?) then init + [x] else init
  }

  function StartKey(x: TimeSlot): real { x.start as real }

  /** The query: those slots ordered by start. */
  function Candidates(slots: seq<TimeSlot>, weekday: int): seq<TimeSlot>
  {
    SortByKey(ForWeekday(slots, weekday), StartKey)
  }

  /** The candidates are the matching slots, each as often as in the
      table, in ascending order of start. */
  lemma CandidatesSpec(slots: seq<TimeSlot>, weekday: int)
    ensures SortedByKey(Candidates(slots, weekday), StartKey)
    ensures multiset(Candidates(slots, weekday)) == multiset(ForWeekday(slots, weekday))
    ensures forall x :: x in Candidates(slots, weekday) <==> x in slots && x.active && (x.day == Some(weekday) || x.day.None?)
  {
    SortByKeySpec(ForWeekday(slots, weekday), StartKey);
    var c := Candidates(slots, weekday);
    forall x ensures x in c <==> x in ForWeekday(slots, weekday) {
      assert x in c <==> x in multiset(c);
    }
  }

  /** The fourteen hourly slots 08:00–22:00 at 4000 used when the table
      offers none. */
  function DefaultSlotList(): (r: seq<TimeSlot>)
    ensures |r| == 14
  {
    seq(14, i requires 0 <= i < 14 => TimeSlot((8 + i) * 60, (9 + i) * 60, 4000.0, None, true))
  }

  /** Slot `i` runs from hour 8 + i to the next hour, at 4000, on every
      day; consecutive slots meet. */
  lemma DefaultSlotsSpec()
    ensures forall i :: 0 <= i < 14 ==> DefaultSlotList()[i] == TimeSlot(480 + 60 * i, 540 + 60 * i, 4000.0, None, true)
    ensures DefaultSlotList()[0].start == 480 && DefaultSlotList()[13].end == 1320
    ensures forall i :: 0 <= i < 13 ==> DefaultSlotList()[i].end == DefaultSlotList()[i + 1].start
  {
  }

  /** `_get_default_slots`: the loop over hours 8 to 21. */
  method DefaultSlots() returns (r: seq<TimeSlot>)
    ensures r == DefaultSlotList()
  {
    r := [];
    var hour := 8;
    while hour < 22
      invariant 8 <= hour <= 22
      invariant r == DefaultSlotList()[..hour - 8]
    {
      r := r + [TimeSlot(hour * 60, (hour + 1) * 60, 4000.0, None, true)];
      hour := hour + 1;
    }
  }

  /** The slots the answer lists. */
  function SlotsToCheck(slots: seq<TimeSlot>, weekday: int): seq<TimeSlot>
  {
    if Candidates(slots, weekday) == [] then DefaultSlotList() else Candidates(slots, weekday)
  }

  function SchedulesOn(schedules: seq<Schedule>, weekday: int): (r: seq<Schedule>)
    ensures forall x :: x in r <==> x in schedules && x.day == weekday
  {
    if schedules == [] then []
    else
      var x := schedules[|schedules| - 1];
      var init := SchedulesOn(schedules[..|schedules| - 1], weekday);
      assert schedules == schedules[..|schedules| - 1] + [x];
      if x.day == weekday then init + [x] else init
  }

  /** The start times of the events on the date. */
  function EventsOn(events: seq<EventTime>, date: int): (r: seq<int>)
    ensures forall t :: t in r <==> exists e :: e in events && e.date == date && e.time == t
  {
    if events == [] then []
    else
      var x := events[|events| - 1];
      var init := EventsOn(events[..|events| - 1], date);
      assert events == events[..|events| - 1] + [x];
      if x.date == date then init + [x.time] else init
  }

  /** The approved bookings of the date, in table order: the model's
      default ordering `-created_at` (bookings/models.py:51), newest first. */
  function ApprovedOn(bookings: seq<Booking>, date: int): (r: seq<Booking>)
    ensures forall b :: b in r <==> b in bookings && b.date == date && b.status == Approved
  {
    if bookings == [] then []
    else
      var x := bookings[|bookings| - 1];
      var init := ApprovedOn(bookings[..|bookings| - 1], date);
      assert bookings == bookings[..|bookings| - 1] + [x];
      if x.date == date && x.status == Approved then init + [x] else init
  }

  predicate ScheduleBlocks(slot: TimeSlot, schedules: seq<Schedule>)
  {
    exists i :: 0 <= i < |schedules| && Overlaps(slot.start, slot.end, schedules[i].start, schedules[i].end)
  }

  predicate EventBlocks(slot: TimeSlot, starts: seq<int>)
  {
    exists i :: 0 <= i < |starts| && Overlaps(slot.start, slot.end, starts[i], starts[i] + EventLength)
  }

  predicate BookingOverlaps(slot: TimeSlot, b: Booking)
  {
    Overlaps(slot.start, slot.end, b.start, b.end)
  }

  /** The first booking, in order, that overlaps the slot; with the
      bookings newest first, that is the most recently created overlap. */
  function FirstBooking(slot: TimeSlot, bookings: seq<Booking>): (r: Option<Booking>)
    ensures r.None? <==> forall i :: 0 <= i < |bookings| ==> !BookingOverlaps(slot, bookings[i])
    ensures r.Some? ==> r.value in bookings && BookingOverlaps(slot, r.value)
  {
    if bookings == [] then None
    else if BookingOverlaps(slot, bookings[0]) then Some(bookings[0])
    else
      assert forall i :: 0 < i < |bookings| ==> bookings[i] == bookings[1..][i - 1];
      FirstBooking(slot, bookings[1..])
  }

  /** The booking found is the one at the first overlapping position. */
  lemma {:induction false} FirstBookingAt(slot: TimeSlot, bs: seq<Booking>, i: int)
    requires 0 <= i < |bs| && BookingOverlaps(slot, bs[i])
    requires forall j :: 0 <= j < i ==> !BookingOverlaps(slot, bs[j])
    ensures FirstBooking(slot, bs) == Some(bs[i])
  {
    if i > 0 {
      FirstBookingAt(slot, bs[1..], i - 1);
    }
  }

  /** One slot's entry: a schedule blocks it first, then an event, then
      an approved booking, which also names who booked it. */
  function SlotEntry(date: int, slot: TimeSlot, schedules: seq<Schedule>, starts: seq<int>, approved: seq<Booking>): SlotView
  {
    if ScheduleBlocks(slot, schedules) || EventBlocks(slot, starts) then
      SlotView(date, slot.start, slot.end, slot.price, false, None)
    else
      match FirstBooking(slot, approved)
      case Some(b) => SlotView(date, slot.start, slot.end, slot.price, false, Some(b.name))
      case None => SlotView(date, slot.start, slot.end, slot.price, true, None)
  }

  /** The answer for a date: one entry per slot to check, in order. */
  function Availability(day: Day, slots: seq<TimeSlot>, schedules: seq<Schedule>, events: seq<EventTime>, bookings: seq<Booking>): seq<SlotView>
  {
    var cands := SlotsToCheck(slots, day.weekday);
    var sch := SchedulesOn(schedules, day.weekday);
    var evs := EventsOn(events, day.date);
    var bs := ApprovedOn(bookings, day.date);
    seq(|cands|, i requires 0 <= i < |cands| => SlotEntry(day.date, cands[i], sch, evs, bs))
  }

  /** Each entry copies its slot's times and price; it is free exactly
      when no schedule of the weekday, no event window of the date and
      no approved booking of the date overlaps it; `bookedBy` names the
      first overlapping approved booking, and only when neither a
      schedule nor an event blocked the slot. */
  lemma AvailabilitySpec(day: Day, slots: seq<TimeSlot>, schedules: seq<Schedule>, events: seq<EventTime>, bookings: seq<Booking>, i: int)
    requires 0 <= i < |SlotsToCheck(slots, day.weekday)|
    ensures var out := Availability(day, slots, schedules, events, bookings);
      var slot := SlotsToCheck(slots, day.weekday)[i];
      var sch := SchedulesOn(schedules, day.weekday);
      var evs := EventsOn(events, day.date);
      var bs := ApprovedOn(bookings, day.date);
      |out| == |SlotsToCheck(slots, day.weekday)|
      && out[i].date == day.date && out[i].start == slot.start && out[i].end == slot.end && out[i].price == slot.price
      && (out[i].available <==> !ScheduleBlocks(slot, sch) && !EventBlocks(slot, evs)
                                && forall j :: 0 <= j < |bs| ==> !BookingOverlaps(slot, bs[j]))
      && (out[i].bookedBy.Some? <==> !ScheduleBlocks(slot, sch) && !EventBlocks(slot, evs) && FirstBooking(slot, bs).Some?)
      && (out[i].bookedBy.Some? ==> out[i].bookedBy.value == FirstBooking(slot, bs).value.name)
  {
  }

  /** When the table offers no slot for the weekday, the answer lists
      the fourteen default hours. */
  lemma DefaultsWhenEmpty(day: Day, slots: seq<TimeSlot>, schedules: seq<Schedule>, events: seq<EventTime>, bookings: seq<Booking>)
    requires forall x :: x in slots ==> !x.active || (x.day.Some? && x.day != Some(day.weekday))
    ensures |Availability(day, slots, schedules, events, bookings)| == 14
    ensures forall i :: 0 <= i < 14 ==> Availability(day, slots, schedules, events, bookings)[i].start == 480 + 60 * i
  {
    CandidatesSpec(slots, day.weekday);
    var c := Candidates(slots, day.weekday);
    if c != [] { assert c[0] in c; }
    DefaultSlotsSpec();
  }

  /** A booking that is not approved never changes the answer. */
  lemma UnapprovedIgnored(day: Day, slots: seq<TimeSlot>, schedules: seq<Schedule>, events: seq<EventTime>, bookings: seq<Booking>, b: Booking)
    requires b.status != Approved
    ensures Availability(day, slots, schedules, events, bookings + [b]) == Availability(day, slots, schedules, events, bookings)
  {
    assert (bookings + [b])[..|bookings|] == bookings;
  }

  /** The schedule loop with its `break`. */
  method ScheduleFree(slot: TimeSlot, schedules: seq<Schedule>) returns (free: bool)
    ensures free <==> !ScheduleBlocks(slot, schedules)
  {
    free := true;
    var i := 0;
    while i < |schedules|
      invariant 0 <= i <= |schedules|
      invariant forall j :: 0 <= j < i ==> !Overlaps(slot.start, slot.end, schedules[j].start, schedules[j].end)
    {
      if Overlaps(slot.start, slot.end, schedules[i].start, schedules[i].end) {
        return false;
      }
      i := i + 1;
    }
  }

  /** The event loop with its `break`. */
  method EventFree(slot: TimeSlot, starts: seq<int>) returns (free: bool)
    ensures free <==> !EventBlocks(slot, starts)
  {
    free := true;
    var i := 0;
    while i < |starts|
      invariant 0 <= i <= |starts|
      invariant forall j :: 0 <= j < i ==> !Overlaps(slot.start, slot.end, starts[j], starts[j] + EventLength)
    {
      if Overlaps(slot.start, slot.end, starts[i], starts[i] + EventLength) {
        return false;
      }
      i := i + 1;
    }
  }

  /** The booking loop: the first overlap clears `is_free` and records
      the booking's name. */
  method BookingFree(slot: TimeSlot, approved: seq<Booking>) returns (free: bool, bookedBy: Option<string>)
    ensures free <==> FirstBooking(slot, approved).None?
    ensures bookedBy == (if free then None else Some(FirstBooking(slot, approved).value.name))
  {
    var i := 0;
    while i < |approved|
      invariant 0 <= i <= |approved|
      invariant forall j :: 0 <= j < i ==> !BookingOverlaps(slot, approved[j])
    {
      if BookingOverlaps(slot, approved[i]) {
        FirstBookingAt(slot, approved, i);
        return false, Some(approved[i].name);
      }
      i := i + 1;
    }
    return true, None;
  }

  /** The loop body for one slot: schedules first, then events, then
      approved bookings, each checked only while the slot is still free. */
  method CheckSlot(date: int, slot: TimeSlot, sch: seq<Schedule>, evs: seq<int>, bs: seq<Booking>) returns (v: SlotView)
    ensures v == SlotEntry(date, slot, sch, evs, bs)
  {
    var isFree := ScheduleFree(slot, sch);
    var bookedBy: Option<string> := None;
    if isFree {
      isFree := EventFree(slot, evs);
    }
    if isFree {
      isFree, bookedBy := BookingFree(slot, bs);
    }
    v := SlotView(date, slot.start, slot.end, slot.price, isFree, bookedBy);
  }

  /** `available_slots`: no (or an empty) date answers 400, a date that
      does not parse 500; otherwise the loop over the slots builds the
      answer. */
  method AvailableSlots(date: DateParam, slots: seq<TimeSlot>, schedules: seq<Schedule>, events: seq<EventTime>, bookings: seq<Booking>)
    returns (r: SlotsReply)
    ensures date.NoDate? ==> r == MissingDate
    ensures date.Unparsable? ==> r == ServerError
    ensures date.Parsed? ==> r == Slots(Availability(date.day, slots, schedules, events, bookings))
  {
    if date.NoDate? {
      return MissingDate;
    }
    if date.Unparsable? {
      return ServerError;
    }
    var day := date.day;
    var timeSlots := Candidates(slots, day.weekday);
    if timeSlots == [] {
      timeSlots := DefaultSlots();
    }
    var sch := SchedulesOn(schedules, day.weekday);
    var evs := EventsOn(events, day.date);
    var bs := ApprovedOn(bookings, day.date);
    assert timeSlots == SlotsToCheck(slots, day.weekday);
    var available := CheckSlots(day.date, timeSlots, sch, evs, bs);
    return Slots(available);
  }

  /** The loop over the slots to check, one entry per slot, in order. */
  method CheckSlots(date: int, cands: seq<TimeSlot>, sch: seq<Schedule>, evs: seq<int>, bs: seq<Booking>)
    returns (available: seq<SlotView>)
    ensures available == seq(|cands|, j requires 0 <= j < |cands| => SlotEntry(date, cands[j], sch, evs, bs))
  {
    available := [];
    var i := 0;
    while i < |cands|
      invariant 0 <= i <= |cands|
      invariant |available| == i
      invariant forall j :: 0 <= j < i ==> available[j] == SlotEntry(date, cands[j], sch, evs, bs)
    {
      var entry := CheckSlot(date, cands[i], sch, evs, bs);
      available := available + [entry];
      i := i + 1;
    }
  }

  /** The actions of the booking endpoint. */
  datatype Action = List | Retrieve | Create | Update | PartialUpdate | Destroy | ListAvailableSlots

  datatype Permission = AllowAny | Authenticated | AdminOnly

  /** `get_permissions` of the booking endpoint as written: only creation
      is open; every other action, `available_slots` included, needs a
      signed-in user. */
  function BookingPermission(a: Action): (p: Permission)
    ensures p == AllowAny <==> a == Create
    ensures p != AdminOnly
  {
    if a == Create then AllowAny else Authenticated
  }

  /** The `AllowAny` decorator on `available_slots` has no effect: the
      endpoint's own `get_permissions` decides, and it asks for a login. */
  lemma AvailableSlotsNeedsLogin()
    ensures BookingPermission(ListAvailableSlots) == Authenticated
  {
  }

  /** The rule the decorator asks for: creation and `available_slots`
      open to anyone, everything else for signed-in users. */
  function IntendedBookingPermission(a: Action): Permission
  {
    if a == Create || a == ListAvailableSlots then AllowAny else BookingPermission(a)
  }

  lemma IntendedBookingPermissionSpec(a: Action)
    ensures IntendedBookingPermission(a) == AllowAny <==> a == Create || a == ListAvailableSlots
    ensures a != ListAvailableSlots ==> IntendedBookingPermission(a) == BookingPermission(a)
  {
  }

  /** `get_queryset`: staff see every booking, others their own. */
  function BookingQueryset(staff: bool, user: int, bookings: seq<Booking>): (r: seq<Booking>)
    ensures staff ==> r == bookings
    ensures !staff ==> forall b :: b in r <==> b in bookings && b.user == Some(user)
  {
    if staff then bookings else OwnBookings(bookings, user)
  }

  function OwnBookings(bookings: seq<Booking>, user: int): (r: seq<Booking>)
    ensures forall b :: b in r <==> b in bookings && b.user == Some(user)
    ensures |r| <= |bookings|
  {
    if bookings == [] then []
    else
      var x := bookings[|bookings| - 1];
      var init := OwnBookings(bookings[..|bookings| - 1], user);
      assert bookings == bookings[..|bookings| - 1] + [x];
      if x.user == Some(user) then init + [x] else init
  }

  /** `perform_create`: the booking is saved for the signed-in user, or
      for nobody, and always as pending. */
  function PerformCreate(user: Option<int>, b: Booking): (r: Booking)
    ensures r.status == Pending && r.user == user
    ensures r.(status := b.status, user := b.user) == b
  {
    b.(user := user, status := Pending)
  }
}
