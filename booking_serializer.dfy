/** The booking serializers: the weekday label of a time slot, the
    per-field checks of a booking and the cross-field check of its date
    and times against the rental rules, the section schedules and the
    events of the day. */
module BookingSerializer {
  import opened Common
  import opened Text
  import opened CoreValidators
  import opened IceRental
  import opened ContactFields

  const WeekdayNames: seq<string> := ["Понедельник", "Вторник", "Среда", "Четверг", "Пятница", "Суббота", "Воскресенье"]
  const AllDays := "Все дни"

  /** `get_day_of_week_display`: no day reads 'every day'; otherwise the
      list is indexed as Python does, from the end for a negative day;
      `None` is the `IndexError` outside -7..6. */
  function DayDisplay(day: Option<int>): (r: Option<string>)
    ensures day.None? ==> r == Some(AllDays)
    ensures day.Some? ==> (r.Some? <==> -7 <= day.value < 7)
  {
    if day.None? then Some(AllDays)
    else if 0 <= day.value < 7 then Some(WeekdayNames[day.value])
    else if -7 <= day.value < 0 then Some(WeekdayNames[day.value + 7])
    else None
  }

  /** The seven weekdays get seven different names, none of them the
      every-day label, and -k names the same day as 7 - k. */
  lemma DayDisplayDistinct(d1: int, d2: int)
    requires 0 <= d1 < 7 && 0 <= d2 < 7
    ensures DayDisplay(Some(d1)) == DayDisplay(Some(d2)) <==> d1 == d2
    ensures DayDisplay(Some(d1)) != DayDisplay(None)
    ensures DayDisplay(Some(d1 - 7)) == DayDisplay(Some(d1))
  {
  }

  /** The booking fields the serializer accepts. `None` means the
      request leaves the field out. */
  datatype BookingData = BookingData(
    date: Option<Day>, start: Option<int>, end: Option<int>, duration: Option<real>,
    name: Option<string>, phone: Option<string>, message: Option<string>, status: Option<BookingStatus>)

  /** The outcome: errors per field, one error for the whole booking, or
      the validated data. */
  datatype Outcome = FieldErrors(errors: map<FieldName, string>) | NonFieldError(error: string) | Valid(data: BookingData)

  const MinDurationError := "Минимальная длительность аренды - 1 час"
  const MaxDurationError := "Максимальная длительность аренды - 8 часов"
  const ApprovalError := "Для аренды более 3 часов требуется согласование"
  const ScheduleBusyError := "Время занято расписанием секций"
  const EventBusyError := "Время занято событием"

  /** The error of a field that is required unless the update is partial. */
  function RequiredErrorOf<T>(v: Option<T>, partial: bool): (e: Option<string>)
    ensures e.Some? <==> v.None? && !partial
    ensures e.Some? ==> e.value == RequiredError
  {
    if v.None? && !partial then Some(RequiredError) else None
  }

  function ContactOf(d: BookingData): Contact
  {
    Contact(d.name, d.phone, d.message)
  }

  /** The errors of the date, the times and the duration: required on a
      full update (the values themselves arrive typed). */
  function RequiredErrors(d: BookingData, partial: bool): (errs: map<FieldName, string>)
    ensures DateKey in errs <==> d.date.None? && !partial
    ensures TimeStartKey in errs <==> d.start.None? && !partial
    ensures TimeEndKey in errs <==> d.end.None? && !partial
    ensures DurationKey in errs <==> d.duration.None? && !partial
    ensures errs.Keys <= {DateKey, TimeStartKey, TimeEndKey, DurationKey}
  {
    var m1 := WithError(map[], DateKey, RequiredErrorOf(d.date, partial));
    var m2 := WithError(m1, TimeStartKey, RequiredErrorOf(d.start, partial));
    var m3 := WithError(m2, TimeEndKey, RequiredErrorOf(d.end, partial));
    WithError(m3, DurationKey, RequiredErrorOf(d.duration, partial))
  }

  /** The field-level checks: the errors of the contact fields and of the
      required values together. */
  function FieldChecks(d: BookingData, partial: bool): (errs: map<FieldName, string>)
    ensures errs.Keys == ContactErrors(ContactOf(d), partial).Keys + RequiredErrors(d, partial).Keys
    ensures forall k :: k in ContactErrors(ContactOf(d), partial) ==> errs[k] == ContactErrors(ContactOf(d), partial)[k]
  {
    var req := RequiredErrors(d, partial);
    assert NameKey !in req && PhoneKey !in req && MessageKey !in req;
    ContactErrors(ContactOf(d), partial) + req
  }

  /** On a full update the date, both times and the duration are
      required; no other field than those of the serializer gets an
      error. */
  lemma RequiredFieldsSpec(d: BookingData, partial: bool)
    ensures var errs := FieldChecks(d, partial);
      (DateKey in errs <==> d.date.None? && !partial)
      && (TimeStartKey in errs <==> d.start.None? && !partial)
      && (TimeEndKey in errs <==> d.end.None? && !partial)
      && (DurationKey in errs <==> d.duration.None? && !partial)
    ensures FieldChecks(d, partial).Keys <= {DateKey, TimeStartKey, TimeEndKey, DurationKey, NameKey, PhoneKey, MessageKey}
  {
    var c := ContactErrors(ContactOf(d), partial);
    assert DateKey !in c && TimeStartKey !in c && TimeEndKey !in c && DurationKey !in c;
  }

  /** Name, phone and message go through their string fields and
      `validate_<field>`; name and phone are also required on a full
      update (the status has a default and the message may be blank). A
      refused name carries its field's error. */
  lemma FieldChecksSpec(d: BookingData, partial: bool)
    ensures var errs := FieldChecks(d, partial);
      (NameKey in errs <==> (d.name.None? && !partial) || (d.name.Some? && NameField(d.name.value).Refused?))
      && (PhoneKey in errs <==> (d.phone.None? && !partial) || (d.phone.Some? && PhoneField(d.phone.value).Refused?))
      && (MessageKey in errs <==> d.message.Some? && MessageField(d.message.value).Refused?)
    ensures NameKey in FieldChecks(d, partial) && d.name.Some? ==> FieldChecks(d, partial)[NameKey] == NameField(d.name.value).error
  {
    var req := RequiredErrors(d, partial);
    assert NameKey !in req && PhoneKey !in req && MessageKey !in req;
  }

  /** The data once the fields have been run: name, phone and message
      stripped. */
  function Cleaned(d: BookingData): (c: BookingData)
    ensures c.(name := d.name, phone := d.phone, message := d.message) == d
    ensures (c.name.Some? <==> d.name.Some?) && (c.phone.Some? <==> d.phone.Some?) && (c.message.Some? <==> d.message.Some?)
    ensures d.name.Some? ==> c.name.value == Trim(d.name.value, IsPySpace)
    ensures d.message.Some? && Trim(d.message.value, IsPySpace) == "" ==> c.message == Some("")
  {
    d.(name := Stripped(d.name), phone := Stripped(d.phone), message := Stripped(d.message))
  }

  /** The length of a booking in hours. */
  function Duration(start: int, end: int): real
  {
    (end - start) as real / 60.0
  }

  /** Some schedule of the weekday overlaps [start, end). */
  predicate ScheduleClash(start: int, end: int, schedules: seq<Schedule>)
  {
    exists i :: 0 <= i < |schedules| && Overlaps(start, end, schedules[i].start, schedules[i].end)
  }

  /** The event test as written: an event clashes only when it starts
      strictly inside the booking. */
  predicate EventClash(start: int, end: int, starts: seq<int>)
  {
    exists i :: 0 <= i < |starts| && Overlaps(start, end, starts[i], starts[i])
  }

  /** `validate`: the duration rules first, then the schedules of the
      weekday, then the events of the date; a booking without its date
      or either time passes unchanged. */
  function Validation(d: BookingData, schedules: seq<Schedule>, events: seq<EventTime>): Outcome
  {
    if d.date.None? || d.start.None? || d.end.None? then Valid(d)
    else
      var dur := Duration(d.start.value, d.end.value);
      if dur < 1.0 then NonFieldError(MinDurationError)
      else if dur > 8.0 then NonFieldError(MaxDurationError)
      else if dur >= 3.0 then NonFieldError(ApprovalError)
      else if ScheduleClash(d.start.value, d.end.value, SchedulesOn(schedules, d.date.value.weekday)) then NonFieldError(ScheduleBusyError)
      else if EventClash(d.start.value, d.end.value, EventsOn(events, d.date.value.date)) then NonFieldError(EventBusyError)
      else Valid(d.(duration := Some(dur)))
  }

  /** The whole serializer: field errors stop it before `validate`, which
      sees the cleaned data. */
  function Validate(d: BookingData, partial: bool, schedules: seq<Schedule>, events: seq<EventTime>): Outcome
  {
    if FieldChecks(d, partial) != map[] then FieldErrors(FieldChecks(d, partial)) else Validation(Cleaned(d), schedules, events)
  }

  /** A booking with its date and times is accepted exactly when it lasts
      at least one and less than three hours and meets no schedule of
      its weekday and no event starting inside it; the stored duration
      is then its length in hours and nothing else changes. */
  lemma ValidationSpec(d: BookingData, schedules: seq<Schedule>, events: seq<EventTime>)
    requires d.date.Some? && d.start.Some? && d.end.Some?
    ensures Validation(d, schedules, events).Valid? <==>
      60 <= d.end.value - d.start.value < 180
      && !ScheduleClash(d.start.value, d.end.value, SchedulesOn(schedules, d.date.value.weekday))
      && !EventClash(d.start.value, d.end.value, EventsOn(events, d.date.value.date))
    ensures Validation(d, schedules, events).Valid? ==>
      Validation(d, schedules, events).data == d.(duration := Some(Duration(d.start.value, d.end.value)))
  {
    var len := d.end.value - d.start.value;
    assert Duration(d.start.value, d.end.value) < 1.0 <==> len < 60;
    assert Duration(d.start.value, d.end.value) >= 3.0 <==> len >= 180;
  }

  /** Which duration message a booking gets: shorter than an hour, longer
      than eight, or from three to eight hours. */
  lemma DurationMessages(d: BookingData, schedules: seq<Schedule>, events: seq<EventTime>)
    requires d.date.Some? && d.start.Some? && d.end.Some?
    ensures d.end.value - d.start.value < 60 ==> Validation(d, schedules, events) == NonFieldError(MinDurationError)
    ensures d.end.value - d.start.value > 480 ==> Validation(d, schedules, events) == NonFieldError(MaxDurationError)
    ensures 180 <= d.end.value - d.start.value <= 480 ==> Validation(d, schedules, events) == NonFieldError(ApprovalError)
  {
    var len := d.end.value - d.start.value;
    assert Duration(d.start.value, d.end.value) < 1.0 <==> len < 60;
    assert Duration(d.start.value, d.end.value) > 8.0 <==> len > 480;
    assert Duration(d.start.value, d.end.value) >= 3.0 <==> len >= 180;
  }

  /** A partial update without the date or a time, such as a status
      change, skips every cross-field rule. Its data are kept as sent,
      except that the strings are stripped. A full update cannot leave
      them out. */
  lemma PartialUpdatePasses(d: BookingData, schedules: seq<Schedule>, events: seq<EventTime>)
    requires d.date.None? || d.start.None? || d.end.None?
    requires FieldChecks(d, true) == map[]
    ensures Validate(d, true, schedules, events) == Valid(Cleaned(d))
    ensures Validate(d, false, schedules, events).FieldErrors?
  {
    RequiredFieldsSpec(d, false);
    assert DateKey in FieldChecks(d, false) || TimeStartKey in FieldChecks(d, false) || TimeEndKey in FieldChecks(d, false);
  }

  /** Field errors win over every cross-field rule. A name that its field
      refuses, whether blank, too long or refused by `validate_name`,
      stops the booking with that error on `name`. */
  lemma FieldErrorsFirst(d: BookingData, partial: bool, schedules: seq<Schedule>, events: seq<EventTime>)
    requires d.name.Some? && NameField(d.name.value).Refused?
    ensures Validate(d, partial, schedules, events) == FieldErrors(FieldChecks(d, partial))
    ensures Validate(d, partial, schedules, events).errors[NameKey] == NameField(d.name.value).error
  {
    FieldChecksSpec(d, partial);
  }

  /** The cross-field check with its loops and their early `raise`. */
  method ValidateTimes(d: BookingData, schedules: seq<Schedule>, events: seq<EventTime>) returns (r: Outcome)
    ensures r == Validation(d, schedules, events)
  {
    if d.date.None? || d.start.None? || d.end.None? {
      return Valid(d);
    }
    var start, end := d.start.value, d.end.value;
    var dur := Duration(start, end);
    if dur < 1.0 {
      return NonFieldError(MinDurationError);
    }
    if dur > 8.0 {
      return NonFieldError(MaxDurationError);
    }
    if dur >= 3.0 {
      return NonFieldError(ApprovalError);
    }
    var sch := SchedulesOn(schedules, d.date.value.weekday);
    var i := 0;
    while i < |sch|
      invariant 0 <= i <= |sch|
      invariant forall j :: 0 <= j < i ==> !Overlaps(start, end, sch[j].start, sch[j].end)
    {
      if Overlaps(start, end, sch[i].start, sch[i].end) {
        return NonFieldError(ScheduleBusyError);
      }
      i := i + 1;
    }
    var evs := EventsOn(events, d.date.value.date);
    i := 0;
    while i < |evs|
      invariant 0 <= i <= |evs|
      invariant forall j :: 0 <= j < i ==> !Overlaps(start, end, evs[j], evs[j])
    {
      if Overlaps(start, end, evs[i], evs[i]) {
        return NonFieldError(EventBusyError);
      }
      i := i + 1;
    }
    return Valid(d.(duration := Some(dur)));
  }

  /** As written, an event that starts when the booking starts does not
      stop it, though `available_slots` shows that hour as taken: a
      booking 18:00–19:00 next to an event at 18:00. */
  lemma EventAtStartAccepted()
    ensures var d := BookingData(Some(Day(0, 0)), Some(1080), Some(1140), None, None, None, None, None);
      var events := [EventTime(0, 1080)];
      Validation(d, [], events).Valid?
      && EventBlocks(TimeSlot(1080, 1140, 0.0, None, true), EventsOn(events, 0))
  {
    var events := [EventTime(0, 1080)];
    assert events[..0] == [];
    assert EventsOn(events, 0) == [1080];
    assert Duration(1080, 1140) == 1.0;
    assert Overlaps(1080, 1140, EventsOn(events, 0)[0], EventsOn(events, 0)[0] + EventLength);
  }

  /** The cross-field check with the event window `available_slots`
      uses: an event holds the ice for two hours from its start. */
  function IntendedValidation(d: BookingData, schedules: seq<Schedule>, events: seq<EventTime>): Outcome
  {
    if d.date.None? || d.start.None? || d.end.None? then Valid(d)
    else if Validation(d, schedules, events) == NonFieldError(EventBusyError) then NonFieldError(EventBusyError)
    else if Validation(d, schedules, events).Valid?
      && EventBlocks(TimeSlot(d.start.value, d.end.value, 0.0, None, true), EventsOn(events, d.date.value.date))
    then NonFieldError(EventBusyError)
    else Validation(d, schedules, events)
  }

  /** A booking the intended check accepts meets no schedule and no
      event window, so `available_slots` would show its time as free of
      both; and it accepts everything else the written check accepts. */
  lemma IntendedValidationSpec(d: BookingData, schedules: seq<Schedule>, events: seq<EventTime>)
    requires d.date.Some? && d.start.Some? && d.end.Some?
    ensures var slot := TimeSlot(d.start.value, d.end.value, 0.0, None, true);
      IntendedValidation(d, schedules, events).Valid? <==>
        Validation(d, schedules, events).Valid? && !EventBlocks(slot, EventsOn(events, d.date.value.date))
    ensures var slot := TimeSlot(d.start.value, d.end.value, 0.0, None, true);
      IntendedValidation(d, schedules, events).Valid? ==>
        !ScheduleBlocks(slot, SchedulesOn(schedules, d.date.value.weekday))
        && !EventBlocks(slot, EventsOn(events, d.date.value.date))
  {
    ValidationSpec(d, schedules, events);
  }
}
