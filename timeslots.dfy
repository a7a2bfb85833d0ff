/** The command that fills the time-slot table with the standard day:
    fourteen hourly slots from 08:00 to 22:00, cheaper in the morning and
    dearer in the evening. */
module Timeslots {
  import opened Common
  import opened Ordering
  import opened IceRental

  /** Morning hours (8–11) cost 3000, day hours (12–17) 4000, evening
      hours (18–21) 5000. */
  function HourPrice(hour: int): real
  {
    if hour < 12 then 3000.0 else if hour < 18 then 4000.0 else 5000.0
  }

  function HourSlot(hour: int): TimeSlot
  {
    TimeSlot(hour * 60, (hour + 1) * 60, HourPrice(hour), None, true)
  }

  /** The table the command leaves behind. */
  function StandardSlots(): (r: seq<TimeSlot>)
    ensures |r| == 14
  {
    seq(14, i requires 0 <= i < 14 => HourSlot(8 + i))
  }

  /** The standard table: slot `i` is the hour 8 + i, active on every day;
      the slots follow one another with no gap from 08:00 to 22:00, and
      each price is the one of its band. */
  lemma StandardSlotsSpec()
    ensures forall i :: 0 <= i < 14 ==> StandardSlots()[i].start == 480 + 60 * i && StandardSlots()[i].end == 540 + 60 * i
    ensures forall i :: 0 <= i < 14 ==> StandardSlots()[i].active && StandardSlots()[i].day.None?
    ensures forall i :: 0 <= i < 13 ==> StandardSlots()[i].end == StandardSlots()[i + 1].start
    ensures StandardSlots()[0].start == 480 && StandardSlots()[13].end == 1320
    ensures forall i :: 0 <= i < 4 ==> StandardSlots()[i].price == 3000.0
    ensures forall i :: 4 <= i < 10 ==> StandardSlots()[i].price == 4000.0
    ensures forall i :: 10 <= i < 14 ==> StandardSlots()[i].price == 5000.0
  {
  }

  /** With the standard table `available_slots` lists it as it stands on
      every weekday, and never falls back to the default hours. */
  lemma StandardCandidates(weekday: int)
    ensures Candidates(StandardSlots(), weekday) == StandardSlots()
    ensures SlotsToCheck(StandardSlots(), weekday) == StandardSlots()
  {
    var t := StandardSlots();
    StandardActive();
    ForWeekdayAll(t, weekday);
    StandardSorted();
    SortByKeySorted(t, StartKey);
  }

  lemma StandardActive()
    ensures forall i :: 0 <= i < |StandardSlots()| ==> StandardSlots()[i].active && StandardSlots()[i].day.None?
  {
    forall i | 0 <= i < 14 ensures StandardSlots()[i].active && StandardSlots()[i].day.None? {
      assert StandardSlots()[i] == HourSlot(8 + i);
    }
  }

  lemma StandardSorted()
    ensures SortedByKey(StandardSlots(), StartKey)
  {
    var t := StandardSlots();
    forall i, j | 0 <= i < j < |t| ensures StartKey(t[i]) <= StartKey(t[j]) {
      assert t[i] == HourSlot(8 + i) && t[j] == HourSlot(8 + j);
    }
  }

  /** A table of active every-day slots is kept whole by the weekday
      filter. */
  lemma {:induction false} ForWeekdayAll(slots: seq<TimeSlot>, weekday: int)
    requires forall i :: 0 <= i < |slots| ==> slots[i].active && slots[i].day.None?
    ensures ForWeekday(slots, weekday) == slots
  {
    if slots != [] {
      ForWeekdayAll(slots[..|slots| - 1], weekday);
      assert slots == slots[..|slots| - 1] + [slots[|slots| - 1]];
    }
  }

  /** The standard table and the built-in default hours have the same
      times and differ only in the morning and evening prices. */
  lemma StandardMatchesDefaults()
    ensures forall i :: 0 <= i < 14 ==> StandardSlots()[i] == DefaultSlotList()[i].(price := HourPrice(8 + i))
    ensures forall i :: 0 <= i < 14 ==> (StandardSlots()[i].price == DefaultSlotList()[i].price <==> 4 <= i < 10)
  {
  }

  /** The time-slot table. */
  class SlotTable {
    var slots: seq<TimeSlot>

    constructor (slots: seq<TimeSlot>)
      ensures this.slots == slots
    {
      this.slots := slots;
    }

    /** `create_timeslots`: delete every slot, then the three loops over
        the morning, day and evening hours. */
    method CreateTimeslots() returns (count: nat)
      modifies this
      ensures slots == StandardSlots()
      ensures count == |slots| == 14
    {
      slots := [];
      var hour := 8;
      while hour < 12
        invariant 8 <= hour <= 12 && slots == StandardSlots()[..hour - 8]
      {
        slots := slots + [TimeSlot(hour * 60, (hour + 1) * 60, 3000.0, None, true)];
        hour := hour + 1;
      }
      hour := 12;
      while hour < 18
        invariant 12 <= hour <= 18 && slots == StandardSlots()[..hour - 8]
      {
        slots := slots + [TimeSlot(hour * 60, (hour + 1) * 60, 4000.0, None, true)];
        hour := hour + 1;
      }
      hour := 18;
      while hour < 22
        invariant 18 <= hour <= 22 && slots == StandardSlots()[..hour - 8]
      {
        slots := slots + [TimeSlot(hour * 60, (hour + 1) * 60, 5000.0, None, true)];
        hour := hour + 1;
      }
      count := |slots|;
    }
  }
}
