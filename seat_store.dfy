/** The back end's seat store: seat schemas and their seats, the hall
    generators of the schema endpoint and of the admin site, bulk deletion
    and creation of a schema's seats, ticket purchase and the querysets
    of the event and ticket endpoints. Seats form a table keyed by id in
    which (schema, sector, row, number) is unique. */
module SeatStore {
  import opened Common
  import opened Text
  import opened Ordering
  import opened SeatLayout

  /** A seat schema row: its event and that event's price bounds. */
  datatype Schema = Schema(event: int, priceMin: real, priceMax: real)

  datatype TicketStatus = Pending | Paid | Cancelled

  datatype Ticket = Ticket(event: int, seat: nat, user: int, status: TicketStatus)

  /** An endpoint's answer. `ServerError` stands for an exception the
      view does not catch (a missing row, a violated unique constraint). */
  datatype Response = Ok(message: string) | Created(count: nat) | BadRequest(error: string) | NotFound | ServerError

  /** The (schema, sector, row, number) a seat occupies. */
  function Slot(s: SeatRecord): (int, Coord) { (s.schema, RecordCoord(s)) }

  predicate UniqueSlots(m: map<nat, SeatRecord>)
  {
    forall a, b :: a in m && b in m && a != b ==> Slot(m[a]) != Slot(m[b])
  }

  /** The seats of one schema. */
  function SchemaSeats(m: map<nat, SeatRecord>, sid: int): set<SeatRecord>
  {
    set id | id in m && m[id].schema == sid :: m[id]
  }

  function SchemaIds(m: map<nat, SeatRecord>, sid: int): set<nat>
  {
    set id | id in m && m[id].schema == sid
  }

  /** The table after `Seat.objects.filter(schema=sid).delete()`. */
  function Without(m: map<nat, SeatRecord>, sid: int): map<nat, SeatRecord>
  {
    map id | id in m && m[id].schema != sid :: m[id]
  }

  /** The table after deleting the seats of every schema in `sids`. */
  function WithoutAll(m: map<nat, SeatRecord>, sids: seq<int>): map<nat, SeatRecord>
  {
    map id | id in m && m[id].schema !in sids :: m[id]
  }

  /** The table after creating `rs` in order, with ids from `base` on. */
  function Inserted(m: map<nat, SeatRecord>, base: nat, rs: seq<SeatRecord>): map<nat, SeatRecord>
  {
    m + map k: nat | base <= k < base + |rs| && InRange(k, base, |rs|) :: rs[k - base]
  }

  predicate InRange(k: int, base: int, n: int) { base <= k < base + n }

  lemma InsertedSnoc(m: map<nat, SeatRecord>, base: nat, rs: seq<SeatRecord>, x: SeatRecord)
    ensures Inserted(m, base, rs)[base + |rs| := x] == Inserted(m, base, rs + [x])
  {
    var a, b := Inserted(m, base, rs)[base + |rs| := x], Inserted(m, base, rs + [x]);
    forall k | k in b ensures k in a && a[k] == b[k] {
      if InRange(k, base, |rs|) {
        assert (rs + [x])[k - base] == rs[k - base];
      }
      if k == base + |rs| {
        assert InRange(k, base, |rs| + 1);
      }
    }
    forall k | k in a ensures k in b {
      if InRange(k, base, |rs|) {
        assert InRange(k, base, |rs| + 1);
      }
      if k == base + |rs| {
        assert InRange(k, base, |rs| + 1);
      }
    }
  }

  /** Deleting a schema's seats empties that schema and keeps every other
      schema's seats. */
  lemma WithoutSpec(m: map<nat, SeatRecord>, sid: int)
    ensures SchemaSeats(Without(m, sid), sid) == {}
    ensures forall t :: t != sid ==> SchemaSeats(Without(m, sid), t) == SchemaSeats(m, t)
    ensures UniqueSlots(m) ==> UniqueSlots(Without(m, sid))
  {
    forall t | t != sid ensures SchemaSeats(Without(m, sid), t) == SchemaSeats(m, t) {
      forall x | x in SchemaSeats(m, t) ensures x in SchemaSeats(Without(m, sid), t) {
        var id :| id in m && m[id].schema == t && m[id] == x;
        assert id in Without(m, sid);
      }
    }
  }

  /** Creating records from a fresh id on adds exactly the records of each
      schema to that schema. */
  lemma InsertedSpec(m: map<nat, SeatRecord>, base: nat, rs: seq<SeatRecord>, sid: int)
    requires forall k :: k in m ==> k < base
    ensures SchemaSeats(Inserted(m, base, rs), sid) == SchemaSeats(m, sid) + (set r | r in rs && r.schema == sid)
  {
    var n := Inserted(m, base, rs);
    forall x | x in SchemaSeats(n, sid) ensures x in SchemaSeats(m, sid) || (x in rs && x.schema == sid) {
      var id :| id in n && n[id].schema == sid && n[id] == x;
      if InRange(id, base, |rs|) {
        assert x == rs[id - base];
      } else {
        assert id in m && x == m[id];
      }
    }
    forall x | x in SchemaSeats(m, sid) ensures x in SchemaSeats(n, sid) {
      var id :| id in m && m[id].schema == sid && m[id] == x;
      assert !InRange(id, base, |rs|);
      assert id in n && n[id] == x;
    }
    forall x | x in rs && x.schema == sid ensures x in SchemaSeats(n, sid) {
      var j :| 0 <= j < |rs| && rs[j] == x;
      assert InRange(base + j, base, |rs|);
      assert base + j in n && n[base + j] == x;
    }
  }

  /** Every seat belongs to a schema of the table (the foreign key). */
  predicate Linked(m: map<nat, SeatRecord>, schemas: map<int, Schema>)
  {
    forall id :: id in m ==> m[id].schema in schemas
  }

  /** Every id of the extended table is below the next free id. */
  lemma InsertedBelow(m: map<nat, SeatRecord>, base: nat, rs: seq<SeatRecord>)
    requires forall k :: k in m ==> k < base
    ensures forall k :: k in Inserted(m, base, rs) ==> k < base + |rs|
  {
  }

  lemma InsertedLinked(m: map<nat, SeatRecord>, base: nat, rs: seq<SeatRecord>, schemas: map<int, Schema>)
    requires Linked(m, schemas)
    requires forall i :: 0 <= i < |rs| ==> rs[i].schema in schemas
    ensures Linked(Inserted(m, base, rs), schemas)
  {
    var n := Inserted(m, base, rs);
    forall id | id in n ensures n[id].schema in schemas {
      if InRange(id, base, |rs|) { assert n[id] == rs[id - base]; }
    }
  }

  /** The records can be created without breaking the unique constraint:
      their slots are pairwise distinct and not yet taken. */
  predicate Insertable(m: map<nat, SeatRecord>, rs: seq<SeatRecord>)
  {
    (forall i, j :: 0 <= i < j < |rs| ==> Slot(rs[i]) != Slot(rs[j]))
    && forall i, id :: 0 <= i < |rs| && id in m ==> Slot(m[id]) != Slot(rs[i])
  }

  lemma InsertedUnique(m: map<nat, SeatRecord>, base: nat, rs: seq<SeatRecord>)
    requires UniqueSlots(m) && Insertable(m, rs)
    requires forall k :: k in m ==> k < base
    ensures UniqueSlots(Inserted(m, base, rs))
  {
    var n := Inserted(m, base, rs);
    forall a, b | a in n && b in n && a != b ensures Slot(n[a]) != Slot(n[b]) {
      var ina, inb := InRange(a, base, |rs|), InRange(b, base, |rs|);
      if ina {
        var i := a - base;
        assert base + i == a && n[a] == rs[i];
      }
      if inb {
        var j := b - base;
        assert base + j == b && n[b] == rs[j];
      }
      if ina && inb {
        if a < b { assert Slot(rs[a - base]) != Slot(rs[b - base]); }
        else { assert Slot(rs[b - base]) != Slot(rs[a - base]); }
      } else if ina {
        assert Slot(n[b]) != Slot(rs[a - base]);
      } else if inb {
        assert Slot(n[a]) != Slot(rs[b - base]);
      }
    }
  }

  // ------------------------------------------------------------ generators

  /** A hall of the generators: sector names, rows, seats per row, and
      the last row of the dearest and of the middle price tier. */
  datatype Hall = Hall(sectors: seq<string>, rows: nat, seatsPerRow: nat, dearRows: nat, midRows: nat)

  /** 2 × 5 × 10: rows 1–2 at the maximum price, the rest at the minimum. */
  const Small: Hall := Hall(["A", "B"], 5, 10, 2, 2)
  /** 3 × 10 × 15: rows 1–3 maximum, 4–7 the mean, 8–10 minimum. */
  const Medium: Hall := Hall(["A", "B", "C"], 10, 15, 3, 7)
  /** 4 × 15 × 20: rows 1–5 maximum, 6–10 the mean, 11–15 minimum. */
  const Large: Hall := Hall(["A", "B", "C", "D"], 15, 20, 5, 10)

  function TierPrice(h: Hall, row: int, priceMin: real, priceMax: real): real
  {
    if row <= h.dearRows then priceMax
    else if row <= h.midRows then (priceMin + priceMax) / 2.0
    else priceMin
  }

  function HallSeat(sid: int, h: Hall, priceMin: real, priceMax: real, c: Coord): SeatRecord
  {
    SeatRecord(sid, c.sector, c.row, c.number, TierPrice(h, c.row, priceMin, priceMax), Available)
  }

  /** The seats a generator creates, in the order of its nested loops. */
  function HallSeats(sid: int, h: Hall, priceMin: real, priceMax: real): seq<SeatRecord>
  {
    var g := GridCoords(h.sectors, h.rows, h.seatsPerRow);
    seq(|g|, i requires 0 <= i < |g| => HallSeat(sid, h, priceMin, priceMax, g[i]))
  }

  predicate InHall(h: Hall, c: Coord)
  {
    c.sector in h.sectors && 1 <= c.row <= h.rows && 1 <= c.number <= h.seatsPerRow
  }

  /** A generated hall has one available seat of the schema per position
      of the hall, priced by its row's tier, and no position twice. */
  lemma HallSeatsSpec(sid: int, h: Hall, priceMin: real, priceMax: real)
    requires NoDuplicates(h.sectors)
    ensures |HallSeats(sid, h, priceMin, priceMax)| == |h.sectors| * (h.rows * h.seatsPerRow)
    ensures forall s :: s in HallSeats(sid, h, priceMin, priceMax) ==>
              InHall(h, RecordCoord(s)) && s == HallSeat(sid, h, priceMin, priceMax, RecordCoord(s))
    ensures forall c :: InHall(h, c) ==> HallSeat(sid, h, priceMin, priceMax, c) in HallSeats(sid, h, priceMin, priceMax)
    ensures Insertable(map[], HallSeats(sid, h, priceMin, priceMax))
  {
    var g := GridCoords(h.sectors, h.rows, h.seatsPerRow);
    var r := HallSeats(sid, h, priceMin, priceMax);
    GridLength(h.sectors, h.rows, h.seatsPerRow);
    GridDistinct(h.sectors, h.rows, h.seatsPerRow);
    forall s | s in r ensures InHall(h, RecordCoord(s)) && s == HallSeat(sid, h, priceMin, priceMax, RecordCoord(s)) {
      var i :| 0 <= i < |r| && r[i] == s;
      assert RecordCoord(s) == g[i];
      GridMember(h.sectors, h.rows, h.seatsPerRow, g[i]);
    }
    forall c | InHall(h, c) ensures HallSeat(sid, h, priceMin, priceMax, c) in r {
      GridMember(h.sectors, h.rows, h.seatsPerRow, c);
      var i :| 0 <= i < |g| && g[i] == c;
      assert r[i] == HallSeat(sid, h, priceMin, priceMax, c);
    }
    forall i, j | 0 <= i < j < |r| ensures Slot(r[i]) != Slot(r[j]) {
      assert RecordCoord(r[i]) == g[i] && RecordCoord(r[j]) == g[j];
    }
  }

  lemma HallLength(sid: int, h: Hall, priceMin: real, priceMax: real)
    ensures |HallSeats(sid, h, priceMin, priceMax)| == |h.sectors| * (h.rows * h.seatsPerRow)
  {
    GridLength(h.sectors, h.rows, h.seatsPerRow);
  }

  /** The small hall holds 100 seats. */
  lemma SmallHallSize(sid: int, priceMin: real, priceMax: real)
    ensures |HallSeats(sid, Small, priceMin, priceMax)| == 100
  {
    HallLength(sid, Small, priceMin, priceMax);
  }

  /** Small hall: rows 1–2 cost the maximum, rows 3–5 the minimum. */
  lemma SmallHallTiers(row: int, priceMin: real, priceMax: real)
    ensures row <= 2 ==> TierPrice(Small, row, priceMin, priceMax) == priceMax
    ensures row > 2 ==> TierPrice(Small, row, priceMin, priceMax) == priceMin
  {
  }

  /** The medium hall holds 450 seats. */
  lemma MediumHallSize(sid: int, priceMin: real, priceMax: real)
    ensures |HallSeats(sid, Medium, priceMin, priceMax)| == 450
  {
    HallLength(sid, Medium, priceMin, priceMax);
  }

  /** Medium hall: rows 1–3 cost the maximum, 4–7 the mean of the bounds,
      8–10 the minimum. */
  lemma MediumHallTiers(row: int, priceMin: real, priceMax: real)
    ensures row <= 3 ==> TierPrice(Medium, row, priceMin, priceMax) == priceMax
    ensures 3 < row <= 7 ==> TierPrice(Medium, row, priceMin, priceMax) == (priceMin + priceMax) / 2.0
    ensures row > 7 ==> TierPrice(Medium, row, priceMin, priceMax) == priceMin
  {
  }

  /** The large hall holds 1200 seats. */
  lemma LargeHallSize(sid: int, priceMin: real, priceMax: real)
    ensures |HallSeats(sid, Large, priceMin, priceMax)| == 1200
  {
    HallLength(sid, Large, priceMin, priceMax);
  }

  /** Large hall: rows 1–5 cost the maximum, 6–10 the mean, 11–15 the
      minimum. */
  lemma LargeHallTiers(row: int, priceMin: real, priceMax: real)
    ensures row <= 5 ==> TierPrice(Large, row, priceMin, priceMax) == priceMax
    ensures 5 < row <= 10 ==> TierPrice(Large, row, priceMin, priceMax) == (priceMin + priceMax) / 2.0
    ensures row > 10 ==> TierPrice(Large, row, priceMin, priceMax) == priceMin
  {
  }

  /** Every generated seat is priced by its row's tier. */
  lemma HallPrice(sid: int, h: Hall, priceMin: real, priceMax: real, s: SeatRecord)
    requires s in HallSeats(sid, h, priceMin, priceMax)
    ensures s.price == TierPrice(h, s.row, priceMin, priceMax)
  {
  }

  /** The generators' reply text. */
  function HallMessage(h: Hall): string
  {
    if h == Small then "Малый зал создан (100 мест)"
    else if h == Medium then "Средний зал создан (450 мест)"
    else "Большой зал создан (1200 мест)"
  }

  /** The set of seats a generator leaves in schema `sid`. */
  function HallSet(sid: int, h: Hall, sc: Schema): set<SeatRecord>
  {
    set r | r in HallSeats(sid, h, sc.priceMin, sc.priceMax)
  }

  /** A schema of some event; the generators price from that event. */
  lemma HallSetSchema(sid: int, h: Hall, sc: Schema)
    ensures forall r :: r in HallSeats(sid, h, sc.priceMin, sc.priceMax) ==> r.schema == sid
    ensures (set r | r in HallSeats(sid, h, sc.priceMin, sc.priceMax) && r.schema == sid) == HallSet(sid, h, sc)
  {
  }

  // -------------------------------------------------- admin text helpers

  /** The admin's sector column: the schema's distinct sectors, sorted by
      code point as Python's `sorted()` does, joined by ", ". */
  function SectorsInfo(seats: seq<SeatRecord>): string
  {
    Join(SortedDistinct(CodePoints, SectorsOf(seats)), ", ")
  }

  predicate HasSector(seats: seq<SeatRecord>, x: string)
  {
    exists i :: 0 <= i < |seats| && seats[i].sector == x
  }

  lemma SectorsOfMember(seats: seq<SeatRecord>)
    ensures forall x :: x in SectorsOf(seats) <==> HasSector(seats, x)
  {
    forall x ensures x in SectorsOf(seats) <==> HasSector(seats, x) {
      if x in SectorsOf(seats) {
        var i :| 0 <= i < |seats| && SectorsOf(seats)[i] == x;
        assert seats[i].sector == x;
      }
      if HasSector(seats, x) {
        var i :| 0 <= i < |seats| && seats[i].sector == x;
        assert SectorsOf(seats)[i] == x;
      }
    }
  }

  /** The sector column lists each sector once, ascending, and depends
      only on which sectors occur, not on the order the rows come in. */
  lemma SectorsInfoSpec(a: seq<SeatRecord>, b: seq<SeatRecord>)
    ensures StrictlyAscending(CodePoints, SortedDistinct(CodePoints, SectorsOf(a)))
    ensures forall x :: x in SortedDistinct(CodePoints, SectorsOf(a)) <==> HasSector(a, x)
    ensures (forall x :: HasSector(a, x) <==> HasSector(b, x)) ==> SectorsInfo(a) == SectorsInfo(b)
  {
    SortedDistinctSpec(CodePoints, SectorsOf(a));
    SectorsOfMember(a);
    SectorsOfMember(b);
    if forall x :: HasSector(a, x) <==> HasSector(b, x) {
      SortedDistinctSameElements(CodePoints, SectorsOf(a), SectorsOf(b));
    }
  }

  /** The admin's ticket seat column `f"{sector}-{row}-{number}"`. */
  function SeatInfo(seat: SeatRecord): string
  {
    seat.sector + "-" + IntToString(seat.row) + "-" + IntToString(seat.number)
  }

  /** The column is the seat editor's cell key, so for non-negative rows
      and numbers it names the seat's position unambiguously. */
  lemma SeatInfoIsCellKey(a: SeatRecord, b: SeatRecord)
    ensures SeatInfo(a) == SeatKey(a.sector, a.row, a.number)
    ensures a.row >= 0 && a.number >= 0 && b.row >= 0 && b.number >= 0 && SeatInfo(a) == SeatInfo(b) ==> RecordCoord(a) == RecordCoord(b)
  {
    if a.row >= 0 && a.number >= 0 && b.row >= 0 && b.number >= 0 && SeatInfo(a) == SeatInfo(b) {
      KeyInjective(a.sector, a.row, a.number, b.sector, b.row, b.number);
    }
  }

  /** The schema form's initial data: `event` taken from the query string
      when it is there, everything else as the default form gives it. */
  function InitialData(initial: map<string, string>, query: map<string, string>): (r: map<string, string>)
    ensures "event" in query ==> "event" in r && r["event"] == query["event"]
    ensures "event" !in query ==> r == initial
    ensures forall k :: k != "event" ==> (k in r <==> k in initial)
    ensures forall k :: k != "event" && k in initial ==> r[k] == initial[k]
  {
    if "event" in query then initial["event" := query["event"]] else initial
  }

  // ------------------------------------------------------------ querysets

  datatype EventRow = EventRow(id: int, isActive: bool)

  /** The event list: everything for staff, active events for others. */
  function VisibleEvents(events: seq<EventRow>, staff: bool): (r: seq<EventRow>)
    ensures staff ==> r == events
    ensures !staff ==> forall e :: e in r <==> e in events && e.isActive
    ensures |r| <= |events|
  {
    if staff || events == [] then events
    else
      var e := events[|events| - 1];
      VisibleEvents(events[..|events| - 1], staff) + (if e.isActive then [e] else [])
  }

  /** The ticket list: everything for staff, a user's own tickets otherwise. */
  function VisibleTickets(tickets: seq<Ticket>, user: int, staff: bool): (r: seq<Ticket>)
    ensures staff ==> r == tickets
    ensures !staff ==> forall t :: t in r <==> t in tickets && t.user == user
    ensures |r| <= |tickets|
  {
    if staff || tickets == [] then tickets
    else
      var t := tickets[|tickets| - 1];
      VisibleTickets(tickets[..|tickets| - 1], user, staff) + (if t.user == user then [t] else [])
  }

  /** The records of a bulk creation, all moved to schema `sid`. */
  function Reattach(data: seq<SeatRecord>, sid: int): (r: seq<SeatRecord>)
    ensures |r| == |data|
    ensures forall i :: 0 <= i < |data| ==> r[i] == data[i].(schema := sid)
  {
    seq(|data|, i requires 0 <= i < |data| => data[i].(schema := sid))
  }

  predicate HasTicket(tickets: seq<Ticket>, event: int, seat: nat)
  {
    exists k :: 0 <= k < |tickets| && tickets[k].event == event && tickets[k].seat == seat
  }

  /** The (event, seat) pair a ticket occupies. */
  function TicketKey(t: Ticket): (int, nat) { (t.event, t.seat) }

  predicate UniqueTickets(tickets: seq<Ticket>)
  {
    forall i, j :: 0 <= i < j < |tickets| ==> TicketKey(tickets[i]) != TicketKey(tickets[j])
  }

  /** The tickets left once the seats not in `m` are deleted: a ticket's
      seat is a foreign key with cascading deletion. */
  function Cascade(tickets: seq<Ticket>, m: map<nat, SeatRecord>): seq<Ticket>
  {
    if tickets == [] then []
    else
      var t := tickets[|tickets| - 1];
      Cascade(tickets[..|tickets| - 1], m) + (if t.seat in m then [t] else [])
  }

  /** The cascade is the queryset filter on the ticket's seat. */
  lemma {:induction false} CascadeIsFilter(tickets: seq<Ticket>, m: map<nat, SeatRecord>)
    ensures Cascade(tickets, m) == Filter(tickets, (t: Ticket) => t.seat in m)
    decreases |tickets|
  {
    if tickets != [] {
      CascadeIsFilter(tickets[..|tickets| - 1], m);
    }
  }

  /** The cascade keeps exactly the tickets of surviving seats, keeps the
      ticket constraint, and changes nothing when every seat survives. */
  lemma CascadeSpec(tickets: seq<Ticket>, m: map<nat, SeatRecord>)
    requires UniqueTickets(tickets)
    ensures UniqueTickets(Cascade(tickets, m))
    ensures forall t :: t in Cascade(tickets, m) <==> t in tickets && t.seat in m
    ensures (forall k :: 0 <= k < |tickets| ==> tickets[k].seat in m) ==> Cascade(tickets, m) == tickets
  {
    CascadeIsFilter(tickets, m);
    FilterDistinctKeys(tickets, (t: Ticket) => t.seat in m, TicketKey);
    if forall k :: 0 <= k < |tickets| ==> tickets[k].seat in m {
      FilterAll(tickets, (t: Ticket) => t.seat in m);
    }
  }

  /** Every ticket's seat and event exist (the foreign keys). */
  predicate TicketsLinked(tickets: seq<Ticket>, seats: map<nat, SeatRecord>, events: set<int>)
  {
    forall k :: 0 <= k < |tickets| ==> tickets[k].seat in seats && tickets[k].event in events
  }

  /** After the cascade the tickets again satisfy both constraints. */
  lemma CascadeValid(tickets: seq<Ticket>, m: map<nat, SeatRecord>, events: set<int>)
    requires UniqueTickets(tickets) && forall k :: 0 <= k < |tickets| ==> tickets[k].event in events
    ensures UniqueTickets(Cascade(tickets, m)) && TicketsLinked(Cascade(tickets, m), m, events)
  {
    CascadeIsFilter(tickets, m);
    var r := Cascade(tickets, m);
    FilterDistinctKeys(tickets, (t: Ticket) => t.seat in m, TicketKey);
    forall k | 0 <= k < |r| ensures r[k].seat in m && r[k].event in events {
      assert r[k] in r;
      var p :| 0 <= p < |tickets| && tickets[p] == r[k];
    }
  }

  /** Deleting one schema's seats cascades the tickets already cascaded
      from `all` as if they had been cascaded once. */
  lemma CascadeWithout(all: seq<Ticket>, tickets: seq<Ticket>, m: map<nat, SeatRecord>, sid: int, events: set<int>)
    requires tickets == Cascade(all, m) && UniqueTickets(tickets) && TicketsLinked(tickets, m, events)
    ensures Cascade(tickets, Without(m, sid)) == Cascade(all, Without(m, sid))
    ensures UniqueTickets(Cascade(tickets, Without(m, sid)))
    ensures TicketsLinked(Cascade(tickets, Without(m, sid)), Without(m, sid), events)
  {
    CascadeValid(tickets, Without(m, sid), events);
    CascadeTwice(all, m, Without(m, sid));
  }

  /** Regenerating a schema cascades the tickets of its old seats only:
      the new seats get fresh ids, so no old ticket refers to them. */
  lemma CascadeRegenerated(tickets: seq<Ticket>, m: map<nat, SeatRecord>, base: nat, sid: int, rs: seq<SeatRecord>, events: set<int>)
    requires UniqueTickets(tickets) && TicketsLinked(tickets, m, events)
    requires forall id :: id in m ==> id < base
    ensures Cascade(tickets, Inserted(Without(m, sid), base, rs)) == Cascade(tickets, Without(m, sid))
    ensures UniqueTickets(Cascade(tickets, Without(m, sid)))
    ensures TicketsLinked(Cascade(tickets, Without(m, sid)), Inserted(Without(m, sid), base, rs), events)
    ensures forall id :: id in Inserted(Without(m, sid), base, rs) && id < base ==> id in m
  {
    var w := Without(m, sid);
    var n := Inserted(w, base, rs);
    CascadeValid(tickets, w, events);
    forall k | 0 <= k < |tickets| ensures (tickets[k].seat in w <==> tickets[k].seat in n) {
      assert tickets[k].seat < base;
    }
    CascadeSame(tickets, w, n);
  }

  /** With every seat present the cascade removes nothing. */
  lemma CascadeKeepsAll(tickets: seq<Ticket>, m: map<nat, SeatRecord>, events: set<int>)
    requires TicketsLinked(tickets, m, events)
    ensures Cascade(tickets, m) == tickets
  {
    CascadeIsFilter(tickets, m);
    FilterAll(tickets, (t: Ticket) => t.seat in m);
  }

  /** A table that gained only seats with ids from `base` on, and lost
      some, cascades tickets on older seats as if they had been cascaded
      on the way. */
  lemma CascadeAfterNewSeats(tickets: seq<Ticket>, m1: map<nat, SeatRecord>, m2: map<nat, SeatRecord>, base: nat)
    requires forall k :: 0 <= k < |tickets| ==> tickets[k].seat < base
    requires forall id :: id in m2 && id < base ==> id in m1
    ensures Cascade(Cascade(tickets, m1), m2) == Cascade(tickets, m2)
  {
    CascadeTwice(tickets, m1, m2);
  }

  /** Cascading twice, the second time over fewer seats, is cascading once. */
  lemma CascadeTwice(tickets: seq<Ticket>, m1: map<nat, SeatRecord>, m2: map<nat, SeatRecord>)
    requires forall k :: 0 <= k < |tickets| && tickets[k].seat in m2 ==> tickets[k].seat in m1
    ensures Cascade(Cascade(tickets, m1), m2) == Cascade(tickets, m2)
  {
    CascadeIsFilter(tickets, m1);
    CascadeIsFilter(tickets, m2);
    CascadeIsFilter(Cascade(tickets, m1), m2);
    FilterFilter(tickets, (t: Ticket) => t.seat in m1, (t: Ticket) => t.seat in m2);
  }

  /** Tables holding the same seats of the tickets cascade alike. */
  lemma CascadeSame(tickets: seq<Ticket>, m1: map<nat, SeatRecord>, m2: map<nat, SeatRecord>)
    requires forall k :: 0 <= k < |tickets| ==> (tickets[k].seat in m1 <==> tickets[k].seat in m2)
    ensures Cascade(tickets, m1) == Cascade(tickets, m2)
  {
    CascadeIsFilter(tickets, m1);
    CascadeIsFilter(tickets, m2);
    FilterCongruent(tickets, (t: Ticket) => t.seat in m1, (t: Ticket) => t.seat in m2);
  }

  class Store {
    var schemas: map<int, Schema>
    var seats: map<nat, SeatRecord>
    var nextSeatId: nat
    var tickets: seq<Ticket>
    /** The ids of the event table. */
    var events: set<int>

    /** Ids below the next fresh one, the seats' foreign key and unique
        constraint, the tickets' foreign keys to a seat and an event, and
        their unique (event, seat) constraint. */
    predicate Valid()
      reads this
    {
      (forall id :: id in seats ==> id < nextSeatId) && Linked(seats, schemas)
      && UniqueSlots(seats) && UniqueTickets(tickets)
      && TicketsLinked(tickets, seats, events)
    }

    constructor (schemas: map<int, Schema>, events: set<int>)
      ensures Valid()
      ensures this.schemas == schemas && this.events == events && seats == map[] && tickets == []
    {
      this.schemas := schemas;
      this.events := events;
      seats := map[];
      nextSeatId := 0;
      tickets := [];
    }

    /** `Seat.objects.create` for one record: it gets the next id. */
    method Create(r: SeatRecord)
      modifies this
      ensures seats == old(seats)[old(nextSeatId) := r] && nextSeatId == old(nextSeatId) + 1
      ensures schemas == old(schemas) && tickets == old(tickets) && events == old(events)
    {
      seats := seats[nextSeatId := r];
      nextSeatId := nextSeatId + 1;
    }

    /** The creation loop: `Seat.objects.create` once per record, in order. */
    method CreateAll(rs: seq<SeatRecord>)
      modifies this
      ensures seats == Inserted(old(seats), old(nextSeatId), rs)
      ensures nextSeatId == old(nextSeatId) + |rs|
      ensures schemas == old(schemas) && tickets == old(tickets) && events == old(events)
    {
      var base := nextSeatId;
      assert Inserted(seats, base, rs[..0]) == seats;
      var i := 0;
      while i < |rs|
        invariant 0 <= i <= |rs|
        invariant nextSeatId == base + i
        invariant seats == Inserted(old(seats), base, rs[..i])
        invariant schemas == old(schemas) && tickets == old(tickets) && events == old(events)
      {
        InsertedSnoc(old(seats), base, rs[..i], rs[i]);
        assert rs[..i] + [rs[i]] == rs[..i + 1];
        Create(rs[i]);
        i := i + 1;
      }
      assert rs[..i] == rs;
    }

    /** `Seat.objects.filter(schema=sid).delete()`: the schema's seats
        go, and with them, by the cascade, their tickets. */
    method DeleteSchema(sid: int)
      requires Valid()
      modifies this
      ensures Valid()
      ensures seats == Without(old(seats), sid) && tickets == Cascade(old(tickets), seats)
      ensures schemas == old(schemas) && events == old(events) && nextSeatId == old(nextSeatId)
    {
      WithoutSpec(seats, sid);
      CascadeValid(tickets, Without(seats, sid), events);
      seats := Without(seats, sid);
      tickets := Cascade(tickets, seats);
    }

    /** `generate_small_hall`, `generate_medium_hall` and
        `generate_large_hall` of the schema endpoint, for `Small`, `Medium`
        and `Large`: delete the schema's seats, then create the hall. */
    method GenerateHall(sid: int, h: Hall) returns (resp: Response)
      requires Valid() && NoDuplicates(h.sectors)
      modifies this
      ensures Valid()
      ensures sid !in schemas ==> resp == NotFound && seats == old(seats)
      ensures sid in schemas ==> resp.Ok?
      ensures sid in schemas ==> seats == Inserted(Without(old(seats), sid), old(nextSeatId), HallSeats(sid, h, schemas[sid].priceMin, schemas[sid].priceMax))
      ensures sid in schemas ==> SchemaSeats(seats, sid) == HallSet(sid, h, schemas[sid])
      ensures forall t :: t != sid ==> SchemaSeats(seats, t) == SchemaSeats(old(seats), t)
      ensures tickets == Cascade(old(tickets), seats) && (sid !in schemas ==> tickets == old(tickets))
      ensures schemas == old(schemas) && events == old(events) && nextSeatId >= old(nextSeatId)
      ensures forall id :: id in seats && id < old(nextSeatId) ==> id in old(seats)
    {
      if sid !in schemas {
        CascadeKeepsAll(tickets, seats, events);
        return NotFound;
      }
      var sc := schemas[sid];
      var rs := HallSeats(sid, h, sc.priceMin, sc.priceMax);
      GenerateSpec(seats, nextSeatId, sid, h, sc, schemas);
      InsertedBelow(Without(seats, sid), nextSeatId, rs);
      CascadeRegenerated(tickets, seats, nextSeatId, sid, rs, events);
      DeleteSchema(sid);
      CreateAll(rs);
      resp := Ok(HallMessage(h));
    }

    /** The admin actions of the same names: the generator run for every
        selected schema. */
    method AdminGenerate(qs: seq<int>, h: Hall)
      requires Valid() && NoDuplicates(h.sectors)
      requires forall k :: 0 <= k < |qs| ==> qs[k] in schemas
      modifies this
      ensures Valid()
      ensures schemas == old(schemas) && events == old(events)
      ensures tickets == Cascade(old(tickets), seats)
      ensures forall k :: 0 <= k < |qs| ==> SchemaSeats(seats, qs[k]) == HallSet(qs[k], h, schemas[qs[k]])
      ensures forall t :: t !in qs ==> SchemaSeats(seats, t) == SchemaSeats(old(seats), t)
    {
      CascadeKeepsAll(tickets, seats, events);
      var i := 0;
      while i < |qs|
        invariant 0 <= i <= |qs| && Valid()
        invariant schemas == old(schemas) && events == old(events)
        invariant nextSeatId >= old(nextSeatId)
        invariant forall k :: 0 <= k < |old(tickets)| ==> old(tickets)[k].seat < old(nextSeatId)
        invariant tickets == Cascade(old(tickets), seats)
        invariant forall k :: 0 <= k < i ==> SchemaSeats(seats, qs[k]) == HallSet(qs[k], h, schemas[qs[k]])
        invariant forall t :: t !in qs[..i] ==> SchemaSeats(seats, t) == SchemaSeats(old(seats), t)
      {
        ghost var before, base := seats, nextSeatId;
        var _ := GenerateHall(qs[i], h);
        ghost var after := seats;
        CascadeAfterNewSeats(old(tickets), before, after, old(nextSeatId));
        GeneratedSchemas(old(seats), before, after, qs, i, h, schemas);
        i := i + 1;
      }
      assert qs[..i] == qs;
    }

    /** The admin's `clear_all_seats`: every selected schema emptied, and
        the total number of seats removed. */
    method ClearAll(qs: seq<int>) returns (total: nat)
      requires Valid() && NoDuplicates(qs)
      modifies this
      ensures Valid()
      ensures seats == WithoutAll(old(seats), qs)
      ensures total == SumNats(Counts(old(seats), qs))
      ensures |seats| + total == |old(seats)|
      ensures tickets == Cascade(old(tickets), seats)
      ensures schemas == old(schemas) && events == old(events)
    {
      CascadeKeepsAll(tickets, seats, events);
      total := 0;
      var i := 0;
      assert WithoutAll(seats, qs[..0]) == seats;
      while i < |qs|
        invariant 0 <= i <= |qs|
        invariant seats == WithoutAll(old(seats), qs[..i])
        invariant total == SumNats(Counts(old(seats), qs[..i]))
        invariant Valid()
        invariant schemas == old(schemas) && events == old(events) && nextSeatId == old(nextSeatId)
        invariant tickets == Cascade(old(tickets), seats)
      {
        ClearTicketsStep(old(seats), old(tickets), seats, tickets, total, qs, i, events);
        var count := |SchemaIds(seats, qs[i])|;
        DeleteSchema(qs[i]);
        total := total + count;
        i := i + 1;
      }
      assert qs[..i] == qs;
      ClearCount(old(seats), qs);
    }

    /** `bulk_delete`: a missing (or zero) schema id is refused; otherwise
        the schema's seats are deleted, whether or not it has any. */
    method BulkDelete(schemaId: Option<int>) returns (resp: Response)
      requires Valid()
      modifies this
      ensures Valid()
      ensures schemaId.None? || schemaId.value == 0 ==> resp.BadRequest? && seats == old(seats)
      ensures schemaId.Some? && schemaId.value != 0 ==> resp.Ok? && seats == Without(old(seats), schemaId.value)
      ensures tickets == Cascade(old(tickets), seats)
      ensures schemas == old(schemas) && events == old(events)
    {
      if schemaId.None? || schemaId.value == 0 {
        CascadeKeepsAll(tickets, seats, events);
        return BadRequest("schema_id required");
      }
      DeleteSchema(schemaId.value);
      resp := Ok("deleted");
    }

    /** `bulk_create`: an empty list (or a zero schema on its first
        record) is refused; every record goes to the first record's
        schema; a missing schema or a taken slot raises, creating nothing. */
    method BulkCreate(data: seq<SeatRecord>) returns (resp: Response)
      requires Valid()
      modifies this
      ensures Valid()
      ensures data == [] || data[0].schema == 0 ==> resp.BadRequest? && seats == old(seats)
      ensures resp.Created? ==> data != [] && resp.count == |data|
      ensures resp.Created? ==> seats == Inserted(old(seats), old(nextSeatId), Reattach(data, data[0].schema))
      ensures data != [] && data[0].schema != 0 ==>
        (resp.Created? <==> data[0].schema in schemas && Insertable(old(seats), Reattach(data, data[0].schema)))
      ensures !resp.Created? ==> seats == old(seats)
      ensures schemas == old(schemas) && tickets == old(tickets) && events == old(events)
    {
      if data == [] || data[0].schema == 0 {
        return BadRequest("No seats data");
      }
      var sid := data[0].schema;
      if sid !in schemas {
        return ServerError;
      }
      var rs := Reattach(data, sid);
      if !Insertable(seats, rs) {
        return ServerError;
      }
      var m := seats;
      CreateAll(rs);
      InsertedUnique(m, old(nextSeatId), rs);
      resp := Created(|rs|);
    }

    /** Ticket purchase: a missing seat raises; a seat that is not
        available is refused; a missing or unknown event id, or a second
        ticket for the same event and seat, fails the ticket's foreign key
        or its unique constraint and the transaction, the sale of the seat
        included, is rolled back; otherwise the seat is sold and one paid
        ticket is recorded. */
    method CreateTicket(seatId: nat, eventId: Option<int>, user: int) returns (resp: Response)
      requires Valid()
      modifies this
      ensures Valid()
      ensures resp.Created? <==> (seatId in old(seats) && old(seats)[seatId].status == Available
        && eventId.Some? && eventId.value in events && !HasTicket(old(tickets), eventId.value, seatId))
      ensures resp.BadRequest? <==> seatId in old(seats) && old(seats)[seatId].status != Available
      ensures !resp.Created? && !resp.BadRequest? ==> resp == ServerError
      ensures resp.Created? ==> seats == old(seats)[seatId := old(seats)[seatId].(status := Sold)]
      ensures resp.Created? ==> tickets == old(tickets) + [Ticket(eventId.value, seatId, user, Paid)]
      ensures !resp.Created? ==> seats == old(seats) && tickets == old(tickets)
      ensures schemas == old(schemas) && events == old(events) && nextSeatId == old(nextSeatId)
    {
      if seatId !in seats {
        return ServerError;
      }
      if seats[seatId].status != Available {
        return BadRequest("Место недоступно");
      }
      if eventId.None? || eventId.value !in events || HasTicket(tickets, eventId.value, seatId) {
        return ServerError;
      }
      var s := seats[seatId];
      seats := seats[seatId := s.(status := Sold)];
      assert forall id :: id in seats ==> Slot(seats[id]) == Slot(old(seats)[id]);
      tickets := tickets + [Ticket(eventId.value, seatId, user, Paid)];
      resp := Created(1);
    }
  }

  /** The table a generator leaves: the schema's old seats replaced by
      the hall, every other schema untouched, the unique constraint kept. */
  lemma GenerateSpec(m0: map<nat, SeatRecord>, base: nat, sid: int, h: Hall, sc: Schema, schemas: map<int, Schema>)
    requires UniqueSlots(m0) && NoDuplicates(h.sectors)
    requires forall k :: k in m0 ==> k < base
    requires Linked(m0, schemas) && sid in schemas
    ensures Linked(Inserted(Without(m0, sid), base, HallSeats(sid, h, sc.priceMin, sc.priceMax)), schemas)
    ensures UniqueSlots(Inserted(Without(m0, sid), base, HallSeats(sid, h, sc.priceMin, sc.priceMax)))
    ensures SchemaSeats(Inserted(Without(m0, sid), base, HallSeats(sid, h, sc.priceMin, sc.priceMax)), sid) == HallSet(sid, h, sc)
    ensures forall t :: t != sid ==> SchemaSeats(Inserted(Without(m0, sid), base, HallSeats(sid, h, sc.priceMin, sc.priceMax)), t) == SchemaSeats(m0, t)
  {
    var rs := HallSeats(sid, h, sc.priceMin, sc.priceMax);
    WithoutSpec(m0, sid);
    HallSeatsSpec(sid, h, sc.priceMin, sc.priceMax);
    HallSetSchema(sid, h, sc);
    var m := Without(m0, sid);
    assert Insertable(m, rs) by {
      forall i, id | 0 <= i < |rs| && id in m ensures Slot(m[id]) != Slot(rs[i]) {
        assert rs[i] in rs;
      }
    }
    InsertedUnique(m, base, rs);
    forall i | 0 <= i < |rs| ensures rs[i].schema in schemas { assert rs[i] in rs; }
    InsertedLinked(m, base, rs, schemas);
    InsertedSpec(m, base, rs, sid);
    forall t | t != sid ensures SchemaSeats(Inserted(m, base, rs), t) == SchemaSeats(m0, t) {
      InsertedSpec(m, base, rs, t);
      assert (set r | r in rs && r.schema == t) == {};
    }
  }

  /** Each schema's seat count in the table `m`. */
  function Counts(m: map<nat, SeatRecord>, qs: seq<int>): (r: seq<nat>)
    ensures |r| == |qs|
    ensures forall k :: 0 <= k < |qs| ==> r[k] == |SchemaIds(m, qs[k])|
  {
    seq(|qs|, k requires 0 <= k < |qs| => |SchemaIds(m, qs[k])|)
  }

  /** One more schema regenerated: the schemas done so far hold their
      halls, and every schema not yet touched keeps its seats. */
  lemma GeneratedSchemas(m0: map<nat, SeatRecord>, before: map<nat, SeatRecord>, after: map<nat, SeatRecord>,
                         qs: seq<int>, i: int, h: Hall, schemas: map<int, Schema>)
    requires 0 <= i < |qs| && forall k :: 0 <= k < |qs| ==> qs[k] in schemas
    requires forall k :: 0 <= k < i ==> SchemaSeats(before, qs[k]) == HallSet(qs[k], h, schemas[qs[k]])
    requires forall t :: t !in qs[..i] ==> SchemaSeats(before, t) == SchemaSeats(m0, t)
    requires SchemaSeats(after, qs[i]) == HallSet(qs[i], h, schemas[qs[i]])
    requires forall t :: t != qs[i] ==> SchemaSeats(after, t) == SchemaSeats(before, t)
    ensures forall k :: 0 <= k < i + 1 ==> SchemaSeats(after, qs[k]) == HallSet(qs[k], h, schemas[qs[k]])
    ensures forall t :: t !in qs[..i + 1] ==> SchemaSeats(after, t) == SchemaSeats(m0, t)
  {
    assert qs[..i + 1] == qs[..i] + [qs[i]];
  }

  /** One step of the clearing loop: the next schema still has all its
      original seats, and deleting them extends the cleared prefix. */
  lemma ClearStep(m: map<nat, SeatRecord>, qs: seq<int>, i: int)
    requires NoDuplicates(qs) && 0 <= i < |qs|
    ensures SchemaIds(WithoutAll(m, qs[..i]), qs[i]) == SchemaIds(m, qs[i])
    ensures Without(WithoutAll(m, qs[..i]), qs[i]) == WithoutAll(m, qs[..i + 1])
    ensures Counts(m, qs[..i + 1]) == Counts(m, qs[..i]) + [|SchemaIds(m, qs[i])|]
    ensures SumNats(Counts(m, qs[..i + 1])) == SumNats(Counts(m, qs[..i])) + |SchemaIds(m, qs[i])|
  {
    assert qs[i] !in qs[..i];
    assert qs[..i + 1] == qs[..i] + [qs[i]];
    var w := WithoutAll(m, qs[..i]);
    forall id | id in SchemaIds(m, qs[i]) ensures id in SchemaIds(w, qs[i]) {
      assert id in w;
    }
    assert Counts(m, qs[..i + 1])[..i] == Counts(m, qs[..i]);
    var c := Counts(m, qs[..i]) + [|SchemaIds(m, qs[i])|];
    assert c[..|c| - 1] == Counts(m, qs[..i]);
  }

  /** One schema of `clear_all_seats`: deleting it extends the cleared
      table, the running total and the cascade by that schema. */
  lemma ClearTicketsStep(m0: map<nat, SeatRecord>, all: seq<Ticket>, m: map<nat, SeatRecord>, tickets: seq<Ticket>,
                         total: int, qs: seq<int>, i: int, events: set<int>)
    requires NoDuplicates(qs) && 0 <= i < |qs|
    requires m == WithoutAll(m0, qs[..i]) && total == SumNats(Counts(m0, qs[..i]))
    requires tickets == Cascade(all, m) && UniqueTickets(tickets) && TicketsLinked(tickets, m, events)
    ensures Without(m, qs[i]) == WithoutAll(m0, qs[..i + 1])
    ensures total + |SchemaIds(m, qs[i])| == SumNats(Counts(m0, qs[..i + 1]))
    ensures Cascade(tickets, Without(m, qs[i])) == Cascade(all, Without(m, qs[i]))
  {
    ClearStep(m0, qs, i);
    CascadeWithout(all, tickets, m, qs[i], events);
  }

  /** After clearing, the selected schemas hold no seats and the others
      keep theirs; the reported total counts what was removed. */
  lemma ClearAllSpec(m: map<nat, SeatRecord>, qs: seq<int>)
    ensures forall k :: 0 <= k < |qs| ==> SchemaSeats(WithoutAll(m, qs), qs[k]) == {}
    ensures forall t :: t !in qs ==> SchemaSeats(WithoutAll(m, qs), t) == SchemaSeats(m, t)
  {
    forall t | t !in qs ensures SchemaSeats(WithoutAll(m, qs), t) == SchemaSeats(m, t) {
      forall x | x in SchemaSeats(m, t) ensures x in SchemaSeats(WithoutAll(m, qs), t) {
        var id :| id in m && m[id].schema == t && m[id] == x;
        assert id in WithoutAll(m, qs);
      }
    }
  }

  /** The seats removed are exactly the counted ones. */
  lemma {:induction false} ClearCount(m: map<nat, SeatRecord>, qs: seq<int>)
    requires NoDuplicates(qs)
    ensures |WithoutAll(m, qs)| + SumNats(Counts(m, qs)) == |m|
    decreases |qs|
  {
    if qs == [] {
      assert WithoutAll(m, qs) == m;
    } else {
      var n := |qs| - 1;
      assert NoDuplicates(qs[..n]) by {
        forall i, j | 0 <= i < j < n ensures qs[..n][i] != qs[..n][j] { assert qs[i] != qs[j]; }
      }
      ClearCount(m, qs[..n]);
      ClearStep(m, qs, n);
      assert qs[..n + 1] == qs;
      var w := WithoutAll(m, qs[..n]);
      assert Counts(m, qs)[..n] == Counts(m, qs[..n]);
      SplitCount(w, qs[n]);
    }
  }

  /** Deleting a schema removes exactly its seats from the table. */
  lemma SplitCount(w: map<nat, SeatRecord>, sid: int)
    ensures |Without(w, sid)| + |SchemaIds(w, sid)| == |w|
  {
    var keep := Without(w, sid).Keys;
    assert keep + SchemaIds(w, sid) == w.Keys;
    assert keep * SchemaIds(w, sid) == {};
    assert |keep + SchemaIds(w, sid)| == |keep| + |SchemaIds(w, sid)|;
  }
}
