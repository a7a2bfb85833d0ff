/** The seat map a buyer sees: the seats grouped by sector and row, the
    render order, the price tiers and their colours, the look of each
    seat, and which seats react to a click. */
module SeatMap {
  import opened Common
  import opened Ordering
  import opened SeatLayout

  /** A seat as the event's seat list delivers it. */
  datatype ViewSeat = ViewSeat(id: int, sector: string, row: int, number: int, price: real, status: Status)

  /** Seats by sector, then by row, in list order within a bucket. */
  type Groups = map<string, map<int, seq<ViewSeat>>>

  /** One step of the grouping `reduce`: creates the sector and row
      entries when missing and appends the seat to its bucket. */
  function AddToGroups(g: Groups, s: ViewSeat): Groups
  {
    var rowsOf := if s.sector in g then g[s.sector] else map[];
    var bucket := if s.row in rowsOf then rowsOf[s.row] else [];
    g[s.sector := rowsOf[s.row := bucket + [s]]]
  }

  function Group(seats: seq<ViewSeat>): Groups
  {
    if seats == [] then map[] else AddToGroups(Group(seats[..|seats| - 1]), seats[|seats| - 1])
  }

  /** The seats of `seats` with the given sector and row, in list order. */
  function Bucket(seats: seq<ViewSeat>, sector: string, row: int): seq<ViewSeat>
  {
    if seats == [] then []
    else
      var s := seats[|seats| - 1];
      Bucket(seats[..|seats| - 1], sector, row) + (if s.sector == sector && s.row == row then [s] else [])
  }

  /** How often `x` occurs in `seats` if it has the given key, else 0. */
  function KeyedCount(seats: seq<ViewSeat>, sector: string, row: int, x: ViewSeat): nat
  {
    if x.sector == sector && x.row == row then multiset(seats)[x] else 0
  }

  /** A bucket is the list filtered by the key. */
  lemma {:induction false} BucketFilter(seats: seq<ViewSeat>, sector: string, row: int)
    ensures Bucket(seats, sector, row) == Filter(seats, (s: ViewSeat) => s.sector == sector && s.row == row)
  {
    if seats != [] {
      BucketFilter(seats[..|seats| - 1], sector, row);
    }
  }

  /** A bucket holds each seat with its key as often as the list does,
      and nothing else. */
  lemma BucketMultiset(seats: seq<ViewSeat>, sector: string, row: int, x: ViewSeat)
    ensures multiset(Bucket(seats, sector, row))[x] == KeyedCount(seats, sector, row, x)
  {
    BucketFilter(seats, sector, row);
    FilterCount(seats, (s: ViewSeat) => s.sector == sector && s.row == row, x);
  }

  /** A seat belongs to the bucket of its own sector and row. */
  lemma BucketMember(seats: seq<ViewSeat>, i: int)
    requires 0 <= i < |seats|
    ensures seats[i] in Bucket(seats, seats[i].sector, seats[i].row)
  {
    BucketMultiset(seats, seats[i].sector, seats[i].row, seats[i]);
    assert seats[i] in multiset(seats);
  }

  /** The grouping has a sector key exactly for the sectors that occur. */
  lemma {:induction false} GroupSectors(seats: seq<ViewSeat>, sector: string)
    ensures sector in Group(seats) <==> exists i :: 0 <= i < |seats| && seats[i].sector == sector
  {
    if seats != [] {
      var init := seats[..|seats| - 1];
      GroupSectors(init, sector);
      assert forall i :: 0 <= i < |init| ==> init[i] == seats[i];
      if seats[|seats| - 1].sector == sector {
        assert seats[|seats| - 1].sector == sector;
      }
    }
  }

  /** Under a sector, the grouping has a row key exactly when the bucket
      of that sector and row is non-empty, and that key holds the bucket. */
  lemma {:induction false} GroupBuckets(seats: seq<ViewSeat>, sector: string, row: int)
    ensures (sector in Group(seats) && row in Group(seats)[sector]) <==> Bucket(seats, sector, row) != []
    ensures sector in Group(seats) && row in Group(seats)[sector] ==>
      Group(seats)[sector][row] == Bucket(seats, sector, row)
  {
    if seats != [] {
      GroupBuckets(seats[..|seats| - 1], sector, row);
    }
  }

  // -------------------------------------------------------------- order

  function SectorNames(seats: seq<ViewSeat>): seq<string>
  {
    seq(|seats|, i requires 0 <= i < |seats| => seats[i].sector)
  }

  /** Sectors as rendered: the grouping's keys, sorted. */
  function SectorOrder(seats: seq<ViewSeat>): seq<string>
  {
    SortedDistinct(Utf16Units, SectorNames(seats))
  }

  /** Sectors render in strictly ascending order of their UTF-16
      encodings, each present sector once. */
  lemma SectorOrderSpec(seats: seq<ViewSeat>)
    ensures StrictlyAscending(Utf16Units, SectorOrder(seats))
    ensures forall i, j :: 0 <= i < j < |SectorOrder(seats)| ==> UnitsLess(Utf16(SectorOrder(seats)[i]), Utf16(SectorOrder(seats)[j]))
    ensures forall sec :: sec in SectorOrder(seats) <==> sec in Group(seats)
  {
    var r := SectorOrder(seats);
    SortedDistinctSpec(Utf16Units, SectorNames(seats));
    forall i, j | 0 <= i < j < |r| ensures UnitsLess(Utf16(r[i]), Utf16(r[j])) {
      Utf16Order(r[i], r[j]);
    }
    forall sec ensures sec in SectorNames(seats) <==> sec in Group(seats) {
      GroupSectors(seats, sec);
      if sec in SectorNames(seats) {
        var i :| 0 <= i < |seats| && SectorNames(seats)[i] == sec;
        assert seats[i].sector == sec;
      }
      if sec in Group(seats) {
        var i :| 0 <= i < |seats| && seats[i].sector == sec;
        assert SectorNames(seats)[i] == sec;
      }
    }
  }

  function RowsIn(seats: seq<ViewSeat>, sector: string): seq<int>
  {
    if seats == [] then []
    else
      var s := seats[|seats| - 1];
      RowsIn(seats[..|seats| - 1], sector) + (if s.sector == sector then [s.row] else [])
  }

  /** Rows of a sector as rendered: its row keys, numerically sorted. */
  function RowOrder(seats: seq<ViewSeat>, sector: string): seq<int>
  {
    DistinctAscending(RowsIn(seats, sector))
  }

  lemma {:induction false} RowsInSpec(seats: seq<ViewSeat>, sector: string, row: int)
    ensures row in RowsIn(seats, sector) <==> Bucket(seats, sector, row) != []
  {
    if seats != [] {
      RowsInSpec(seats[..|seats| - 1], sector, row);
    }
  }

  /** Rows render strictly ascending, each row key of the sector once. */
  lemma RowOrderSpec(seats: seq<ViewSeat>, sector: string)
    ensures StrictlyAscendingInts(RowOrder(seats, sector))
    ensures forall row :: row in RowOrder(seats, sector) <==>
      sector in Group(seats) && row in Group(seats)[sector]
  {
    DistinctAscendingSpec(RowsIn(seats, sector));
    forall row ensures row in RowOrder(seats, sector) <==> sector in Group(seats) && row in Group(seats)[sector] {
      RowsInSpec(seats, sector, row);
      GroupBuckets(seats, sector, row);
    }
  }

  function SeatNumber(s: ViewSeat): real { s.number as real }

  /** Seats of a row as rendered: the bucket sorted by number. */
  function RowSeats(seats: seq<ViewSeat>, sector: string, row: int): seq<ViewSeat>
  {
    SortByKey(Bucket(seats, sector, row), SeatNumber)
  }

  /** A rendered row is ordered by number and holds exactly that row's
      seats, none lost and none repeated. */
  lemma RowSeatsSpec(seats: seq<ViewSeat>, sector: string, row: int)
    ensures forall i, j :: 0 <= i < j < |RowSeats(seats, sector, row)| ==>
      RowSeats(seats, sector, row)[i].number <= RowSeats(seats, sector, row)[j].number
    ensures forall x :: multiset(RowSeats(seats, sector, row))[x] == KeyedCount(seats, sector, row, x)
  {
    SortByKeySpec(Bucket(seats, sector, row), SeatNumber);
    forall x ensures multiset(RowSeats(seats, sector, row))[x] == KeyedCount(seats, sector, row, x) {
      BucketMultiset(seats, sector, row, x);
    }
  }

  // -------------------------------------------------------------- tiers

  /** Prices of the seats with a positive price, whatever their status. */
  function PositivePrices(seats: seq<ViewSeat>): seq<real>
  {
    if seats == [] then []
    else
      var s := seats[|seats| - 1];
      PositivePrices(seats[..|seats| - 1]) + (if s.price > 0.0 then [s.price] else [])
  }

  lemma {:induction false} PositivePricesSpec(seats: seq<ViewSeat>, p: real)
    ensures p in PositivePrices(seats) <==> p > 0.0 && exists i :: 0 <= i < |seats| && seats[i].price == p
  {
    if seats != [] {
      var init := seats[..|seats| - 1];
      var last := seats[|seats| - 1];
      PositivePricesSpec(init, p);
      assert PositivePrices(seats) == PositivePrices(init) + (if last.price > 0.0 then [last.price] else []);
      if p > 0.0 && exists i :: 0 <= i < |seats| && seats[i].price == p {
        var i :| 0 <= i < |seats| && seats[i].price == p;
        if i < |init| {
          assert init[i] == seats[i];
        }
      }
      if exists i :: 0 <= i < |init| && init[i].price == p {
        var i :| 0 <= i < |init| && init[i].price == p;
        assert seats[i] == init[i];
      }
    }
  }

  /** The price tiers: distinct positive prices, largest first. */
  function PriceZones(seats: seq<ViewSeat>): seq<real>
  {
    DistinctDescending(PositivePrices(seats))
  }

  lemma PriceZonesSpec(seats: seq<ViewSeat>)
    ensures StrictlyDescending(PriceZones(seats))
    ensures forall p :: p in PriceZones(seats) <==> p > 0.0 && exists i :: 0 <= i < |seats| && seats[i].price == p
  {
    DistinctDescendingSpec(PositivePrices(seats));
    forall p ensures p in PriceZones(seats) <==> p > 0.0 && exists i :: 0 <= i < |seats| && seats[i].price == p {
      PositivePricesSpec(seats, p);
    }
  }

  const TierColors: seq<string> := ["bg-yellow-400", "bg-blue-400", "bg-green-400", "bg-purple-400", "bg-orange-400"]

  /** The colour of a price: the palette entry at its tier index modulo
      five; `None` for a price outside the tiers, whose index is -1 and
      reads past the palette. */
  function PriceColor(zones: seq<real>, p: real): (r: Option<string>)
    ensures r.Some? <==> p in zones
    ensures p in zones ==> r == Some(TierColors[IndexOf(zones, p) % 5])
  {
    var i := IndexOf(zones, p);
    if i < 0 then None else Some(TierColors[i % |TierColors|])
  }

  /** Legend entry i shows the colour of tier i. */
  lemma LegendMatchesTier(zones: seq<real>, i: int)
    requires StrictlyDescending(zones) && 0 <= i < |zones|
    ensures PriceColor(zones, zones[i]) == Some(TierColors[i % 5])
  {
    assert forall j :: 0 <= j < |zones| && j != i ==> zones[j] != zones[i];
  }

  // ---------------------------------------------------------------- look

  datatype Look = Blank | Chosen | TierLook(color: Option<string>) | ReservedLook | SoldLook

  function Ids(seats: seq<ViewSeat>): seq<int>
  {
    seq(|seats|, i requires 0 <= i < |seats| => seats[i].id)
  }

  /** The look of a seat, by priority: price 0 is a blank hall-shape cell;
      then a selected seat; then an available seat in its tier colour;
      then reserved; anything else is sold. */
  function SeatLook(seat: ViewSeat, selected: seq<ViewSeat>, zones: seq<real>): (r: Look)
    ensures r == Blank <==> seat.price == 0.0
    ensures r == Chosen <==> seat.price != 0.0 && seat.id in Ids(selected)
    ensures r.TierLook? <==> seat.price != 0.0 && seat.id !in Ids(selected) && seat.status == Available
    ensures r == ReservedLook <==> seat.price != 0.0 && seat.id !in Ids(selected) && seat.status == Reserved
    ensures r == SoldLook <==> seat.price != 0.0 && seat.id !in Ids(selected) && seat.status == Sold
  {
    if seat.price == 0.0 then Blank
    else if seat.id in Ids(selected) then Chosen
    else match seat.status
      case Available => TierLook(PriceColor(zones, seat.price))
      case Reserved => ReservedLook
      case Sold => SoldLook
  }

  /** An unselected available seat of the map with a positive price is
      drawn in a real tier colour: its price is always a tier. */
  lemma AvailableSeatHasTierColor(seats: seq<ViewSeat>, i: int, selected: seq<ViewSeat>)
    requires 0 <= i < |seats| && seats[i].status == Available && seats[i].price > 0.0
    requires seats[i].id !in Ids(selected)
    ensures SeatLook(seats[i], selected, PriceZones(seats)).TierLook?
    ensures SeatLook(seats[i], selected, PriceZones(seats)).color.Some?
  {
    PriceZonesSpec(seats);
  }

  /** The seat handed to the selection callback on a click, if any. */
  function OnClick(seat: ViewSeat): (r: Option<ViewSeat>)
    ensures r.Some? <==> seat.status == Available && seat.price > 0.0
    ensures r.Some? ==> r.value == seat
  {
    if seat.status == Available && seat.price > 0.0 then Some(seat) else None
  }

  /** The button's disabled attribute. */
  predicate Disabled(seat: ViewSeat)
  {
    seat.status != Available || seat.price == 0.0
  }

  /** For non-negative prices the button is disabled exactly when a click
      would be ignored; a negative-priced available seat is enabled yet
      inert. */
  lemma ClickGating(seat: ViewSeat)
    ensures seat.price >= 0.0 ==> (Disabled(seat) <==> OnClick(seat).None?)
    ensures seat.status == Available && seat.price < 0.0 ==> !Disabled(seat) && OnClick(seat).None?
  {
  }

  /** The seat's label: its number, shown when selected or clickable. */
  function Label(seat: ViewSeat, selected: seq<ViewSeat>): (r: Option<int>)
    ensures r.Some? <==> seat.id in Ids(selected) || OnClick(seat).Some?
    ensures r.Some? ==> r.value == seat.number
  {
    if seat.id in Ids(selected) || (seat.status == Available && seat.price > 0.0) then Some(seat.number) else None
  }
}
