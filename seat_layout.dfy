/** The data the seat-layout editor exchanges with the seat endpoints:
    seat records, the `sector-row-number` cell keys, the rectangular grid
    of coordinates a layout covers, the request sequence a save produces,
    and the hydration of an editor state from a fetched seat list. */
module SeatLayout {
  import opened Common
  import opened Text
  import opened Ordering

  datatype Status = Available | Reserved | Sold

  /** A seat as the seat list returns it and as bulk creation receives it. */
  datatype SeatRecord = SeatRecord(schema: int, sector: string, row: int, number: int, price: real, status: Status)

  /** One grid position of a layout. */
  datatype Coord = Coord(sector: string, row: int, number: int)

  /** A price zone of the editor (name, price, colour class). */
  datatype Zone = Zone(name: string, price: real, color: string)

  /** The draft: painted cell to zone index. The source keys it by the
      string `SeatKey(...)`; `KeyInjective` shows the two keyings agree
      for non-negative rows and numbers. */
  type Cells = map<Coord, nat>

  /** The twelve colour classes zones are coloured from, in order. */
  const Palette: seq<string> := [
    "bg-red-400", "bg-orange-400", "bg-yellow-400", "bg-green-400",
    "bg-blue-400", "bg-indigo-400", "bg-purple-400", "bg-pink-400",
    "bg-cyan-400", "bg-teal-400", "bg-lime-400", "bg-amber-400"
  ]

  /** The cell key `${sector}-${row}-${number}`; the backend's seat string
      `f"{sector}-{row}-{number}"` has the same shape. */
  function SeatKey(sector: string, row: int, number: int): string
  {
    sector + "-" + IntToString(row) + "-" + IntToString(number)
  }

  function RecordCoord(s: SeatRecord): Coord { Coord(s.sector, s.row, s.number) }

  lemma NoDashInDigits(n: nat)
    ensures '-' !in NatToString(n)
  {
    NatToStringDigits(n);
    var t := NatToString(n);
    assert forall i :: 0 <= i < |t| ==> t[i] != '-';
  }

  /** For non-negative rows and numbers, distinct coordinates have
      distinct keys, even when sector names themselves contain '-'. */
  lemma KeyInjective(s1: string, r1: nat, n1: nat, s2: string, r2: nat, n2: nat)
    requires SeatKey(s1, r1, n1) == SeatKey(s2, r2, n2)
    ensures s1 == s2 && r1 == r2 && n1 == n2
  {
    var a1, b1 := NatToString(r1), NatToString(n1);
    var a2, b2 := NatToString(r2), NatToString(n2);
    NoDashInDigits(r1); NoDashInDigits(n1); NoDashInDigits(r2); NoDashInDigits(n2);
    assert SeatKey(s1, r1, n1) == (s1 + ['-'] + a1) + ['-'] + b1;
    assert SeatKey(s2, r2, n2) == (s2 + ['-'] + a2) + ['-'] + b2;
    SplitAtLast(s1 + ['-'] + a1, b1, s2 + ['-'] + a2, b2, '-');
    SplitAtLast(s1, a1, s2, a2, '-');
    NatToStringInjective(r1, r2);
    NatToStringInjective(n1, n2);
  }

  /** A negative row makes two different coordinates share a key:
      "A--1-2" is both sector "A", row -1 and sector "A-", row 1. */
  lemma KeyCollidesForNegativeRows()
    ensures SeatKey("A", -1, 2) == SeatKey("A-", 1, 2)
  {
    assert NatToString(1) == "1";
    assert NatToString(2) == "2";
  }

  function Clamp0(x: int): nat { if x < 0 then 0 else x }

  /** Numbers 1..n of one row, ascending. */
  function RowCoords(sector: string, row: int, n: int): seq<Coord>
    decreases n
  {
    if n <= 0 then [] else RowCoords(sector, row, n - 1) + [Coord(sector, row, n)]
  }

  /** Rows 1..rows of one sector, each row's numbers ascending. */
  function SectorCoords(sector: string, rows: int, n: int): seq<Coord>
    decreases rows
  {
    if rows <= 0 then [] else SectorCoords(sector, rows - 1, n) + RowCoords(sector, rows, n)
  }

  /** The coordinates of a layout in sector, row, number order: the order
      of the save loop and of the hall generators' nested loops. */
  function GridCoords(sectors: seq<string>, rows: int, n: int): seq<Coord>
  {
    if sectors == [] then [] else GridCoords(sectors[..|sectors| - 1], rows, n) + SectorCoords(sectors[|sectors| - 1], rows, n)
  }

  lemma MulStep(a: int, n: nat)
    ensures (a - 1) * n + n == a * n
  {
  }

  lemma MulMono(a: int, b: int, n: nat)
    requires a <= b
    ensures a * n <= b * n
  {
  }

  lemma {:induction false} RowCoordsLength(sector: string, row: int, n: int)
    ensures |RowCoords(sector, row, n)| == Clamp0(n)
    decreases n
  {
    if n > 0 { RowCoordsLength(sector, row, n - 1); }
  }

  lemma {:induction false} RowCoordsAt(sector: string, row: int, n: int, k: int)
    requires 0 <= k < n
    ensures |RowCoords(sector, row, n)| == n && RowCoords(sector, row, n)[k] == Coord(sector, row, k + 1)
    decreases n
  {
    RowCoordsLength(sector, row, n - 1);
    if k < n - 1 { RowCoordsAt(sector, row, n - 1, k); }
  }

  lemma {:induction false} RowCoordsMember(sector: string, row: int, n: int, c: Coord)
    ensures c in RowCoords(sector, row, n) <==> c.sector == sector && c.row == row && 1 <= c.number <= n
    decreases n
  {
    if n > 0 { RowCoordsMember(sector, row, n - 1, c); }
  }

  lemma {:induction false} RowCoordsDistinct(sector: string, row: int, n: int)
    ensures NoDuplicates(RowCoords(sector, row, n))
    decreases n
  {
    if n > 0 {
      RowCoordsDistinct(sector, row, n - 1);
      RowCoordsMember(sector, row, n - 1, Coord(sector, row, n));
      NoDuplicatesAppend(RowCoords(sector, row, n - 1), [Coord(sector, row, n)]);
    }
  }

  lemma {:induction false} SectorCoordsLength(sector: string, rows: int, n: int)
    ensures |SectorCoords(sector, rows, n)| == Clamp0(rows) * Clamp0(n)
    decreases rows
  {
    if rows > 0 {
      SectorCoordsLength(sector, rows - 1, n);
      RowCoordsLength(sector, rows, n);
      MulStep(rows, Clamp0(n));
    }
  }

  /** Row r, number k + 1 of a sector sits at position (r - 1)·n + k. */
  lemma {:induction false} SectorCoordsAt(sector: string, rows: int, n: int, r: int, k: int)
    requires 1 <= r <= rows && 0 <= k < n
    ensures (r - 1) * n + k < |SectorCoords(sector, rows, n)|
    ensures SectorCoords(sector, rows, n)[(r - 1) * n + k] == Coord(sector, r, k + 1)
    decreases rows
  {
    SectorCoordsLength(sector, rows - 1, n);
    SectorCoordsLength(sector, rows, n);
    RowCoordsLength(sector, rows, n);
    MulStep(rows, n);
    if r == rows {
      RowCoordsAt(sector, rows, n, k);
    } else {
      SectorCoordsAt(sector, rows - 1, n, r, k);
      MulStep(r, n);
      MulMono(r, rows - 1, n);
    }
  }

  lemma {:induction false} SectorCoordsMember(sector: string, rows: int, n: int, c: Coord)
    ensures c in SectorCoords(sector, rows, n) <==> c.sector == sector && 1 <= c.row <= rows && 1 <= c.number <= n
    decreases rows
  {
    if rows > 0 {
      SectorCoordsMember(sector, rows - 1, n, c);
      RowCoordsMember(sector, rows, n, c);
    }
  }

  lemma SectorRowsDisjoint(sector: string, rows: int, n: int)
    requires rows > 0
    ensures forall c :: c in SectorCoords(sector, rows - 1, n) ==> c !in RowCoords(sector, rows, n)
  {
    forall c | c in SectorCoords(sector, rows - 1, n) ensures c !in RowCoords(sector, rows, n) {
      SectorRowDisjointAt(sector, rows, n, c);
    }
  }

  lemma SectorRowDisjointAt(sector: string, rows: int, n: int, c: Coord)
    requires rows > 0
    ensures c in SectorCoords(sector, rows - 1, n) ==> c !in RowCoords(sector, rows, n)
  {
    SectorCoordsMember(sector, rows - 1, n, c);
    RowCoordsMember(sector, rows, n, c);
  }

  lemma {:induction false} SectorCoordsDistinct(sector: string, rows: int, n: int)
    ensures NoDuplicates(SectorCoords(sector, rows, n))
    decreases rows
  {
    if rows > 0 {
      SectorCoordsDistinct(sector, rows - 1, n);
      RowCoordsDistinct(sector, rows, n);
      SectorRowsDisjoint(sector, rows, n);
      NoDuplicatesAppend(SectorCoords(sector, rows - 1, n), RowCoords(sector, rows, n));
    }
  }

  /** A layout has |sectors|·rows·n coordinates. */
  lemma {:induction false} GridLength(sectors: seq<string>, rows: int, n: int)
    ensures |GridCoords(sectors, rows, n)| == |sectors| * (Clamp0(rows) * Clamp0(n))
  {
    if sectors != [] {
      GridLength(sectors[..|sectors| - 1], rows, n);
      SectorCoordsLength(sectors[|sectors| - 1], rows, n);
      MulStep(|sectors|, Clamp0(rows) * Clamp0(n));
    }
  }

  /** Position of (sector index i, row r, number k + 1) in the grid. */
  function GridIndex(i: int, r: int, k: int, rows: int, n: int): int
  {
    i * (rows * n) + (r - 1) * n + k
  }

  lemma ConcatAt<T>(a: seq<T>, b: seq<T>, j: int)
    requires 0 <= j < |b|
    ensures |a| + j < |a + b| && (a + b)[|a| + j] == b[j]
  {
  }

  /** The grid lists sectors in order, each sector's rows ascending and
      each row's numbers ascending: (sectors[i], r, k + 1) is at
      position i·rows·n + (r - 1)·n + k. */
  lemma {:induction false} GridAt(sectors: seq<string>, rows: int, n: int, i: int, r: int, k: int)
    requires 0 <= i < |sectors| && 1 <= r <= rows && 0 <= k < n
    ensures GridIndex(i, r, k, rows, n) < |GridCoords(sectors, rows, n)|
    ensures GridCoords(sectors, rows, n)[GridIndex(i, r, k, rows, n)] == Coord(sectors[i], r, k + 1)
  {
    var ss := sectors[..|sectors| - 1];
    if i == |sectors| - 1 {
      GridAtLast(sectors, rows, n, r, k);
    } else {
      GridAt(ss, rows, n, i, r, k);
    }
  }

  lemma GridAtLast(sectors: seq<string>, rows: int, n: int, r: int, k: int)
    requires 0 < |sectors| && 1 <= r <= rows && 0 <= k < n
    ensures var g, j := GridCoords(sectors, rows, n), GridIndex(|sectors| - 1, r, k, rows, n);
      j < |g| && g[j] == Coord(sectors[|sectors| - 1], r, k + 1)
  {
    var ss := sectors[..|sectors| - 1];
    var last := sectors[|sectors| - 1];
    var a, b := GridCoords(ss, rows, n), SectorCoords(last, rows, n);
    var m, size, off := |sectors| - 1, rows * n, (r - 1) * n + k;
    GridLength(ss, rows, n);
    SectorCoordsAt(last, rows, n, r, k);
    assert |ss| == m && Clamp0(rows) * Clamp0(n) == size;
    assert |a| == m * size;
    assert GridIndex(m, r, k, rows, n) == m * size + off;
    ConcatAt(a, b, off);
  }

  lemma {:induction false} GridMember(sectors: seq<string>, rows: int, n: int, c: Coord)
    ensures c in GridCoords(sectors, rows, n) <==> c.sector in sectors && 1 <= c.row <= rows && 1 <= c.number <= n
  {
    if sectors != [] {
      var ss := sectors[..|sectors| - 1];
      GridMember(ss, rows, n, c);
      SectorCoordsMember(sectors[|sectors| - 1], rows, n, c);
      assert sectors == ss + [sectors[|sectors| - 1]];
    }
  }

  /** Distinct sectors give pairwise distinct coordinates. */
  lemma {:induction false} GridDistinct(sectors: seq<string>, rows: int, n: int)
    requires NoDuplicates(sectors)
    ensures NoDuplicates(GridCoords(sectors, rows, n))
  {
    if sectors != [] {
      var ss := sectors[..|sectors| - 1];
      var s := sectors[|sectors| - 1];
      GridDistinct(ss, rows, n);
      SectorCoordsDistinct(s, rows, n);
      forall c | c in GridCoords(ss, rows, n) ensures c !in SectorCoords(s, rows, n) {
        GridMember(ss, rows, n, c);
        SectorCoordsMember(s, rows, n, c);
      }
      NoDuplicatesAppend(GridCoords(ss, rows, n), SectorCoords(s, rows, n));
    }
  }

  // ---------------------------------------------------------------- save

  /** The two requests a save sends: delete the schema's seats, then
      create the new records. */
  datatype Request = BulkDelete(schemaId: int) | BulkCreate(seats: seq<SeatRecord>)

  /** The record the save loop emits for one coordinate: its zone's price
      and 'available' when the key is painted, price 0 and 'sold'
      otherwise; `None` when the painted index has no zone, where reading
      the zone's price throws and the save stops. */
  function RecordAt(schema: int, c: Coord, cells: Cells, zones: seq<Zone>): Option<SeatRecord>
  {
    var k := c;
    if k in cells then
      if cells[k] < |zones| then Some(SeatRecord(schema, c.sector, c.row, c.number, zones[cells[k]].price, Available))
      else None
    else Some(SeatRecord(schema, c.sector, c.row, c.number, 0.0, Sold))
  }

  /** The records for a list of coordinates, in order; `None` once a
      coordinate has no record. */
  function BuildRecords(schema: int, cs: seq<Coord>, cells: Cells, zones: seq<Zone>): Option<seq<SeatRecord>>
  {
    if cs == [] then Some([])
    else
      match BuildRecords(schema, cs[..|cs| - 1], cells, zones)
      case None => None
      case Some(rs) =>
        match RecordAt(schema, cs[|cs| - 1], cells, zones)
        case None => None
        case Some(r) => Some(rs + [r])
  }

  /** Every painted key among `cs` refers to an existing zone. */
  predicate Resolves(cs: seq<Coord>, cells: Cells, zones: seq<Zone>)
  {
    forall i :: 0 <= i < |cs| && cs[i] in cells ==> cells[cs[i]] < |zones|
  }

  /** Record `r` is the one emitted for coordinate `c`. */
  predicate IsRecordFor(r: SeatRecord, schema: int, c: Coord, cells: Cells, zones: seq<Zone>)
  {
    var k := c;
    r.schema == schema && r.sector == c.sector && r.row == c.row && r.number == c.number
    && (k in cells ==> cells[k] < |zones| && r.price == zones[cells[k]].price && r.status == Available)
    && (k !in cells ==> r.price == 0.0 && r.status == Sold)
  }

  /** The records of a save of a grid. */
  predicate SavedGrid(recs: seq<SeatRecord>, schema: int, grid: seq<Coord>, cells: Cells, zones: seq<Zone>)
  {
    |recs| == |grid| && forall i :: 0 <= i < |grid| ==> IsRecordFor(recs[i], schema, grid[i], cells, zones)
  }

  /** Records exist exactly when every painted key resolves. */
  lemma {:induction false} BuildRecordsSomeIff(schema: int, cs: seq<Coord>, cells: Cells, zones: seq<Zone>)
    ensures BuildRecords(schema, cs, cells, zones).Some? <==> Resolves(cs, cells, zones)
  {
    if cs != [] {
      var init := cs[..|cs| - 1];
      BuildRecordsSomeIff(schema, init, cells, zones);
      assert forall i :: 0 <= i < |init| ==> cs[i] == init[i];
    }
  }

  /** When records exist there is one per coordinate, in the same order. */
  lemma {:induction false} BuildRecordsAt(schema: int, cs: seq<Coord>, cells: Cells, zones: seq<Zone>)
    requires BuildRecords(schema, cs, cells, zones).Some?
    ensures SavedGrid(BuildRecords(schema, cs, cells, zones).value, schema, cs, cells, zones)
  {
    if cs != [] {
      var init := cs[..|cs| - 1];
      BuildRecordsAt(schema, init, cells, zones);
      var rs := BuildRecords(schema, init, cells, zones).value;
      var r := RecordAt(schema, cs[|cs| - 1], cells, zones).value;
      assert BuildRecords(schema, cs, cells, zones).value == rs + [r];
      forall i | 0 <= i < |cs| ensures IsRecordFor((rs + [r])[i], schema, cs[i], cells, zones) {
        if i < |init| { assert init[i] == cs[i]; }
      }
    }
  }

  /** Once the build fails on a prefix it fails on every extension. */
  lemma {:induction false} BuildRecordsNoneExtends(schema: int, a: seq<Coord>, b: seq<Coord>, cells: Cells, zones: seq<Zone>)
    requires BuildRecords(schema, a, cells, zones).None?
    ensures BuildRecords(schema, a + b, cells, zones).None?
    decreases |b|
  {
    if b != [] {
      var b' := b[..|b| - 1];
      assert (a + b)[..|a + b| - 1] == a + b';
      BuildRecordsNoneExtends(schema, a, b', cells, zones);
    } else {
      assert a + b == a;
    }
  }

  /** The request sequence of a save: bulk delete first; bulk create of
      the grid's records only when every painted in-bound key resolves
      (an unresolvable one throws after the delete was sent). */
  function SavePlan(schema: int, sectors: seq<string>, rows: int, spr: int, cells: Cells, zones: seq<Zone>): seq<Request>
  {
    var built := BuildRecords(schema, GridCoords(sectors, rows, spr), cells, zones);
    if built.Some? then [BulkDelete(schema), BulkCreate(built.value)] else [BulkDelete(schema)]
  }

  /** What a save sends: the delete, then exactly |sectors|·rows·spr
      records in grid order, painted keys priced by their zone and
      'available', all other coordinates priced 0 and 'sold'; painted
      keys outside the grid are not sent. */
  lemma SavePlanSpec(schema: int, sectors: seq<string>, rows: int, spr: int, cells: Cells, zones: seq<Zone>)
    ensures var plan := SavePlan(schema, sectors, rows, spr, cells, zones);
      1 <= |plan| <= 2 && plan[0] == BulkDelete(schema)
      && (|plan| == 2 <==> Resolves(GridCoords(sectors, rows, spr), cells, zones))
      && (|plan| == 2 ==>
            plan[1].BulkCreate?
            && |plan[1].seats| == |sectors| * (Clamp0(rows) * Clamp0(spr))
            && SavedGrid(plan[1].seats, schema, GridCoords(sectors, rows, spr), cells, zones))
  {
    var grid := GridCoords(sectors, rows, spr);
    BuildRecordsSomeIff(schema, grid, cells, zones);
    if Resolves(grid, cells, zones) {
      BuildRecordsAt(schema, grid, cells, zones);
    }
    GridLength(sectors, rows, spr);
  }

  // ----------------------------------------------------------- hydration

  function SectorsOf(seats: seq<SeatRecord>): seq<string>
  {
    seq(|seats|, i requires 0 <= i < |seats| => seats[i].sector)
  }

  /** The editor's sectors after loading: the distinct sectors, sorted by
      UTF-16 code units as JavaScript's `sort()` compares them. */
  function LoadedSectors(seats: seq<SeatRecord>): seq<string>
  {
    SortedDistinct(Utf16Units, SectorsOf(seats))
  }

  /** `Math.max` of the rows (the loaded row count). */
  function MaxRow(seats: seq<SeatRecord>): int
    requires seats != []
  {
    if |seats| == 1 then seats[0].row
    else
      var m := MaxRow(seats[..|seats| - 1]);
      if seats[|seats| - 1].row > m then seats[|seats| - 1].row else m
  }

  /** The loaded row count bounds every row and is some seat's row. */
  lemma {:induction false} MaxRowSpec(seats: seq<SeatRecord>)
    requires seats != []
    ensures forall i :: 0 <= i < |seats| ==> seats[i].row <= MaxRow(seats)
    ensures exists i :: 0 <= i < |seats| && seats[i].row == MaxRow(seats)
  {
    if |seats| == 1 {
      assert seats[0].row == MaxRow(seats);
    } else {
      var init := seats[..|seats| - 1];
      MaxRowSpec(init);
      assert forall i :: 0 <= i < |init| ==> init[i] == seats[i];
      var j :| 0 <= j < |init| && init[j].row == MaxRow(init);
      if seats[|seats| - 1].row > MaxRow(init) {
        assert seats[|seats| - 1].row == MaxRow(seats);
      } else {
        assert seats[j].row == MaxRow(seats);
      }
    }
  }

  /** `Math.max` of the numbers (the loaded seats per row). */
  function MaxNumber(seats: seq<SeatRecord>): int
    requires seats != []
  {
    if |seats| == 1 then seats[0].number
    else
      var m := MaxNumber(seats[..|seats| - 1]);
      if seats[|seats| - 1].number > m then seats[|seats| - 1].number else m
  }

  /** The loaded seats-per-row bounds every number and is some seat's number. */
  lemma {:induction false} MaxNumberSpec(seats: seq<SeatRecord>)
    requires seats != []
    ensures forall i :: 0 <= i < |seats| ==> seats[i].number <= MaxNumber(seats)
    ensures exists i :: 0 <= i < |seats| && seats[i].number == MaxNumber(seats)
  {
    if |seats| == 1 {
      assert seats[0].number == MaxNumber(seats);
    } else {
      var init := seats[..|seats| - 1];
      MaxNumberSpec(init);
      assert forall i :: 0 <= i < |init| ==> init[i] == seats[i];
      var j :| 0 <= j < |init| && init[j].number == MaxNumber(init);
      if seats[|seats| - 1].number > MaxNumber(init) {
        assert seats[|seats| - 1].number == MaxNumber(seats);
      } else {
        assert seats[j].number == MaxNumber(seats);
      }
    }
  }

  /** The positive prices of the available seats, in list order. */
  function PositiveAvailablePrices(seats: seq<SeatRecord>): seq<real>
  {
    if seats == [] then []
    else
      var s := seats[|seats| - 1];
      PositiveAvailablePrices(seats[..|seats| - 1]) + (if s.status == Available && s.price > 0.0 then [s.price] else [])
  }

  /** The zone prices after loading: distinct positive prices of available
      seats, largest first. */
  function ZonePrices(seats: seq<SeatRecord>): seq<real>
  {
    DistinctDescending(PositiveAvailablePrices(seats))
  }

  lemma {:induction false} PositiveAvailablePricesSpec(seats: seq<SeatRecord>)
    ensures forall p :: p in PositiveAvailablePrices(seats) <==>
      exists i :: 0 <= i < |seats| && seats[i].status == Available && seats[i].price == p && p > 0.0
  {
    if seats != [] {
      var init := seats[..|seats| - 1];
      PositiveAvailablePricesSpec(init);
      assert forall i :: 0 <= i < |init| ==> init[i] == seats[i];
      forall p | exists i :: 0 <= i < |seats| && seats[i].status == Available && seats[i].price == p && p > 0.0
        ensures p in PositiveAvailablePrices(seats)
      {
        var i :| 0 <= i < |seats| && seats[i].status == Available && seats[i].price == p && p > 0.0;
        if i < |init| {
          assert init[i].status == Available && init[i].price == p;
        }
      }
    }
  }

  /** The loaded zone prices are strictly descending and are exactly the
      positive prices of available seats. */
  lemma ZonePricesSpec(seats: seq<SeatRecord>)
    ensures StrictlyDescending(ZonePrices(seats))
    ensures forall p :: p in ZonePrices(seats) <==>
      exists i :: 0 <= i < |seats| && seats[i].status == Available && seats[i].price == p && p > 0.0
  {
    PositiveAvailablePricesSpec(seats);
    DistinctDescendingSpec(PositiveAvailablePrices(seats));
  }

  function ZoneName(i: nat): string
  {
    "Зона " + IntToString(i + 1)
  }

  /** The zones built from the loaded prices: "Зона i+1", the price, and
      palette colour i mod 12. */
  function ZonesFor(prices: seq<real>): (zs: seq<Zone>)
    ensures |zs| == |prices|
    ensures forall i :: 0 <= i < |zs| ==> zs[i].price == prices[i] && zs[i].color == Palette[i % 12]
  {
    seq(|prices|, i requires 0 <= i < |prices| => Zone(ZoneName(i), prices[i], Palette[i % |Palette|]))
  }

  /** The cells after loading: each available seat whose price is a zone
      price gets that zone's index; the others load unpainted; a later
      seat with the same key overwrites an earlier one. */
  function LoadCells(seats: seq<SeatRecord>, prices: seq<real>): Cells
  {
    if seats == [] then map[]
    else
      var m := LoadCells(seats[..|seats| - 1], prices);
      var s := seats[|seats| - 1];
      var z := IndexOf(prices, s.price);
      if s.status == Available && z >= 0 then m[RecordCoord(s) := z] else m
  }

  /** Seat `i` is available, priced at a zone price and keyed `k`. */
  predicate LoadsAt(seats: seq<SeatRecord>, prices: seq<real>, i: int, k: Coord)
  {
    0 <= i < |seats| && seats[i].status == Available && seats[i].price in prices && RecordCoord(seats[i]) == k
  }

  /** A key is loaded exactly when some available seat with a zone price
      has it. */
  lemma {:induction false} LoadCellsDomain(seats: seq<SeatRecord>, prices: seq<real>)
    ensures forall k :: k in LoadCells(seats, prices) <==> exists i :: LoadsAt(seats, prices, i, k)
  {
    if seats != [] {
      var init := seats[..|seats| - 1];
      var n := |seats| - 1;
      LoadCellsDomain(init, prices);
      forall k | k in LoadCells(seats, prices) ensures exists i :: LoadsAt(seats, prices, i, k) {
        if k in LoadCells(init, prices) {
          var i :| LoadsAt(init, prices, i, k);
          assert init[i] == seats[i];
          assert LoadsAt(seats, prices, i, k);
        } else {
          assert LoadsAt(seats, prices, n, k);
        }
      }
      forall k | exists i :: LoadsAt(seats, prices, i, k) ensures k in LoadCells(seats, prices) {
        var i :| LoadsAt(seats, prices, i, k);
        if i < n {
          assert init[i] == seats[i];
          assert LoadsAt(init, prices, i, k);
        }
      }
    }
  }

  /** A loaded key's index is the index of the price of some available
      seat with that key. */
  lemma {:induction false} LoadCellsValue(seats: seq<SeatRecord>, prices: seq<real>)
    ensures forall k :: k in LoadCells(seats, prices) ==>
      exists i :: LoadsAt(seats, prices, i, k) && LoadCells(seats, prices)[k] == IndexOf(prices, seats[i].price)
  {
    if seats != [] {
      var init := seats[..|seats| - 1];
      var n := |seats| - 1;
      LoadCellsValue(init, prices);
      forall k | k in LoadCells(seats, prices)
        ensures exists i :: LoadsAt(seats, prices, i, k) && LoadCells(seats, prices)[k] == IndexOf(prices, seats[i].price)
      {
        var s := seats[n];
        if s.status == Available && IndexOf(prices, s.price) >= 0 && RecordCoord(s) == k {
          assert LoadsAt(seats, prices, n, k);
        } else {
          assert k in LoadCells(init, prices) && LoadCells(seats, prices)[k] == LoadCells(init, prices)[k];
          var i :| LoadsAt(init, prices, i, k) && LoadCells(init, prices)[k] == IndexOf(prices, init[i].price);
          assert init[i] == seats[i];
          assert LoadsAt(seats, prices, i, k);
        }
      }
    }
  }

  /** Record keys are pairwise distinct, as the (schema, sector, row,
      number) uniqueness of the seat table and non-negative rows and
      numbers guarantee within one schema. */
  predicate UniqueKeys(seats: seq<SeatRecord>)
  {
    forall i, j :: 0 <= i < j < |seats| ==> RecordCoord(seats[i]) != RecordCoord(seats[j])
  }

  /** With distinct keys, every available seat with a zone price loads
      with the index of its own price. */
  lemma LoadCellsUnique(seats: seq<SeatRecord>, prices: seq<real>)
    requires UniqueKeys(seats)
    ensures forall i :: 0 <= i < |seats| && seats[i].status == Available && seats[i].price in prices ==>
      RecordCoord(seats[i]) in LoadCells(seats, prices) && LoadCells(seats, prices)[RecordCoord(seats[i])] == IndexOf(prices, seats[i].price)
  {
    LoadCellsDomain(seats, prices);
    LoadCellsValue(seats, prices);
    forall i | 0 <= i < |seats| && seats[i].status == Available && seats[i].price in prices
      ensures RecordCoord(seats[i]) in LoadCells(seats, prices) && LoadCells(seats, prices)[RecordCoord(seats[i])] == IndexOf(prices, seats[i].price)
    {
      var k := RecordCoord(seats[i]);
      assert LoadsAt(seats, prices, i, k);
      var j :| LoadsAt(seats, prices, j, k) && LoadCells(seats, prices)[k] == IndexOf(prices, seats[j].price);
      assert i == j;
    }
  }

  // ----------------------------------------------------------- round trip

  lemma RoundTripSectors(recs: seq<SeatRecord>, schema: int, sectors: seq<string>, rows: int, spr: int, cells: Cells, zones: seq<Zone>)
    requires rows >= 1 && spr >= 1
    requires SavedGrid(recs, schema, GridCoords(sectors, rows, spr), cells, zones)
    ensures LoadedSectors(recs) == SortedDistinct(Utf16Units, sectors)
  {
    var grid := GridCoords(sectors, rows, spr);
    forall y ensures y in SectorsOf(recs) <==> y in sectors {
      if y in SectorsOf(recs) {
        var i :| 0 <= i < |recs| && SectorsOf(recs)[i] == y;
        assert grid[i] in grid;
        GridMember(sectors, rows, spr, grid[i]);
      }
      if y in sectors {
        GridMember(sectors, rows, spr, Coord(y, 1, 1));
        var i :| 0 <= i < |grid| && grid[i] == Coord(y, 1, 1);
        assert SectorsOf(recs)[i] == y;
      }
    }
    SortedDistinctSameElements(Utf16Units, SectorsOf(recs), sectors);
  }

  lemma RoundTripDimensions(recs: seq<SeatRecord>, schema: int, sectors: seq<string>, rows: int, spr: int, cells: Cells, zones: seq<Zone>)
    requires |sectors| >= 1 && rows >= 1 && spr >= 1
    requires SavedGrid(recs, schema, GridCoords(sectors, rows, spr), cells, zones)
    ensures recs != [] && MaxRow(recs) == rows && MaxNumber(recs) == spr
  {
    var grid := GridCoords(sectors, rows, spr);
    GridMember(sectors, rows, spr, Coord(sectors[0], rows, spr));
    var top :| 0 <= top < |grid| && grid[top] == Coord(sectors[0], rows, spr);
    assert recs[top].row == rows && recs[top].number == spr;
    MaxRowSpec(recs);
    MaxNumberSpec(recs);
    var mr :| 0 <= mr < |recs| && recs[mr].row == MaxRow(recs);
    assert grid[mr] in grid;
    GridMember(sectors, rows, spr, grid[mr]);
    var mn :| 0 <= mn < |recs| && recs[mn].number == MaxNumber(recs);
    assert grid[mn] in grid;
    GridMember(sectors, rows, spr, grid[mn]);
  }

  lemma RoundTripCells(recs: seq<SeatRecord>, schema: int, grid: seq<Coord>, cells: Cells, zones: seq<Zone>)
    requires SavedGrid(recs, schema, grid, cells, zones)
    requires forall k :: k in cells && cells[k] < |zones| ==> zones[cells[k]].price > 0.0
    ensures var prices := ZonePrices(recs);
      var loaded := LoadCells(recs, prices);
      (forall i :: 0 <= i < |grid| ==> (grid[i] in loaded <==> grid[i] in cells))
      && (forall k :: k in loaded ==> k in grid)
      && (forall i :: 0 <= i < |grid| && grid[i] in cells ==>
            loaded[grid[i]] < |prices| && prices[loaded[grid[i]]] == zones[cells[grid[i]]].price)
  {
    var prices := ZonePrices(recs);
    var loaded := LoadCells(recs, prices);
    assert forall i :: 0 <= i < |grid| ==> RecordCoord(recs[i]) == grid[i];
    ZonePricesSpec(recs);
    LoadCellsDomain(recs, prices);
    LoadCellsValue(recs, prices);
    forall i | 0 <= i < |grid| ensures grid[i] in loaded <==> grid[i] in cells {
      var k := grid[i];
      if k in cells {
        assert recs[i].status == Available && recs[i].price > 0.0;
        assert recs[i].price in prices;
        assert LoadsAt(recs, prices, i, k);
      }
      if k in loaded {
        var j :| LoadsAt(recs, prices, j, k);
        assert grid[j] == k;
      }
    }
    forall k | k in loaded ensures k in grid {
      var j :| LoadsAt(recs, prices, j, k);
      assert grid[j] == k;
    }
    forall i | 0 <= i < |grid| && grid[i] in cells
      ensures loaded[grid[i]] < |prices| && prices[loaded[grid[i]]] == zones[cells[grid[i]]].price
    {
      var k := grid[i];
      assert recs[i].price in prices;
      assert LoadsAt(recs, prices, i, k);
      var j :| LoadsAt(recs, prices, j, k) && loaded[k] == IndexOf(prices, recs[j].price);
      assert grid[j] == k;
      assert recs[j].price == zones[cells[k]].price;
    }
  }

  /** Save followed by load: when every painted in-bound key resolves to a
      zone with a positive price, reloading the saved records restores the
      sector set, the row count, the seats per row and exactly the painted
      in-bound keys, each in a zone with its original price. */
  lemma SaveLoadRoundTrip(schema: int, sectors: seq<string>, rows: int, spr: int, cells: Cells, zones: seq<Zone>)
    requires |sectors| >= 1 && rows >= 1 && spr >= 1
    requires Resolves(GridCoords(sectors, rows, spr), cells, zones)
    requires forall k :: k in cells && cells[k] < |zones| ==> zones[cells[k]].price > 0.0
    ensures BuildRecords(schema, GridCoords(sectors, rows, spr), cells, zones).Some?
    ensures var recs := BuildRecords(schema, GridCoords(sectors, rows, spr), cells, zones).value;
      var prices := ZonePrices(recs);
      var loaded := LoadCells(recs, prices);
      var grid := GridCoords(sectors, rows, spr);
      recs != []
      && LoadedSectors(recs) == SortedDistinct(Utf16Units, sectors)
      && MaxRow(recs) == rows && MaxNumber(recs) == spr
      && (forall i :: 0 <= i < |grid| ==> (grid[i] in loaded <==> grid[i] in cells))
      && (forall k :: k in loaded ==> k in grid)
      && (forall i :: 0 <= i < |grid| && grid[i] in cells ==>
            loaded[grid[i]] < |ZonesFor(prices)| && ZonesFor(prices)[loaded[grid[i]]].price == zones[cells[grid[i]]].price)
  {
    var grid := GridCoords(sectors, rows, spr);
    BuildRecordsSomeIff(schema, grid, cells, zones);
    BuildRecordsAt(schema, grid, cells, zones);
    var recs := BuildRecords(schema, grid, cells, zones).value;
    RoundTripSectors(recs, schema, sectors, rows, spr, cells, zones);
    RoundTripDimensions(recs, schema, sectors, rows, spr, cells, zones);
    RoundTripCells(recs, schema, grid, cells, zones);
  }
}
