/** The seat-layout editor: a draft of painted cells, an ordered list of
    price zones, the grid dimensions, and a linear undo/redo history of
    draft snapshots with a cursor. The pure part (history, painting,
    filling, dimension parsing) is stated as functions with lemmas; the
    editor itself is a class whose handlers are methods proved against
    those functions. */
module SeatBuilder {
  import opened Common
  import opened Text
  import opened SeatLayout
  import Ordering

  // ------------------------------------------------------------- history

  /** The history entries, the cursor into them, and the live draft. */
  datatype History = History(entries: seq<Cells>, cursor: int, live: Cells)

  /** The cursor is -1 exactly when there are no entries, and otherwise
      points at an entry. */
  predicate ValidHistory(h: History)
  {
    -1 <= h.cursor < |h.entries| && (h.cursor == -1 <==> h.entries == [])
  }

  /** Sets the draft to `snap` and records it: the entries up to the
      cursor are kept, `snap` is appended, any redo tail is dropped and the
      cursor moves to the new last entry. */
  function Commit(h: History, snap: Cells): (r: History)
    requires ValidHistory(h)
    ensures ValidHistory(r)
  {
    History(h.entries[..h.cursor + 1] + [snap], h.cursor + 1, snap)
  }

  /** Steps back one entry and restores it, unless at the first entry. */
  function Undo(h: History): History
    requires ValidHistory(h)
  {
    if h.cursor > 0 then History(h.entries, h.cursor - 1, h.entries[h.cursor - 1]) else h
  }

  /** Steps forward one entry and restores it, unless at the last entry. */
  function Redo(h: History): History
    requires ValidHistory(h)
  {
    if h.cursor < |h.entries| - 1 then History(h.entries, h.cursor + 1, h.entries[h.cursor + 1]) else h
  }

  /** A commit keeps entries 0..cursor, appends the snapshot, drops the
      redo tail and leaves the cursor on the snapshot. */
  lemma CommitSpec(h: History, snap: Cells)
    requires ValidHistory(h)
    ensures var r := Commit(h, snap);
      |r.entries| == h.cursor + 2 && r.cursor == |r.entries| - 1
      && (forall i :: 0 <= i <= h.cursor ==> r.entries[i] == h.entries[i])
      && r.entries[r.cursor] == snap && r.live == snap
  {
  }

  /** After a commit there is nothing to redo. */
  lemma RedoAfterCommitIsNoop(h: History, snap: Cells)
    requires ValidHistory(h)
    ensures Redo(Commit(h, snap)) == Commit(h, snap)
  {
  }

  /** Undo at the first entry (or with no entries) changes nothing; redo
      at the last entry changes nothing. */
  lemma UndoRedoBounds(h: History)
    requires ValidHistory(h)
    ensures h.cursor <= 0 ==> Undo(h) == h
    ensures h.cursor == |h.entries| - 1 ==> Redo(h) == h
  {
  }

  /** Both steps keep the history valid, keep the entries, and leave the
      draft equal to the entry under the cursor when they move. */
  lemma UndoRedoValid(h: History)
    requires ValidHistory(h)
    ensures ValidHistory(Undo(h)) && Undo(h).entries == h.entries
    ensures ValidHistory(Redo(h)) && Redo(h).entries == h.entries
    ensures h.cursor > 0 ==> Undo(h).cursor == h.cursor - 1 && Undo(h).live == h.entries[h.cursor - 1]
    ensures h.cursor < |h.entries| - 1 ==> Redo(h).cursor == h.cursor + 1 && Redo(h).live == h.entries[h.cursor + 1]
  {
  }

  /** Redo right after an undo restores the state before the undo, when
      the draft was the entry under the cursor. */
  lemma RedoUndoInverse(h: History)
    requires ValidHistory(h) && h.cursor > 0 && h.live == h.entries[h.cursor]
    ensures Redo(Undo(h)) == h
  {
  }

  /** Undo right after a redo restores the state before the redo, when
      the draft was the entry under the cursor. */
  lemma UndoRedoInverse(h: History)
    requires ValidHistory(h) && 0 <= h.cursor < |h.entries| - 1 && h.live == h.entries[h.cursor]
    ensures Undo(Redo(h)) == h
  {
  }

  /** Undo after a commit returns to the entry that was current before
      the commit. */
  lemma UndoAfterCommit(h: History, snap: Cells)
    requires ValidHistory(h) && h.cursor >= 0
    ensures Undo(Commit(h, snap)).cursor == h.cursor
    ensures Undo(Commit(h, snap)).live == h.entries[h.cursor]
  {
  }

  /** `n` presses of undo. */
  function UndoTimes(h: History, n: nat): (r: History)
    requires ValidHistory(h)
    ensures ValidHistory(r) && r.entries == h.entries
    decreases n
  {
    UndoRedoValid(h);
    if n == 0 then h else UndoTimes(Undo(h), n - 1)
  }

  /** Enough undos reach the first entry and restore it. */
  lemma {:induction false} UndoTimesReachesStart(h: History, n: nat)
    requires ValidHistory(h) && 0 < h.cursor <= n
    ensures UndoTimes(h, n).cursor == 0 && UndoTimes(h, n).live == h.entries[0]
    decreases n
  {
    UndoRedoValid(h);
    if h.cursor > 1 {
      UndoTimesReachesStart(Undo(h), n - 1);
    } else {
      UndoTimesAtStart(Undo(h), n - 1);
    }
  }

  lemma {:induction false} UndoTimesAtStart(h: History, n: nat)
    requires ValidHistory(h) && h.cursor == 0
    ensures UndoTimes(h, n) == h
    decreases n
  {
    if n > 0 { UndoTimesAtStart(Undo(h), n - 1); }
  }

  /** A plain click commits at mouse-down (the render's drag flag is still
      false) and again at mouse-up with the same draft, so the history
      gains two identical entries and one undo shows no change. */
  lemma ClickCommitsTwice(h: History, snap: Cells)
    requires ValidHistory(h)
    ensures var r := Commit(Commit(h, snap), snap);
      r.cursor == h.cursor + 2 && r.entries[r.cursor] == snap && r.entries[r.cursor - 1] == snap
      && Undo(r).live == r.live
  {
  }

  // ------------------------------------------------------------ drawing

  datatype Tool = Brush | Eraser | Fill

  /** Applies the current tool to one cell: the brush sets it to the
      current zone, the eraser removes it, and 'fill' has no branch here,
      so it changes nothing. */
  function Paint(cells: Cells, tool: Tool, c: Coord, zone: nat): (r: Cells)
    ensures forall k :: k != c ==> (k in r <==> k in cells) && (k in r ==> r[k] == cells[k])
    ensures tool == Brush ==> c in r && r[c] == zone
    ensures tool == Eraser ==> c !in r
    ensures tool == Fill ==> r == cells
  {
    match tool
    case Eraser => cells - {c}
    case Brush => cells[c := zone]
    case Fill => cells
  }

  /** Sets every coordinate of `cs` to `zone`, in order. */
  function SetAll(cells: Cells, cs: seq<Coord>, zone: nat): Cells
  {
    if cs == [] then cells else SetAll(cells, cs[..|cs| - 1], zone)[cs[|cs| - 1] := zone]
  }

  /** After `SetAll` the listed coordinates hold `zone`; every other key
      keeps its presence and its value. */
  lemma {:induction false} SetAllSpec(cells: Cells, cs: seq<Coord>, zone: nat)
    ensures forall k :: k in SetAll(cells, cs, zone) <==> k in cells || k in cs
    ensures forall k :: k in cs ==> SetAll(cells, cs, zone)[k] == zone
    ensures forall k :: k in cells && k !in cs ==> SetAll(cells, cs, zone)[k] == cells[k]
  {
    if cs != [] {
      var init := cs[..|cs| - 1];
      SetAllSpec(cells, init, zone);
      assert cs == init + [cs[|cs| - 1]];
    }
  }

  lemma SetAllSnoc(cells: Cells, cs: seq<Coord>, c: Coord, zone: nat)
    ensures SetAll(cells, cs + [c], zone) == SetAll(cells, cs, zone)[c := zone]
  {
    assert (cs + [c])[..|cs|] == cs;
  }

  lemma {:induction false} SetAllAppend(cells: Cells, a: seq<Coord>, b: seq<Coord>, zone: nat)
    ensures SetAll(cells, a + b, zone) == SetAll(SetAll(cells, a, zone), b, zone)
    decreases |b|
  {
    if b == [] {
      assert a + b == a;
    } else {
      assert (a + b)[..|a + b| - 1] == a + b[..|b| - 1];
      SetAllAppend(cells, a, b[..|b| - 1], zone);
    }
  }

  /** The fill loop over a sector's rows. */
  method FillSectorCells(cells: Cells, sector: string, rows: int, spr: int, zone: nat) returns (m: Cells)
    ensures m == SetAll(cells, SectorCoords(sector, rows, spr), zone)
  {
    m := cells;
    var r := 1;
    assert SectorCoords(sector, 0, spr) == [];
    while r <= rows
      invariant 1 <= r <= Clamp0(rows) + 1
      invariant m == SetAll(cells, SectorCoords(sector, r - 1, spr), zone)
    {
      m := FillRowCells(m, sector, r, spr, zone);
      SetAllAppend(cells, SectorCoords(sector, r - 1, spr), RowCoords(sector, r, spr), zone);
      r := r + 1;
    }
    assert SectorCoords(sector, r - 1, spr) == SectorCoords(sector, rows, spr);
  }

  /** The fill loop over one row's numbers. */
  method FillRowCells(cells: Cells, sector: string, row: int, spr: int, zone: nat) returns (m: Cells)
    ensures m == SetAll(cells, RowCoords(sector, row, spr), zone)
  {
    m := cells;
    var s := 1;
    while s <= spr
      invariant 1 <= s <= Clamp0(spr) + 1
      invariant m == SetAll(cells, RowCoords(sector, row, s - 1), zone)
    {
      assert RowCoords(sector, row, s) == RowCoords(sector, row, s - 1) + [Coord(sector, row, s)];
      SetAllSnoc(cells, RowCoords(sector, row, s - 1), Coord(sector, row, s), zone);
      m := m[Coord(sector, row, s) := zone];
      s := s + 1;
    }
    if spr < 1 {
      assert RowCoords(sector, row, spr) == [] == RowCoords(sector, row, s - 1);
    }
  }

  /** Filling a sector paints (sector, r, s) for 1 <= r <= rows and
      1 <= s <= seatsPerRow with the current zone and keeps all other
      keys. */
  lemma FillSectorSpec(cells: Cells, sector: string, rows: int, spr: int, zone: nat)
    ensures var r := SetAll(cells, SectorCoords(sector, rows, spr), zone);
      (forall k: Coord :: k in r <==> k in cells || (k.sector == sector && 1 <= k.row <= rows && 1 <= k.number <= spr))
      && (forall k: Coord :: k.sector == sector && 1 <= k.row <= rows && 1 <= k.number <= spr ==> k in r && r[k] == zone)
      && (forall k: Coord :: k in cells && !(k.sector == sector && 1 <= k.row <= rows && 1 <= k.number <= spr) ==> r[k] == cells[k])
  {
    SetAllSpec(cells, SectorCoords(sector, rows, spr), zone);
    forall k: Coord ensures k in SectorCoords(sector, rows, spr) <==> k.sector == sector && 1 <= k.row <= rows && 1 <= k.number <= spr {
      SectorCoordsMember(sector, rows, spr, k);
    }
  }

  // --------------------------------------------------------- parameters

  /** `Math.max(1, parseInt(v) || 1)`: an unparsable or zero entry gives
      1, a number below 1 gives 1, anything else is kept. */
  function ParseDimension(parsed: Option<int>): (r: int)
    ensures r >= 1
    ensures parsed.Some? && parsed.value >= 1 ==> r == parsed.value
    ensures parsed.None? || parsed.value < 1 ==> r == 1
  {
    var n := if parsed.None? || parsed.value == 0 then 1 else parsed.value;
    if n < 1 then 1 else n
  }

  /** `parseFloat(v) || 0` for a zone price. */
  function ParsePrice(parsed: Option<real>): (r: real)
    ensures parsed.Some? ==> r == parsed.value
    ensures parsed.None? ==> r == 0.0
  {
    if parsed.Some? then parsed.value else 0.0
  }

  /** `Math.round`: the nearest integer, halves rounded up. */
  function JsRound(x: real): (r: int)
    ensures x - 0.5 < r as real <= x + 0.5
  {
    (x + 0.5).Floor
  }

  /** The one-letter name `String.fromCharCode(65 + n)` of the next sector. */
  function NextSectorName(n: nat): (r: string)
    requires n < 0xD800 - 65
    ensures |r| == 1 && r[0] as int == 65 + n
    ensures n < 10 ==> 'A' <= r[0] <= 'J'
  {
    [(65 + n) as char]
  }

  /** The next sector's name depends only on how many sectors there are,
      so after loading the single sector "B" adding a sector yields a
      second "B". */
  lemma AddSectorCanDuplicate()
    ensures ["B"] + [NextSectorName(|["B"]|)] == ["B", "B"]
  {
  }

  datatype Template = SmallHall | MediumHall | LargeHall

  function TemplateSectors(t: Template): seq<string>
  {
    match t
    case SmallHall => ["A", "B"]
    case MediumHall => ["A", "B", "C"]
    case LargeHall => ["A", "B", "C", "D"]
  }

  function TemplateRows(t: Template): int
  {
    match t
    case SmallHall => 5
    case MediumHall => 10
    case LargeHall => 15
  }

  function TemplateSeats(t: Template): int
  {
    match t
    case SmallHall => 10
    case MediumHall => 15
    case LargeHall => 20
  }

  /** The three templates give 100, 450 and 1200 positions. */
  lemma TemplateSizes(t: Template)
    ensures |GridCoords(TemplateSectors(t), TemplateRows(t), TemplateSeats(t))|
      == (match t case SmallHall => 100 case MediumHall => 450 case LargeHall => 1200)
  {
    GridLength(TemplateSectors(t), TemplateRows(t), TemplateSeats(t));
  }

  /** The initial zones: VIP at the event's maximum price, Стандарт at the
      rounded midpoint, Эконом at the minimum. */
  function DefaultZones(priceMin: real, priceMax: real): (zs: seq<Zone>)
    ensures |zs| == 3 && zs[0].price == priceMax && zs[2].price == priceMin
    ensures zs[1].price == JsRound((priceMin + priceMax) / 2.0) as real
  {
    [ Zone("VIP", priceMax, "bg-yellow-400"),
      Zone("Стандарт", JsRound((priceMin + priceMax) / 2.0) as real, "bg-blue-400"),
      Zone("Эконом", priceMin, "bg-green-400") ]
  }

  /** The zone added by the "add" button: named after its position,
      priced at the event minimum, coloured from the palette. */
  function NewZone(count: nat, priceMin: real): (z: Zone)
    ensures z.price == priceMin && z.color == Palette[count % 12]
  {
    Zone(ZoneName(count), priceMin, Palette[count % |Palette|])
  }

  /** Every index in the draft refers to an existing zone. */
  predicate CellsResolve(cells: Cells, zones: seq<Zone>)
  {
    forall k :: k in cells ==> cells[k] < |zones|
  }

  /** Removing a zone does not renumber the cells: a cell painted with
      the last of three zones dangles after the first one is removed. */
  lemma RemoveZoneCanDangle(z0: Zone, z1: Zone, z2: Zone, c: Coord)
    ensures CellsResolve(map[c := 2], [z0, z1, z2])
    ensures !CellsResolve(map[c := 2], [z0, z1, z2][..0] + [z0, z1, z2][1..])
  {
    var cells := map[c := 2];
    assert c in cells && cells[c] == 2;
    assert |[z0, z1, z2][..0] + [z0, z1, z2][1..]| == 2;
  }

  /** Every index held by a history, its draft included, refers to an
      existing zone. */
  predicate HistoryResolves(h: History, zones: seq<Zone>)
  {
    CellsResolve(h.live, zones) && forall i :: 0 <= i < |h.entries| ==> CellsResolve(h.entries[i], zones)
  }

  /** Some cell of the history, its draft included, holds index `n`. */
  predicate UsesIndex(h: History, n: nat)
  {
    (exists k :: k in h.live && h.live[k] == n)
    || exists i, k :: 0 <= i < |h.entries| && k in h.entries[i] && h.entries[i][k] == n
  }

  /** Painting or filling with an existing zone keeps every index
      resolving. */
  lemma PaintResolves(cells: Cells, tool: Tool, c: Coord, zone: nat, zones: seq<Zone>)
    requires CellsResolve(cells, zones) && zone < |zones|
    ensures CellsResolve(Paint(cells, tool, c, zone), zones)
  {
  }

  lemma SetAllResolves(cells: Cells, cs: seq<Coord>, zone: nat, zones: seq<Zone>)
    requires CellsResolve(cells, zones) && zone < |zones|
    ensures CellsResolve(SetAll(cells, cs, zone), zones)
  {
    SetAllSpec(cells, cs, zone);
  }

  /** A commit of a resolving snapshot, an undo and a redo keep every index
      of the history resolving. */
  lemma HistoryStepsResolve(h: History, snap: Cells, zones: seq<Zone>)
    requires ValidHistory(h) && HistoryResolves(h, zones)
    ensures CellsResolve(snap, zones) ==> HistoryResolves(Commit(h, snap), zones)
    ensures HistoryResolves(Undo(h), zones) && HistoryResolves(Redo(h), zones)
  {
    var r := Commit(h, snap);
    forall i | 0 <= i < |r.entries| - 1 ensures r.entries[i] == h.entries[i] { }
  }

  /** Dropping a zone from a resolving history leaves it resolving exactly
      when no cell holds the old last index. */
  lemma DropZoneResolves(h: History, zones: seq<Zone>, i: nat)
    requires HistoryResolves(h, zones) && i < |zones|
    ensures HistoryResolves(h, zones[..i] + zones[i + 1..]) <==> !UsesIndex(h, |zones| - 1)
  {
    var z := zones[..i] + zones[i + 1..];
    if UsesIndex(h, |zones| - 1) {
      if exists k :: k in h.live && h.live[k] == |zones| - 1 {
        var k :| k in h.live && h.live[k] == |zones| - 1;
        assert !CellsResolve(h.live, z);
      } else {
        var j, k :| 0 <= j < |h.entries| && k in h.entries[j] && h.entries[j][k] == |zones| - 1;
        assert !CellsResolve(h.entries[j], z);
      }
    }
  }

  /** The cells loaded from a seat list resolve against the zones made
      from the same prices. */
  lemma LoadCellsResolve(seats: seq<SeatRecord>, prices: seq<real>)
    ensures CellsResolve(LoadCells(seats, prices), ZonesFor(prices))
  {
    LoadCellsValue(seats, prices);
    forall k | k in LoadCells(seats, prices) ensures LoadCells(seats, prices)[k] < |prices| {
      var i :| LoadsAt(seats, prices, i, k) && LoadCells(seats, prices)[k] == Ordering.IndexOf(prices, seats[i].price);
    }
  }

  /** A save drops the bulk create only when a drawn cell's index has no
      zone, and the render of that cell throws first. */
  lemma SaveFailsOnlyWhereRenderThrows(schema: int, sectors: seq<string>, rows: int, spr: int, cells: Cells, zones: seq<Zone>)
    ensures |SavePlan(schema, sectors, rows, spr, cells, zones)| == 1 <==>
      exists c :: c in GridCoords(sectors, rows, spr) && CellColor(cells, zones, c).None?
  {
    var g := GridCoords(sectors, rows, spr);
    BuildRecordsSomeIff(schema, g, cells, zones);
    if !Resolves(g, cells, zones) {
      var i :| 0 <= i < |g| && g[i] in cells && cells[g[i]] >= |zones|;
      assert CellColor(cells, zones, g[i]).None?;
    }
  }

  /** The colour class of a cell: grey when unpainted, its zone's colour
      when painted, `None` when its index has no zone (the render throws). */
  function CellColor(cells: Cells, zones: seq<Zone>, c: Coord): (r: Option<string>)
    ensures c !in cells ==> r == Some("bg-gray-200 dark:bg-gray-700")
    ensures c in cells && cells[c] < |zones| ==> r == Some(zones[cells[c]].color)
    ensures r.None? <==> c in cells && cells[c] >= |zones|
  {
    if c !in cells then Some("bg-gray-200 dark:bg-gray-700")
    else if cells[c] < |zones| then Some(zones[cells[c]].color)
    else None
  }

  // -------------------------------------------------------------- editor

  class Editor {
    const schemaId: int
    const priceMin: real
    const priceMax: real
    var sectors: seq<string>
    var rows: int
    var seatsPerRow: int
    var cells: Cells
    var zones: seq<Zone>
    var currentZone: nat
    var tool: Tool
    var history: seq<Cells>
    var historyIndex: int
    var isDragging: bool

    function State(): History
      reads this
    {
      History(history, historyIndex, cells)
    }

    predicate Valid()
      reads this
    {
      ValidHistory(State())
    }

    /** The dimension bounds the controls maintain: 1..10 sectors, at
        least one row and one seat per row. */
    predicate DimensionsOk()
      reads this
    {
      1 <= |sectors| <= 10 && rows >= 1 && seatsPerRow >= 1
    }

    /** Every zone index held by the draft, the history and the zone
        selection refers to an existing zone. */
    predicate ZonesResolve()
      reads this
    {
      currentZone < |zones| && HistoryResolves(State(), zones)
    }

    constructor (schemaId: int, priceMin: real, priceMax: real)
      ensures this.schemaId == schemaId && this.priceMin == priceMin && this.priceMax == priceMax
      ensures sectors == ["A"] && rows == 10 && seatsPerRow == 20
      ensures cells == map[] && zones == DefaultZones(priceMin, priceMax) && currentZone == 0
      ensures tool == Brush && history == [] && historyIndex == -1 && !isDragging
      ensures Valid() && DimensionsOk() && ZonesResolve()
    {
      this.schemaId := schemaId;
      this.priceMin := priceMin;
      this.priceMax := priceMax;
      sectors := ["A"];
      rows := 10;
      seatsPerRow := 20;
      cells := map[];
      zones := DefaultZones(priceMin, priceMax);
      currentZone := 0;
      tool := Brush;
      history := [];
      historyIndex := -1;
      isDragging := false;
    }

    /** Sets the draft to `snap` and records it in the history. */
    method CommitSnapshot(snap: Cells)
      requires Valid()
      modifies this
      ensures State() == Commit(old(State()), snap)
      ensures Valid()
      ensures old(ZonesResolve()) && CellsResolve(snap, zones) ==> ZonesResolve()
      ensures sectors == old(sectors) && rows == old(rows) && seatsPerRow == old(seatsPerRow)
      ensures zones == old(zones) && currentZone == old(currentZone) && tool == old(tool) && isDragging == old(isDragging)
    {
      if ZonesResolve() { HistoryStepsResolve(State(), snap, zones); }
      history := history[..historyIndex + 1] + [snap];
      historyIndex := |history| - 1;
      cells := snap;
    }

    method UndoStep()
      requires Valid()
      modifies this
      ensures State() == Undo(old(State()))
      ensures Valid() && (old(ZonesResolve()) ==> ZonesResolve())
      ensures sectors == old(sectors) && rows == old(rows) && seatsPerRow == old(seatsPerRow)
      ensures zones == old(zones) && currentZone == old(currentZone) && tool == old(tool) && isDragging == old(isDragging)
    {
      if ZonesResolve() { HistoryStepsResolve(State(), cells, zones); }
      if historyIndex > 0 {
        historyIndex := historyIndex - 1;
        cells := history[historyIndex];
      }
    }

    method RedoStep()
      requires Valid()
      modifies this
      ensures State() == Redo(old(State()))
      ensures Valid() && (old(ZonesResolve()) ==> ZonesResolve())
      ensures sectors == old(sectors) && rows == old(rows) && seatsPerRow == old(seatsPerRow)
      ensures zones == old(zones) && currentZone == old(currentZone) && tool == old(tool) && isDragging == old(isDragging)
    {
      if ZonesResolve() { HistoryStepsResolve(State(), cells, zones); }
      if historyIndex < |history| - 1 {
        historyIndex := historyIndex + 1;
        cells := history[historyIndex];
      }
    }

    /** Applies the current tool to one cell, recording a history entry
        only when no drag is in progress. */
    method HandleCell(sector: string, row: int, number: int)
      requires Valid()
      modifies this
      ensures var painted := Paint(old(cells), old(tool), Coord(sector, row, number), old(currentZone));
        if old(isDragging) then State() == old(State()).(live := painted)
        else State() == Commit(old(State()), painted)
      ensures Valid() && (old(ZonesResolve()) ==> ZonesResolve())
      ensures sectors == old(sectors) && rows == old(rows) && seatsPerRow == old(seatsPerRow)
      ensures zones == old(zones) && currentZone == old(currentZone) && tool == old(tool) && isDragging == old(isDragging)
    {
      var painted := Paint(cells, tool, Coord(sector, row, number), currentZone);
      if ZonesResolve() { PaintResolves(cells, tool, Coord(sector, row, number), currentZone, zones); }
      if isDragging {
        cells := painted;
      } else {
        CommitSnapshot(painted);
      }
    }

    /** Mouse-down on a cell: the handler sees the drag flag of the
        current render, so the cell is applied (and committed unless a
        drag was already on) before the flag becomes true. */
    method MouseDown(sector: string, row: int, number: int)
      requires Valid()
      modifies this
      ensures var painted := Paint(old(cells), old(tool), Coord(sector, row, number), old(currentZone));
        if old(isDragging) then State() == old(State()).(live := painted)
        else State() == Commit(old(State()), painted)
      ensures isDragging && Valid() && (old(ZonesResolve()) ==> ZonesResolve())
      ensures sectors == old(sectors) && rows == old(rows) && seatsPerRow == old(seatsPerRow)
      ensures zones == old(zones) && currentZone == old(currentZone) && tool == old(tool)
    {
      HandleCell(sector, row, number);
      isDragging := true;
    }

    /** Mouse-enter on a cell paints it while dragging, without a commit. */
    method MouseEnter(sector: string, row: int, number: int)
      requires Valid()
      modifies this
      ensures old(isDragging) ==> State() == old(State()).(live := Paint(old(cells), old(tool), Coord(sector, row, number), old(currentZone)))
      ensures !old(isDragging) ==> State() == old(State())
      ensures Valid() && isDragging == old(isDragging) && (old(ZonesResolve()) ==> ZonesResolve())
      ensures sectors == old(sectors) && rows == old(rows) && seatsPerRow == old(seatsPerRow)
      ensures zones == old(zones) && currentZone == old(currentZone) && tool == old(tool)
    {
      if isDragging {
        HandleCell(sector, row, number);
      }
    }

    /** Mouse-up ends a drag and commits the current draft. */
    method MouseUp()
      requires Valid()
      modifies this
      ensures old(isDragging) ==> State() == Commit(old(State()), old(cells))
      ensures !old(isDragging) ==> State() == old(State())
      ensures !isDragging && Valid() && (old(ZonesResolve()) ==> ZonesResolve())
      ensures sectors == old(sectors) && rows == old(rows) && seatsPerRow == old(seatsPerRow)
      ensures zones == old(zones) && currentZone == old(currentZone) && tool == old(tool)
    {
      if isDragging {
        isDragging := false;
        CommitSnapshot(cells);
      }
    }

    /** A plain click (mouse-down then mouse-up on one cell, no drag in
        progress) records the painted draft twice. */
    method Click(sector: string, row: int, number: int)
      requires Valid() && !isDragging
      modifies this
      ensures var painted := Paint(old(cells), old(tool), Coord(sector, row, number), old(currentZone));
        State() == Commit(Commit(old(State()), painted), painted)
      ensures !isDragging && Valid() && (old(ZonesResolve()) ==> ZonesResolve())
    {
      MouseDown(sector, row, number);
      MouseUp();
    }

    /** Paints every cell of a sector with the current zone, then records
        one history entry. */
    method FillSector(sector: string)
      requires Valid()
      modifies this
      ensures State() == Commit(old(State()), SetAll(old(cells), SectorCoords(sector, old(rows), old(seatsPerRow)), old(currentZone)))
      ensures Valid() && (old(ZonesResolve()) ==> ZonesResolve())
      ensures sectors == old(sectors) && rows == old(rows) && seatsPerRow == old(seatsPerRow)
      ensures zones == old(zones) && currentZone == old(currentZone) && tool == old(tool) && isDragging == old(isDragging)
    {
      var m := FillSectorCells(cells, sector, rows, seatsPerRow, currentZone);
      if ZonesResolve() { SetAllResolves(cells, SectorCoords(sector, rows, seatsPerRow), currentZone, zones); }
      CommitSnapshot(m);
    }

    /** The reset button: an empty draft, recorded. */
    method Reset()
      requires Valid()
      modifies this
      ensures State() == Commit(old(State()), map[])
      ensures Valid() && (old(ZonesResolve()) ==> ZonesResolve())
      ensures sectors == old(sectors) && rows == old(rows) && seatsPerRow == old(seatsPerRow)
      ensures zones == old(zones) && currentZone == old(currentZone) && tool == old(tool) && isDragging == old(isDragging)
    {
      CommitSnapshot(map[]);
    }

    method SetRows(parsed: Option<int>)
      modifies this
      ensures rows == ParseDimension(parsed) && (old(ZonesResolve()) ==> ZonesResolve())
      ensures sectors == old(sectors) && seatsPerRow == old(seatsPerRow) && State() == old(State())
      ensures zones == old(zones) && currentZone == old(currentZone) && tool == old(tool) && isDragging == old(isDragging)
    {
      rows := ParseDimension(parsed);
    }

    method SetSeatsPerRow(parsed: Option<int>)
      modifies this
      ensures seatsPerRow == ParseDimension(parsed) && (old(ZonesResolve()) ==> ZonesResolve())
      ensures sectors == old(sectors) && rows == old(rows) && State() == old(State())
      ensures zones == old(zones) && currentZone == old(currentZone) && tool == old(tool) && isDragging == old(isDragging)
    {
      seatsPerRow := ParseDimension(parsed);
    }

    /** Adds the next lettered sector; the button is disabled at ten. */
    method AddSector()
      modifies this
      ensures |old(sectors)| < 10 ==> sectors == old(sectors) + [NextSectorName(|old(sectors)|)]
      ensures |old(sectors)| >= 10 ==> sectors == old(sectors)
      ensures old(DimensionsOk()) ==> DimensionsOk()
      ensures old(ZonesResolve()) ==> ZonesResolve()
      ensures rows == old(rows) && seatsPerRow == old(seatsPerRow) && State() == old(State())
      ensures zones == old(zones) && currentZone == old(currentZone) && tool == old(tool) && isDragging == old(isDragging)
    {
      if |sectors| < 10 {
        sectors := sectors + [NextSectorName(|sectors|)];
      }
    }

    /** Drops the last sector unless it is the only one. */
    method RemoveSector()
      modifies this
      ensures |old(sectors)| > 1 ==> sectors == old(sectors)[..|old(sectors)| - 1]
      ensures |old(sectors)| <= 1 ==> sectors == old(sectors)
      ensures old(DimensionsOk()) ==> DimensionsOk()
      ensures old(ZonesResolve()) ==> ZonesResolve()
      ensures rows == old(rows) && seatsPerRow == old(seatsPerRow) && State() == old(State())
      ensures zones == old(zones) && currentZone == old(currentZone) && tool == old(tool) && isDragging == old(isDragging)
    {
      if |sectors| > 1 {
        sectors := sectors[..|sectors| - 1];
      }
    }

    /** A quick template replaces sectors and dimensions only. */
    method ApplyTemplate(t: Template)
      modifies this
      ensures sectors == TemplateSectors(t) && rows == TemplateRows(t) && seatsPerRow == TemplateSeats(t)
      ensures DimensionsOk() && (old(ZonesResolve()) ==> ZonesResolve())
      ensures State() == old(State()) && zones == old(zones) && currentZone == old(currentZone)
      ensures tool == old(tool) && isDragging == old(isDragging)
    {
      sectors := TemplateSectors(t);
      rows := TemplateRows(t);
      seatsPerRow := TemplateSeats(t);
    }

    method AddZone()
      modifies this
      ensures zones == old(zones) + [NewZone(|old(zones)|, priceMin)]
      ensures old(ZonesResolve()) ==> ZonesResolve()
      ensures sectors == old(sectors) && rows == old(rows) && seatsPerRow == old(seatsPerRow) && State() == old(State())
      ensures currentZone == old(currentZone) && tool == old(tool) && isDragging == old(isDragging)
    {
      zones := zones + [NewZone(|zones|, priceMin)];
    }

    /** Removes zone `i` (offered only while several exist) without
        renumbering the cells or the selection, which may then dangle. */
    method RemoveZone(i: nat)
      requires |zones| > 1 && i < |zones|
      modifies this
      ensures zones == old(zones)[..i] + old(zones)[i + 1..]
      ensures old(ZonesResolve()) ==> (ZonesResolve() <==> currentZone < |zones| && !UsesIndex(State(), |zones|))
      ensures sectors == old(sectors) && rows == old(rows) && seatsPerRow == old(seatsPerRow) && State() == old(State())
      ensures currentZone == old(currentZone) && tool == old(tool) && isDragging == old(isDragging)
    {
      if ZonesResolve() { DropZoneResolves(State(), zones, i); }
      zones := zones[..i] + zones[i + 1..];
    }

    method SetZoneName(i: nat, name: string)
      requires i < |zones|
      modifies this
      ensures zones == old(zones)[i := old(zones)[i].(name := name)]
      ensures old(ZonesResolve()) ==> ZonesResolve()
      ensures sectors == old(sectors) && rows == old(rows) && seatsPerRow == old(seatsPerRow) && State() == old(State())
      ensures currentZone == old(currentZone) && tool == old(tool) && isDragging == old(isDragging)
    {
      zones := zones[i := zones[i].(name := name)];
    }

    method SetZonePrice(i: nat, parsed: Option<real>)
      requires i < |zones|
      modifies this
      ensures zones == old(zones)[i := old(zones)[i].(price := ParsePrice(parsed))]
      ensures old(ZonesResolve()) ==> ZonesResolve()
      ensures sectors == old(sectors) && rows == old(rows) && seatsPerRow == old(seatsPerRow) && State() == old(State())
      ensures currentZone == old(currentZone) && tool == old(tool) && isDragging == old(isDragging)
    {
      zones := zones[i := zones[i].(price := ParsePrice(parsed))];
    }

    method SetZoneColor(i: nat, color: string)
      requires i < |zones|
      modifies this
      ensures zones == old(zones)[i := old(zones)[i].(color := color)]
      ensures old(ZonesResolve()) ==> ZonesResolve()
      ensures sectors == old(sectors) && rows == old(rows) && seatsPerRow == old(seatsPerRow) && State() == old(State())
      ensures currentZone == old(currentZone) && tool == old(tool) && isDragging == old(isDragging)
    {
      zones := zones[i := zones[i].(color := color)];
    }

    method SelectZone(i: nat)
      requires i < |zones|
      modifies this
      ensures currentZone == i
      ensures old(ZonesResolve()) ==> ZonesResolve()
      ensures sectors == old(sectors) && rows == old(rows) && seatsPerRow == old(seatsPerRow) && State() == old(State())
      ensures zones == old(zones) && tool == old(tool) && isDragging == old(isDragging)
    {
      currentZone := i;
    }

    method SetTool(t: Tool)
      modifies this
      ensures tool == t && (old(ZonesResolve()) ==> ZonesResolve())
      ensures sectors == old(sectors) && rows == old(rows) && seatsPerRow == old(seatsPerRow) && State() == old(State())
      ensures zones == old(zones) && currentZone == old(currentZone) && isDragging == old(isDragging)
    {
      tool := t;
    }

    /** Colour of a displayed cell. */
    function CellColorAt(sector: string, row: int, number: int): Option<string>
      reads this
    {
      CellColor(cells, zones, Coord(sector, row, number))
    }

    /** Hydration from the schema's seat list. A non-empty list sets the
        sectors and dimensions; when it has positive available prices it
        also replaces the zones, the draft and the history. An empty list
        only resets the history to one empty entry. */
    method Load(seats: seq<SeatRecord>)
      requires Valid()
      modifies this
      ensures seats == [] ==>
        history == [map[]] && historyIndex == 0 && cells == old(cells) && sectors == old(sectors)
        && rows == old(rows) && seatsPerRow == old(seatsPerRow) && zones == old(zones)
      ensures seats != [] ==>
        sectors == LoadedSectors(seats) && rows == MaxRow(seats) && seatsPerRow == MaxNumber(seats)
      ensures seats != [] && ZonePrices(seats) != [] ==>
        zones == ZonesFor(ZonePrices(seats)) && cells == LoadCells(seats, ZonePrices(seats))
        && history == [cells] && historyIndex == 0
      ensures seats != [] && ZonePrices(seats) == [] ==>
        zones == old(zones) && State() == old(State())
      ensures seats != [] && ZonePrices(seats) != [] ==> (ZonesResolve() <==> old(currentZone) < |ZonePrices(seats)|)
      ensures (seats == [] || ZonePrices(seats) == []) && old(ZonesResolve()) ==> ZonesResolve()
      ensures Valid()
      ensures currentZone == old(currentZone) && tool == old(tool) && isDragging == old(isDragging)
    {
      if |seats| > 0 {
        LoadLayout(seats);
        var prices := ZonePrices(seats);
        if |prices| > 0 {
          LoadZones(seats, prices);
          LoadCellsResolve(seats, prices);
        }
      } else {
        history := [map[]];
        historyIndex := 0;
      }
    }

    /** The sectors and dimensions read from a non-empty seat list. */
    method LoadLayout(seats: seq<SeatRecord>)
      requires seats != []
      modifies this
      ensures sectors == LoadedSectors(seats) && rows == MaxRow(seats) && seatsPerRow == MaxNumber(seats)
      ensures zones == old(zones) && State() == old(State())
      ensures currentZone == old(currentZone) && tool == old(tool) && isDragging == old(isDragging)
    {
      sectors := LoadedSectors(seats);
      rows := MaxRow(seats);
      seatsPerRow := MaxNumber(seats);
    }

    /** The zones, the draft and a one-entry history from the zone prices. */
    method LoadZones(seats: seq<SeatRecord>, prices: seq<real>)
      modifies this
      ensures zones == ZonesFor(prices) && cells == LoadCells(seats, prices)
      ensures history == [cells] && historyIndex == 0
      ensures sectors == old(sectors) && rows == old(rows) && seatsPerRow == old(seatsPerRow)
      ensures currentZone == old(currentZone) && tool == old(tool) && isDragging == old(isDragging)
    {
      zones := ZonesFor(prices);
      var m := LoadedCells(seats, prices);
      cells := m;
      history := [m];
      historyIndex := 0;
    }

    /** The save button: the requests sent, built by the nested loops over
        sectors, rows and numbers. */
    method Save() returns (reqs: seq<Request>)
      ensures reqs == SavePlan(schemaId, sectors, rows, seatsPerRow, cells, zones)
      ensures ZonesResolve() ==> |reqs| == 2
    {
      if ZonesResolve() { BuildRecordsSomeIff(schemaId, GridCoords(sectors, rows, seatsPerRow), cells, zones); }
      var built: Option<seq<SeatRecord>> := Some([]);
      var i := 0;
      while i < |sectors|
        invariant 0 <= i <= |sectors|
        invariant built == BuildRecords(schemaId, GridCoords(sectors[..i], rows, seatsPerRow), cells, zones)
      {
        GridStep(sectors, i, rows, seatsPerRow);
        var done := GridCoords(sectors[..i], rows, seatsPerRow);
        if built.None? {
          GridPrefix(sectors, i, rows, seatsPerRow);
          NoneOnExtension(schemaId, done, GridCoords(sectors, rows, seatsPerRow), cells, zones);
          return [BulkDelete(schemaId)];
        }
        built := SaveSector(schemaId, done, built.value, sectors[i], rows, seatsPerRow, cells, zones);
        i := i + 1;
      }
      assert sectors[..i] == sectors;
      if built.None? {
        return [BulkDelete(schemaId)];
      }
      reqs := [BulkDelete(schemaId), BulkCreate(built.value)];
    }
  }

  /** Once the records fail on a prefix of `b` they fail on `b`. */
  lemma NoneOnExtension(schema: int, a: seq<Coord>, b: seq<Coord>, cells: Cells, zones: seq<Zone>)
    requires a <= b && BuildRecords(schema, a, cells, zones).None?
    ensures BuildRecords(schema, b, cells, zones).None?
  {
    assert b == a + b[|a|..];
    BuildRecordsNoneExtends(schema, a, b[|a|..], cells, zones);
  }

  /** The save loop over one sector's rows. */
  method SaveSector(schema: int, prefix: seq<Coord>, seats: seq<SeatRecord>, sector: string, rows: int, spr: int, cells: Cells, zones: seq<Zone>)
    returns (out: Option<seq<SeatRecord>>)
    requires BuildRecords(schema, prefix, cells, zones) == Some(seats)
    ensures out == BuildRecords(schema, prefix + SectorCoords(sector, rows, spr), cells, zones)
  {
    out := Some(seats);
    var row := 1;
    assert prefix + SectorCoords(sector, 0, spr) == prefix;
    while row <= rows
      invariant 1 <= row <= Clamp0(rows) + 1
      invariant out == BuildRecords(schema, prefix + SectorCoords(sector, row - 1, spr), cells, zones)
    {
      var before := prefix + SectorCoords(sector, row - 1, spr);
      SectorStep(prefix, sector, row, spr);
      if out.None? {
        SectorFailsFrom(schema, prefix, sector, row - 1, rows, spr, cells, zones);
        return None;
      }
      out := SaveRow(schema, before, out.value, sector, row, spr, cells, zones);
      row := row + 1;
    }
    assert SectorCoords(sector, row - 1, spr) == SectorCoords(sector, rows, spr);
  }

  /** The save loop over one row's seat numbers. */
  method SaveRow(schema: int, prefix: seq<Coord>, seats: seq<SeatRecord>, sector: string, row: int, spr: int, cells: Cells, zones: seq<Zone>)
    returns (out: Option<seq<SeatRecord>>)
    requires BuildRecords(schema, prefix, cells, zones) == Some(seats)
    ensures out == BuildRecords(schema, prefix + RowCoords(sector, row, spr), cells, zones)
  {
    var recs := seats;
    var number := 1;
    assert prefix + RowCoords(sector, row, 0) == prefix;
    while number <= spr
      invariant 1 <= number <= Clamp0(spr) + 1
      invariant BuildRecords(schema, prefix + RowCoords(sector, row, number - 1), cells, zones) == Some(recs)
    {
      var c := Coord(sector, row, number);
      RowStep(prefix, sector, row, number);
      BuildRecordsSnoc(schema, prefix + RowCoords(sector, row, number - 1), c, cells, zones);
      if c in cells {
        if cells[c] >= |zones| {
          RowFailsFrom(schema, prefix, sector, row, number, spr, cells, zones);
          return None;
        }
        recs := recs + [SeatRecord(schema, sector, row, number, zones[cells[c]].price, Available)];
      } else {
        recs := recs + [SeatRecord(schema, sector, row, number, 0.0, Sold)];
      }
      number := number + 1;
    }
    assert RowCoords(sector, row, number - 1) == RowCoords(sector, row, spr);
    out := Some(recs);
  }

  lemma SectorStep(prefix: seq<Coord>, sector: string, row: int, spr: int)
    requires row >= 1
    ensures prefix + SectorCoords(sector, row, spr) == prefix + SectorCoords(sector, row - 1, spr) + RowCoords(sector, row, spr)
  {
  }

  /** A failure within the first `row` rows fails the whole sector. */
  lemma SectorFailsFrom(schema: int, prefix: seq<Coord>, sector: string, row: int, rows: int, spr: int, cells: Cells, zones: seq<Zone>)
    requires row <= rows
    requires BuildRecords(schema, prefix + SectorCoords(sector, row, spr), cells, zones).None?
    ensures BuildRecords(schema, prefix + SectorCoords(sector, rows, spr), cells, zones).None?
  {
    SectorPrefix(sector, row, rows, spr);
    PrefixAppend(prefix, SectorCoords(sector, row, spr), SectorCoords(sector, rows, spr));
    NoneOnExtension(schema, prefix + SectorCoords(sector, row, spr), prefix + SectorCoords(sector, rows, spr), cells, zones);
  }

  lemma RowStep(prefix: seq<Coord>, sector: string, row: int, number: int)
    requires number >= 1
    ensures prefix + RowCoords(sector, row, number) == prefix + RowCoords(sector, row, number - 1) + [Coord(sector, row, number)]
  {
  }

  /** A failure at number `number` of a row fails the whole row. */
  lemma RowFailsFrom(schema: int, prefix: seq<Coord>, sector: string, row: int, number: int, spr: int, cells: Cells, zones: seq<Zone>)
    requires 1 <= number <= spr
    requires BuildRecords(schema, prefix + RowCoords(sector, row, number), cells, zones).None?
    ensures BuildRecords(schema, prefix + RowCoords(sector, row, spr), cells, zones).None?
  {
    RowPrefix(sector, row, number, spr);
    PrefixAppend(prefix, RowCoords(sector, row, number), RowCoords(sector, row, spr));
    NoneOnExtension(schema, prefix + RowCoords(sector, row, number), prefix + RowCoords(sector, row, spr), cells, zones);
  }

  /** One more coordinate appends its record, or fails the build. */
  lemma BuildRecordsSnoc(schema: int, cs: seq<Coord>, c: Coord, cells: Cells, zones: seq<Zone>)
    ensures BuildRecords(schema, cs + [c], cells, zones) ==
      match BuildRecords(schema, cs, cells, zones)
      case None => None
      case Some(rs) => if RecordAt(schema, c, cells, zones).None? then None else Some(rs + [RecordAt(schema, c, cells, zones).value])
  {
    assert (cs + [c])[..|cs + [c]| - 1] == cs;
  }

  lemma PrefixAppend<T>(c: seq<T>, a: seq<T>, b: seq<T>)
    requires a <= b
    ensures c + a <= c + b
  {
    assert (c + b)[..|c + a|] == c + a;
  }

  lemma GridStep(sectors: seq<string>, i: int, rows: int, spr: int)
    requires 0 <= i < |sectors|
    ensures GridCoords(sectors[..i + 1], rows, spr) == GridCoords(sectors[..i], rows, spr) + SectorCoords(sectors[i], rows, spr)
  {
    assert sectors[..i + 1][..i] == sectors[..i];
  }

  lemma {:induction false} RowPrefix(s: string, row: int, m: int, n: int)
    requires m <= n
    ensures RowCoords(s, row, m) <= RowCoords(s, row, n)
    decreases n
  {
    if m < n && n > 0 { RowPrefix(s, row, m, n - 1); }
  }

  lemma {:induction false} SectorPrefix(s: string, a: int, b: int, spr: int)
    requires a <= b
    ensures SectorCoords(s, a, spr) <= SectorCoords(s, b, spr)
    decreases b
  {
    if a < b && b > 0 { SectorPrefix(s, a, b - 1, spr); }
  }

  lemma {:induction false} GridPrefix(sectors: seq<string>, i: int, rows: int, spr: int)
    requires 0 <= i <= |sectors|
    ensures GridCoords(sectors[..i], rows, spr) <= GridCoords(sectors, rows, spr)
    decreases |sectors| - i
  {
    if i < |sectors| {
      GridStep(sectors, i, rows, spr);
      GridPrefix(sectors, i + 1, rows, spr);
    } else {
      assert sectors[..i] == sectors;
    }
  }

  /** The hydration loop over the seat list, entry by entry. */
  method LoadedCells(seats: seq<SeatRecord>, prices: seq<real>) returns (m: Cells)
    ensures m == LoadCells(seats, prices)
  {
    m := map[];
    var i := 0;
    while i < |seats|
      invariant 0 <= i <= |seats|
      invariant m == LoadCells(seats[..i], prices)
    {
      assert seats[..i + 1][..i] == seats[..i];
      var z := Ordering.IndexOf(prices, seats[i].price);
      if seats[i].status == Available && z >= 0 {
        m := m[RecordCoord(seats[i]) := z];
      }
      i := i + 1;
    }
    assert seats[..i] == seats;
  }
}
