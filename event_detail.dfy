/** The event page's seat selection: toggling seats in and out of the
    selection, the displayed counts and total, and the purchase button,
    which sends one ticket request per selected seat. */
module EventDetail {
  import opened Common
  import opened SeatLayout
  import opened SeatMap

  /** The selection without the seats carrying `id`. */
  function RemoveId(sel: seq<ViewSeat>, id: int): (r: seq<ViewSeat>)
    ensures forall x :: x in r <==> x in sel && x.id != id
    ensures |r| <= |sel|
  {
    if sel == [] then []
    else RemoveId(sel[..|sel| - 1], id) + (if sel[|sel| - 1].id != id then [sel[|sel| - 1]] else [])
  }

  /** The map's callback: a seat whose id is selected is removed,
      otherwise the seat is appended. */
  function Toggle(sel: seq<ViewSeat>, seat: ViewSeat): seq<ViewSeat>
  {
    if seat.id in Ids(sel) then RemoveId(sel, seat.id) else sel + [seat]
  }

  lemma IdsAppend(a: seq<ViewSeat>, b: seq<ViewSeat>)
    ensures Ids(a + b) == Ids(a) + Ids(b)
  {
    assert |Ids(a + b)| == |Ids(a) + Ids(b)|;
    forall i | 0 <= i < |a + b| ensures Ids(a + b)[i] == (Ids(a) + Ids(b))[i] {
      if i >= |a| { assert (a + b)[i] == b[i - |a|]; }
    }
  }

  lemma IdsMember(s: seq<ViewSeat>, j: int)
    ensures j in Ids(s) <==> exists x :: x in s && x.id == j
  {
    if j in Ids(s) {
      var i :| 0 <= i < |s| && Ids(s)[i] == j;
      assert s[i] in s;
    }
    if exists x :: x in s && x.id == j {
      var x :| x in s && x.id == j;
      var i :| 0 <= i < |s| && s[i] == x;
      assert Ids(s)[i] == j;
    }
  }

  /** Removal drops exactly the one id from the selected ids. */
  lemma RemoveIdIds(sel: seq<ViewSeat>, id: int)
    ensures forall j :: j in Ids(RemoveId(sel, id)) <==> j in Ids(sel) && j != id
  {
    forall j ensures j in Ids(RemoveId(sel, id)) <==> j in Ids(sel) && j != id {
      IdsMember(RemoveId(sel, id), j);
      IdsMember(sel, j);
    }
  }

  lemma {:induction false} RemoveIdDistinct(sel: seq<ViewSeat>, id: int)
    requires NoDuplicates(Ids(sel))
    ensures NoDuplicates(Ids(RemoveId(sel, id)))
  {
    if sel != [] {
      var init := sel[..|sel| - 1];
      var last := sel[|sel| - 1];
      assert sel == init + [last];
      IdsAppend(init, [last]);
      var ids := Ids(init);
      assert forall i :: 0 <= i < |ids| ==> Ids(sel)[i] == ids[i];
      assert Ids(sel)[|ids|] == last.id;
      RemoveIdDistinct(init, id);
      var tail := if last.id != id then [last] else [];
      IdsAppend(RemoveId(init, id), tail);
      if last.id != id {
        assert last.id !in ids;
        RemoveIdIds(init, id);
        NoDuplicatesAppend(Ids(RemoveId(init, id)), Ids(tail));
      } else {
        assert Ids(tail) == [];
        assert Ids(RemoveId(sel, id)) == Ids(RemoveId(init, id));
      }
    }
  }

  /** Toggling removes a selected id and appends an unselected seat, so
      the selected ids stay free of duplicates. */
  lemma ToggleSpec(sel: seq<ViewSeat>, seat: ViewSeat)
    ensures seat.id in Ids(sel) ==> seat.id !in Ids(Toggle(sel, seat))
    ensures seat.id in Ids(sel) ==> forall x :: x in Toggle(sel, seat) <==> x in sel && x.id != seat.id
    ensures seat.id !in Ids(sel) ==> Toggle(sel, seat) == sel + [seat]
    ensures NoDuplicates(Ids(sel)) ==> NoDuplicates(Ids(Toggle(sel, seat)))
  {
    if seat.id in Ids(sel) {
      RemoveIdIds(sel, seat.id);
      if NoDuplicates(Ids(sel)) { RemoveIdDistinct(sel, seat.id); }
    } else {
      IdsAppend(sel, [seat]);
      assert Ids([seat]) == [seat.id];
      if NoDuplicates(Ids(sel)) { NoDuplicatesAppend(Ids(sel), [seat.id]); }
    }
  }

  lemma {:induction false} RemoveIdAbsent(sel: seq<ViewSeat>, id: int)
    requires id !in Ids(sel)
    ensures RemoveId(sel, id) == sel
  {
    if sel != [] {
      var init := sel[..|sel| - 1];
      var last := sel[|sel| - 1];
      assert sel == init + [last];
      IdsAppend(init, [last]);
      assert Ids([last]) == [last.id];
      RemoveIdAbsent(init, id);
      assert RemoveId(sel, id) == RemoveId(init, id) + [last];
    }
  }

  /** Toggling an unselected seat twice restores the selection; toggling
      a selected one twice moves it to the end. */
  lemma ToggleTwice(sel: seq<ViewSeat>, seat: ViewSeat)
    ensures seat.id !in Ids(sel) ==> Toggle(Toggle(sel, seat), seat) == sel
    ensures seat.id in Ids(sel) ==> Toggle(Toggle(sel, seat), seat) == RemoveId(sel, seat.id) + [seat]
  {
    if seat.id !in Ids(sel) {
      var t := sel + [seat];
      IdsAppend(sel, [seat]);
      assert Ids([seat]) == [seat.id];
      assert t[..|t| - 1] == sel;
      RemoveIdAbsent(sel, seat.id);
    } else {
      RemoveIdIds(sel, seat.id);
    }
  }

  function Prices(sel: seq<ViewSeat>): seq<real>
  {
    seq(|sel|, i requires 0 <= i < |sel| => sel[i].price)
  }

  /** The displayed total: the `reduce` over the selected seats' prices. */
  function Total(sel: seq<ViewSeat>): real
  {
    SumReals(Prices(sel))
  }

  /** Adding a seat adds its price to the total. */
  lemma TotalAppend(sel: seq<ViewSeat>, seat: ViewSeat)
    ensures Total(sel + [seat]) == Total(sel) + seat.price
  {
    assert Prices(sel + [seat]) == Prices(sel) + [seat.price];
    SumRealsAppend(Prices(sel), [seat.price]);
    assert SumReals([seat.price]) == seat.price by {
      assert [seat.price][..0] == [];
    }
  }

  /** Removing the seats with one id subtracts exactly their prices. */
  lemma {:induction false} TotalRemoveId(sel: seq<ViewSeat>, id: int)
    ensures Total(RemoveId(sel, id)) == Total(sel) - Total(Keep(sel, id))
  {
    if sel != [] {
      var init := sel[..|sel| - 1];
      var last := sel[|sel| - 1];
      TotalRemoveId(init, id);
      assert init + [last] == sel;
      TotalAppend(init, last);
      var r, k := RemoveId(init, id), Keep(init, id);
      if last.id != id {
        assert RemoveId(sel, id) == r + [last];
        assert Keep(sel, id) == k + [] == k;
        TotalAppend(r, last);
      } else {
        assert RemoveId(sel, id) == r + [] == r;
        assert Keep(sel, id) == k + [last];
        TotalAppend(k, last);
      }
    }
  }

  /** The selected seats carrying `id`. */
  function Keep(sel: seq<ViewSeat>, id: int): seq<ViewSeat>
  {
    if sel == [] then []
    else Keep(sel[..|sel| - 1], id) + (if sel[|sel| - 1].id == id then [sel[|sel| - 1]] else [])
  }

  /** Toggling changes the total by the seat's price, up or down. */
  lemma ToggleTotal(sel: seq<ViewSeat>, seat: ViewSeat)
    ensures seat.id !in Ids(sel) ==> Total(Toggle(sel, seat)) == Total(sel) + seat.price
    ensures seat.id in Ids(sel) ==> Total(Toggle(sel, seat)) == Total(sel) - Total(Keep(sel, seat.id))
  {
    if seat.id !in Ids(sel) { TotalAppend(sel, seat); } else { TotalRemoveId(sel, seat.id); }
  }

  /** Seats with status 'available'. */
  function AvailableCount(seats: seq<ViewSeat>): (n: nat)
    ensures n <= |seats|
  {
    if seats == [] then 0
    else AvailableCount(seats[..|seats| - 1]) + (if seats[|seats| - 1].status == Available then 1 else 0)
  }

  /** The count is `|seats|` exactly when every seat is available. */
  lemma {:induction false} AvailableCountAll(seats: seq<ViewSeat>)
    ensures AvailableCount(seats) == |seats| <==> forall i :: 0 <= i < |seats| ==> seats[i].status == Available
  {
    if seats != [] {
      var init := seats[..|seats| - 1];
      AvailableCountAll(init);
      assert forall i :: 0 <= i < |init| ==> init[i] == seats[i];
    }
  }

  /** The single seat handed to the map: the last selected one. */
  function SelectedSeat(sel: seq<ViewSeat>): (r: Option<ViewSeat>)
    ensures r.None? <==> sel == []
    ensures r.Some? ==> r.value == sel[|sel| - 1]
  {
    if sel == [] then None else Some(sel[|sel| - 1])
  }

  datatype TicketRequest = TicketRequest(event: int, seat: int)

  function TicketRequests(eventId: int, sel: seq<ViewSeat>): (r: seq<TicketRequest>)
    ensures |r| == |sel|
    ensures forall i :: 0 <= i < |sel| ==> r[i] == TicketRequest(eventId, sel[i].id)
  {
    seq(|sel|, i requires 0 <= i < |sel| => TicketRequest(eventId, sel[i].id))
  }

  /** What a press of the buy button sends: nothing while the bar is
      hidden (empty selection), while the button is disabled (pending or
      past event) or for an anonymous visitor; otherwise one ticket
      request per selected seat, in selection order. */
  function Purchase(eventId: int, authenticated: bool, pending: bool, past: bool, sel: seq<ViewSeat>): (r: seq<TicketRequest>)
    ensures r != [] <==> sel != [] && !pending && !past && authenticated
    ensures r != [] ==> r == TicketRequests(eventId, sel)
  {
    if sel == [] || pending || past || !authenticated then [] else TicketRequests(eventId, sel)
  }

  class EventPage {
    const eventId: int
    var selected: seq<ViewSeat>
    var pending: bool

    constructor (eventId: int)
      ensures this.eventId == eventId && selected == [] && !pending
    {
      this.eventId := eventId;
      selected := [];
      pending := false;
    }

    method SelectSeat(seat: ViewSeat)
      modifies this
      ensures selected == Toggle(old(selected), seat) && pending == old(pending)
    {
      if seat.id in Ids(selected) {
        selected := RemoveId(selected, seat.id);
      } else {
        selected := selected + [seat];
      }
    }

    /** The cancel button. */
    method Cancel()
      modifies this
      ensures selected == [] && pending == old(pending)
    {
      selected := [];
    }

    /** The buy button; the time comparison of the event date with now
        is passed in as `past`. */
    method Buy(authenticated: bool, past: bool) returns (sent: seq<TicketRequest>)
      modifies this
      ensures sent == Purchase(eventId, authenticated, old(pending), past, old(selected))
      ensures pending == (old(pending) || sent != [])
      ensures selected == old(selected)
    {
      sent := [];
      if selected != [] && !pending && !past && authenticated {
        sent := TicketRequests(eventId, selected);
        pending := true;
      }
    }

    method PurchaseSucceeded()
      modifies this
      ensures selected == [] && !pending
    {
      selected := [];
      pending := false;
    }

    method PurchaseFailed()
      modifies this
      ensures selected == old(selected) && !pending
    {
      pending := false;
    }
  }
}
