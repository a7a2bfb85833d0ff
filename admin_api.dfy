/** The staff-only admin endpoints: adding a user to a training group
    (get-or-create on the membership table), removing a membership,
    creating a group, and creating an event together with its seat schema
    and a generated grid of seats. */
module AdminApi {
  import opened Common
  import opened SeatLayout
  import opened SeatStore

  /** A group-membership row; (user, group) is unique. */
  datatype Membership = Membership(id: nat, user: int, group: int)

  /** A training group of a section. */
  datatype GroupRow = GroupRow(id: nat, section: int, name: string, maxMembers: int)

  /** The answer of `add-user-to-group`. */
  datatype JoinReply = Added(membershipId: nat) | AlreadyMember(membershipId: nat) | UserNotFound | GroupNotFound

  /** The answer of `create-group`; `GroupRejected` is the uncaught
      database error of a group without a name. */
  datatype GroupReply = GroupCreated(id: nat, name: string) | SectionNotFound | GroupRejected

  /** What `get_or_create` leaves behind: the table, the membership's id
      and whether it was created. */
  datatype Joined = Joined(members: seq<Membership>, id: nat, created: bool)

  predicate IsPair(x: Membership, u: int, g: int) { x.user == u && x.group == g }

  /** The first membership of `u` in `g`, in table order. */
  function FindMembership(ms: seq<Membership>, u: int, g: int): (r: Option<Membership>)
    ensures r.None? <==> forall x :: x in ms ==> !IsPair(x, u, g)
    ensures r.Some? ==> r.value in ms && IsPair(r.value, u, g)
  {
    if ms == [] then None
    else if IsPair(ms[0], u, g) then Some(ms[0])
    else
      var r := FindMembership(ms[1..], u, g);
      assert forall x :: x in ms ==> x == ms[0] || x in ms[1..];
      r
  }

  /** `GroupMembership.objects.get_or_create(user=u, group=g)`, a new row
      taking the id `next`. */
  function GetOrCreate(ms: seq<Membership>, next: nat, u: int, g: int): Joined
  {
    match FindMembership(ms, u, g)
    case Some(x) => Joined(ms, x.id, false)
    case None => Joined(ms + [Membership(next, u, g)], next, true)
  }

  predicate UniqueIds(ms: seq<Membership>)
  {
    forall i, j :: 0 <= i < j < |ms| ==> ms[i].id != ms[j].id
  }

  predicate UniquePairs(ms: seq<Membership>)
  {
    forall i, j :: 0 <= i < j < |ms| ==> !IsPair(ms[j], ms[i].user, ms[i].group)
  }

  /** Every id is below `next`. */
  predicate IdsBelow(ms: seq<Membership>, next: nat)
  {
    forall i :: 0 <= i < |ms| ==> ms[i].id < next
  }

  /** A row is created exactly when the pair is new; the row then gets
      the fresh id, and otherwise the existing row's id is returned and
      the table is unchanged. Both constraints of the table are kept. */
  lemma GetOrCreateSpec(ms: seq<Membership>, next: nat, u: int, g: int)
    requires UniqueIds(ms) && UniquePairs(ms) && IdsBelow(ms, next)
    ensures GetOrCreate(ms, next, u, g).created <==> forall x :: x in ms ==> !IsPair(x, u, g)
    ensures GetOrCreate(ms, next, u, g).created ==>
      GetOrCreate(ms, next, u, g).members == ms + [Membership(next, u, g)] && GetOrCreate(ms, next, u, g).id == next
    ensures !GetOrCreate(ms, next, u, g).created ==>
      GetOrCreate(ms, next, u, g).members == ms && Membership(GetOrCreate(ms, next, u, g).id, u, g) in ms
    ensures UniqueIds(GetOrCreate(ms, next, u, g).members) && UniquePairs(GetOrCreate(ms, next, u, g).members)
  {
    var r := GetOrCreate(ms, next, u, g);
    if r.created {
      var n := r.members;
      assert n[|ms|] == Membership(next, u, g);
      forall i, j | 0 <= i < j < |n| ensures n[i].id != n[j].id && !IsPair(n[j], n[i].user, n[i].group) {
        if j == |ms| { assert n[i] == ms[i] && ms[i] in ms; }
      }
    }
  }

  /** A repeated call creates nothing and reports the same membership. */
  lemma GetOrCreateIdempotent(ms: seq<Membership>, next: nat, u: int, g: int)
    ensures var r := GetOrCreate(ms, next, u, g);
            var r2 := GetOrCreate(r.members, next + 1, u, g);
            !r2.created && r2.members == r.members && r2.id == r.id
  {
    var r := GetOrCreate(ms, next, u, g);
    if r.created {
      var n := r.members;
      assert n[|ms|] in n;
      var f := FindMembership(n, u, g);
      assert f.Some?;
      assert f.value in ms || f.value == Membership(next, u, g);
    }
  }

  /** The table after deleting the membership with id `id`. */
  function RemoveMembership(ms: seq<Membership>, id: int): (r: seq<Membership>)
    ensures forall x :: x in r <==> x in ms && x.id != id
    ensures |r| <= |ms|
  {
    if ms == [] then []
    else
      var rest := RemoveMembership(ms[1..], id);
      assert forall x :: x in ms <==> x == ms[0] || x in ms[1..];
      if ms[0].id == id then rest else [ms[0]] + rest
  }

  predicate HasId(ms: seq<Membership>, id: int)
  {
    exists x :: x in ms && x.id == id
  }

  /** With unique ids, removing an existing id deletes exactly one row. */
  lemma {:induction false} RemoveMembershipCount(ms: seq<Membership>, id: int)
    requires UniqueIds(ms)
    ensures HasId(ms, id) ==> |RemoveMembership(ms, id)| == |ms| - 1
    ensures !HasId(ms, id) ==> RemoveMembership(ms, id) == ms
  {
    if ms != [] {
      var t := ms[1..];
      assert UniqueIds(t) by {
        forall i, j | 0 <= i < j < |t| ensures t[i].id != t[j].id { assert t[i] == ms[i + 1] && t[j] == ms[j + 1]; }
      }
      RemoveMembershipCount(t, id);
      assert forall x :: x in ms <==> x == ms[0] || x in t;
      if ms[0].id == id {
        assert !HasId(t, id) by {
          forall x | x in t ensures x.id != id {
            var k :| 0 <= k < |t| && t[k] == x;
            assert ms[k + 1] == x;
          }
        }
      }
      assert [ms[0]] + t == ms;
    }
  }

  /** Removing a membership that was just created restores the table. */
  lemma RemoveAfterCreate(ms: seq<Membership>, next: nat, u: int, g: int)
    requires IdsBelow(ms, next) && UniqueIds(ms)
    ensures GetOrCreate(ms, next, u, g).created ==>
      RemoveMembership(GetOrCreate(ms, next, u, g).members, next) == ms
  {
    var r := GetOrCreate(ms, next, u, g);
    if r.created {
      RemoveAppend(ms, Membership(next, u, g), next);
      assert !HasId(ms, next) by {
        forall x | x in ms ensures x.id != next {
          var k :| 0 <= k < |ms| && ms[k] == x;
        }
      }
      RemoveMembershipCount(ms, next);
    }
  }

  lemma {:induction false} RemoveAppend(ms: seq<Membership>, x: Membership, id: int)
    requires x.id == id
    ensures RemoveMembership(ms + [x], id) == RemoveMembership(ms, id)
  {
    if ms == [] {
      assert [x][1..] == [];
    } else {
      assert (ms + [x])[1..] == ms[1..] + [x];
      RemoveAppend(ms[1..], x, id);
    }
  }

  predicate HasGroup(groups: seq<GroupRow>, id: int)
  {
    exists x :: x in groups && x.id == id
  }

  /** `max_members` when the request leaves it out. */
  const DefaultMaxMembers := 20

  /** The group `create-group` adds. */
  function NewGroup(id: nat, section: int, name: string, maxMembers: Option<int>): (r: GroupRow)
    ensures r.id == id && r.section == section && r.name == name
    ensures r.maxMembers == (if maxMembers.Some? then maxMembers.value else 20)
  {
    GroupRow(id, section, name, if maxMembers.Some? then maxMembers.value else DefaultMaxMembers)
  }

  /** The user, section, group and membership tables behind the admin
      endpoints, with the next ids the database hands out. */
  class Directory {
    var users: set<int>
    var sections: set<int>
    var groups: seq<GroupRow>
    var memberships: seq<Membership>
    var nextGroupId: nat
    var nextMembershipId: nat

    predicate Valid()
      reads this
    {
      UniqueIds(memberships) && UniquePairs(memberships) && IdsBelow(memberships, nextMembershipId)
      && forall i :: 0 <= i < |groups| ==> groups[i].id < nextGroupId
    }

    constructor (users: set<int>, sections: set<int>)
      ensures Valid()
      ensures this.users == users && this.sections == sections && groups == [] && memberships == []
    {
      this.users := users;
      this.sections := sections;
      groups := [];
      memberships := [];
      nextGroupId := 1;
      nextMembershipId := 1;
    }

    /** `add_user_to_group`: the user is looked up first, then the group;
        a missing or unknown id answers 404 and creates nothing. */
    method AddUserToGroup(userId: Option<int>, groupId: Option<int>) returns (reply: JoinReply)
      requires Valid()
      modifies this
      ensures Valid()
      ensures userId.None? || userId.value !in users ==> reply == UserNotFound && memberships == old(memberships)
      ensures userId.Some? && userId.value in users && (groupId.None? || !HasGroup(groups, groupId.value)) ==>
        reply == GroupNotFound && memberships == old(memberships)
      ensures userId.Some? && userId.value in users && groupId.Some? && HasGroup(groups, groupId.value) ==>
        var r := GetOrCreate(old(memberships), old(nextMembershipId), userId.value, groupId.value);
        memberships == r.members && reply == (if r.created then Added(r.id) else AlreadyMember(r.id))
      ensures users == old(users) && sections == old(sections) && groups == old(groups) && nextGroupId == old(nextGroupId)
    {
      if userId.None? || userId.value !in users {
        return UserNotFound;
      }
      if groupId.None? || !HasGroup(groups, groupId.value) {
        return GroupNotFound;
      }
      var u, g := userId.value, groupId.value;
      GetOrCreateSpec(memberships, nextMembershipId, u, g);
      var found := FindMembership(memberships, u, g);
      if found.Some? {
        reply := AlreadyMember(found.value.id);
      } else {
        memberships := memberships + [Membership(nextMembershipId, u, g)];
        reply := Added(nextMembershipId);
        nextMembershipId := nextMembershipId + 1;
      }
    }

    /** `remove_from_group`: deletes the membership with that id, or
        answers 404 and changes nothing. */
    method RemoveFromGroup(id: int) returns (resp: Response)
      requires Valid()
      modifies this
      ensures Valid()
      ensures HasId(old(memberships), id) ==> resp.Ok? && memberships == RemoveMembership(old(memberships), id)
      ensures HasId(old(memberships), id) ==> |memberships| == |old(memberships)| - 1
      ensures !HasId(old(memberships), id) ==> resp == NotFound && memberships == old(memberships)
      ensures users == old(users) && sections == old(sections) && groups == old(groups)
    {
      if !HasId(memberships, id) {
        return NotFound;
      }
      RemoveMembershipCount(memberships, id);
      var r := RemoveMembership(memberships, id);
      assert UniqueIds(r) && UniquePairs(r) && IdsBelow(r, nextMembershipId) by {
        RemoveMembershipProps(memberships, id);
      }
      memberships := r;
      resp := Ok("Пользователь удалён из группы");
    }

    /** `create_group`: an unknown or missing section answers 404; a
        missing name violates the table's not-null constraint. */
    method CreateGroup(section: Option<int>, name: Option<string>, maxMembers: Option<int>) returns (reply: GroupReply)
      requires Valid()
      modifies this
      ensures Valid()
      ensures section.None? || section.value !in sections ==> reply == SectionNotFound && groups == old(groups)
      ensures section.Some? && section.value in sections && name.None? ==> reply == GroupRejected && groups == old(groups)
      ensures section.Some? && section.value in sections && name.Some? ==>
        reply == GroupCreated(old(nextGroupId), name.value)
        && groups == old(groups) + [NewGroup(old(nextGroupId), section.value, name.value, maxMembers)]
      ensures users == old(users) && sections == old(sections) && memberships == old(memberships)
    {
      if section.None? || section.value !in sections {
        return SectionNotFound;
      }
      if name.None? {
        return GroupRejected;
      }
      groups := groups + [NewGroup(nextGroupId, section.value, name.value, maxMembers)];
      reply := GroupCreated(nextGroupId, name.value);
      nextGroupId := nextGroupId + 1;
    }
  }

  /** Deleting rows keeps both constraints and the id bound. */
  lemma RemoveMembershipProps(ms: seq<Membership>, id: int)
    requires UniqueIds(ms) && UniquePairs(ms)
    ensures UniqueIds(RemoveMembership(ms, id)) && UniquePairs(RemoveMembership(ms, id))
    ensures forall next: nat :: IdsBelow(ms, next) ==> IdsBelow(RemoveMembership(ms, id), next)
  {
    var r := RemoveMembership(ms, id);
    RemovePairwise(ms, id, (a: Membership, b: Membership) => a.id != b.id);
    RemovePairwise(ms, id, (a: Membership, b: Membership) => !IsPair(b, a.user, a.group));
    forall next: nat | IdsBelow(ms, next) ensures IdsBelow(r, next) {
      forall i | 0 <= i < |r| ensures r[i].id < next {
        assert r[i] in ms;
        var k :| 0 <= k < |ms| && ms[k] == r[i];
      }
    }
  }

  /** A relation that holds between every earlier and later row still
      holds after a deletion. */
  lemma {:induction false} RemovePairwise(ms: seq<Membership>, id: int, rel: (Membership, Membership) -> bool)
    requires forall i, j :: 0 <= i < j < |ms| ==> rel(ms[i], ms[j])
    ensures forall i, j :: 0 <= i < j < |RemoveMembership(ms, id)| ==>
      rel(RemoveMembership(ms, id)[i], RemoveMembership(ms, id)[j])
    decreases |ms|
  {
    if ms != [] {
      var t := ms[1..];
      forall i, j | 0 <= i < j < |t| ensures rel(t[i], t[j]) {
        assert t[i] == ms[i + 1] && t[j] == ms[j + 1];
      }
      RemovePairwise(t, id, rel);
      var rest := RemoveMembership(t, id);
      if ms[0].id != id {
        var r := [ms[0]] + rest;
        forall j | 0 <= j < |rest| ensures rel(ms[0], rest[j]) {
          assert rest[j] in t;
          var k :| 0 <= k < |t| && t[k] == rest[j];
          assert ms[k + 1] == t[k];
        }
        forall i, j | 0 <= i < j < |r| ensures rel(r[i], r[j]) {
          if i > 0 { assert r[i] == rest[i - 1] && r[j] == rest[j - 1]; }
          else { assert r[j] == rest[j - 1]; }
        }
      }
    }
  }

  /** The fields of a `create-event` request this model reads:
      whether the event serializer accepts the data, the optional
      `sectors`, `rows` and `seats_per_row`, and the `price_<sector>`
      fields by name. */
  datatype EventRequest = EventRequest(
    valid: bool,
    sectors: Option<seq<string>>,
    rows: Option<int>,
    seatsPerRow: Option<int>,
    fields: map<string, real>)

  /** The layout a request gets when it leaves the fields out. */
  const DefaultSectors: seq<string> := ["A", "B", "C"]
  const DefaultRows := 5
  const DefaultSeatsPerRow := 10
  /** A sector's seats cost this when the request has no price for it. */
  const DefaultPrice := 1000.0

  function RequestSectors(q: EventRequest): seq<string>
  {
    if q.sectors.Some? then q.sectors.value else DefaultSectors
  }

  function RequestRows(q: EventRequest): int
  {
    if q.rows.Some? then q.rows.value else DefaultRows
  }

  function RequestSeatsPerRow(q: EventRequest): int
  {
    if q.seatsPerRow.Some? then q.seatsPerRow.value else DefaultSeatsPerRow
  }

  /** The request's `price_<sector>`, 1000 when absent. */
  function SectorPrice(q: EventRequest, sector: string): real
  {
    var key := "price_" + sector;
    if key in q.fields then q.fields[key] else DefaultPrice
  }

  function EventSeat(sid: int, q: EventRequest, c: Coord): SeatRecord
  {
    SeatRecord(sid, c.sector, c.row, c.number, SectorPrice(q, c.sector), Available)
  }

  /** The seats the nested loops of `create_event` create for a grid of
      sectors `ss`, `rows` rows and `n` numbers per row, in order. */
  function LayoutSeats(sid: int, q: EventRequest, ss: seq<string>, rows: int, n: int): seq<SeatRecord>
  {
    var g := GridCoords(ss, rows, n);
    seq(|g|, i requires 0 <= i < |g| => EventSeat(sid, q, g[i]))
  }

  /** The seats of a request, with the layout fields or their defaults. */
  function EventSeats(sid: int, q: EventRequest): seq<SeatRecord>
  {
    LayoutSeats(sid, q, RequestSectors(q), RequestRows(q), RequestSeatsPerRow(q))
  }

  /** One seat per (sector, row, number) of the grid, all of the schema. */
  lemma LayoutSeatsLength(sid: int, q: EventRequest, ss: seq<string>, rows: int, n: int)
    ensures |LayoutSeats(sid, q, ss, rows, n)| == |ss| * (Clamp0(rows) * Clamp0(n))
    ensures forall i :: 0 <= i < |LayoutSeats(sid, q, ss, rows, n)| ==> LayoutSeats(sid, q, ss, rows, n)[i].schema == sid
  {
    GridLength(ss, rows, n);
  }

  /** The seats come in sector, row, number order, each an available
      seat of the schema priced by its sector's field. */
  lemma LayoutSeatAt(sid: int, q: EventRequest, ss: seq<string>, rows: int, n: int, i: int, r: int, k: int)
    requires 0 <= i < |ss| && 1 <= r <= rows && 0 <= k < n
    ensures GridIndex(i, r, k, rows, n) < |LayoutSeats(sid, q, ss, rows, n)|
    ensures LayoutSeats(sid, q, ss, rows, n)[GridIndex(i, r, k, rows, n)]
      == SeatRecord(sid, ss[i], r, k + 1, SectorPrice(q, ss[i]), Available)
  {
    var g := GridCoords(ss, rows, n);
    var idx := GridIndex(i, r, k, rows, n);
    GridAt(ss, rows, n, i, r, k);
    GridIndexNonNegative(i, r, k, rows, n);
    assert LayoutSeats(sid, q, ss, rows, n)[idx] == EventSeat(sid, q, g[idx]);
  }

  lemma GridIndexNonNegative(i: int, r: int, k: int, rows: int, n: int)
    requires 0 <= i && 1 <= r <= rows && 0 <= k < n
    ensures 0 <= GridIndex(i, r, k, rows, n)
  {
    MulMono(0, i, rows * n);
    MulMono(0, r - 1, n);
  }

  /** A record is created exactly when it is an available seat of the
      schema inside the grid carrying its sector's price. */
  lemma LayoutSeatsMember(sid: int, q: EventRequest, ss: seq<string>, rows: int, n: int, s: SeatRecord)
    ensures s in LayoutSeats(sid, q, ss, rows, n) <==>
      s.schema == sid && s.sector in ss && 1 <= s.row <= rows && 1 <= s.number <= n
      && s.price == SectorPrice(q, s.sector) && s.status == Available
  {
    var g := GridCoords(ss, rows, n);
    var rs := LayoutSeats(sid, q, ss, rows, n);
    GridMember(ss, rows, n, RecordCoord(s));
    if s in rs {
      var j :| 0 <= j < |rs| && rs[j] == s;
      assert s == EventSeat(sid, q, g[j]) && g[j] == RecordCoord(s);
    }
    if s.schema == sid && RecordCoord(s) in g && s.price == SectorPrice(q, s.sector) && s.status == Available {
      var j :| 0 <= j < |g| && g[j] == RecordCoord(s);
      assert rs[j] == s;
    }
  }

  /** A request with none of the layout fields creates A, B, C × 5 × 10. */
  lemma EventSeatsDefaults(sid: int, q: EventRequest)
    requires q.sectors.None? && q.rows.None? && q.seatsPerRow.None?
    ensures |EventSeats(sid, q)| == 150
    ensures RequestSectors(q) == ["A", "B", "C"] && RequestRows(q) == 5 && RequestSeatsPerRow(q) == 10
  {
    EventSeatsLength(sid, q);
    DefaultLayoutCount(|RequestSectors(q)|, RequestRows(q), RequestSeatsPerRow(q));
  }

  lemma DefaultLayoutCount(k: int, rows: int, n: int)
    requires k == 3 && rows == 5 && n == 10
    ensures k * (Clamp0(rows) * Clamp0(n)) == 150
  {
  }

  lemma EventSeatsLength(sid: int, q: EventRequest)
    ensures |EventSeats(sid, q)| == |RequestSectors(q)| * (Clamp0(RequestRows(q)) * Clamp0(RequestSeatsPerRow(q)))
  {
    LayoutSeatsLength(sid, q, RequestSectors(q), RequestRows(q), RequestSeatsPerRow(q));
  }

  /** The seat at `i` repeats the slot of an earlier one. */
  predicate Repeats(rs: seq<SeatRecord>, i: int)
    requires 0 <= i < |rs|
  {
    exists j :: 0 <= j < i && Slot(rs[j]) == Slot(rs[i])
  }

  predicate DistinctPrefix(rs: seq<SeatRecord>, n: int)
    requires 0 <= n <= |rs|
  {
    forall a, b :: 0 <= a < b < n ==> Slot(rs[a]) != Slot(rs[b])
  }

  function RepeatFrom(rs: seq<SeatRecord>, i: int): (k: int)
    requires 0 <= i <= |rs| && DistinctPrefix(rs, i)
    ensures i <= k <= |rs| && DistinctPrefix(rs, k)
    ensures k < |rs| ==> Repeats(rs, k)
    decreases |rs| - i
  {
    if i == |rs| || Repeats(rs, i) then i else RepeatFrom(rs, i + 1)
  }

  /** How many seats are created before one repeats an earlier seat's
      slot and the unique constraint raises. */
  function FirstRepeat(rs: seq<SeatRecord>): (k: int)
    ensures 0 <= k <= |rs| && DistinctPrefix(rs, k)
    ensures k < |rs| ==> Repeats(rs, k)
  {
    RepeatFrom(rs, 0)
  }

  /** With distinct sectors every seat is created. */
  lemma DistinctSectorsCreateAll(sid: int, q: EventRequest, ss: seq<string>, rows: int, n: int)
    requires NoDuplicates(ss)
    ensures FirstRepeat(LayoutSeats(sid, q, ss, rows, n)) == |LayoutSeats(sid, q, ss, rows, n)|
  {
    var rs := LayoutSeats(sid, q, ss, rows, n);
    var g := GridCoords(ss, rows, n);
    var k := FirstRepeat(rs);
    if k < |rs| {
      GridDistinct(ss, rows, n);
      assert false;
    }
  }

  lemma SectorStart(a: int, b: int, m: int)
    requires 0 <= a < b && m >= 1
    ensures a * m < b * m
  {
    MulMono(a + 1, b, m);
  }

  /** A repeated sector in a non-empty grid makes a seat creation fail. */
  lemma RepeatedSectorFails(sid: int, q: EventRequest, ss: seq<string>, rows: int, n: int)
    requires !NoDuplicates(ss) && rows >= 1 && n >= 1
    ensures FirstRepeat(LayoutSeats(sid, q, ss, rows, n)) < |LayoutSeats(sid, q, ss, rows, n)|
  {
    var rs := LayoutSeats(sid, q, ss, rows, n);
    var a, b :| 0 <= a < b < |ss| && ss[a] == ss[b];
    LayoutSeatAt(sid, q, ss, rows, n, a, 1, 0);
    LayoutSeatAt(sid, q, ss, rows, n, b, 1, 0);
    var x, y := GridIndex(a, 1, 0, rows, n), GridIndex(b, 1, 0, rows, n);
    assert x == a * (rows * n) && y == b * (rows * n);
    SectorStart(a, b, rows * n);
    assert Slot(rs[x]) == Slot(rs[y]);
    if FirstRepeat(rs) == |rs| {
      assert false;
    }
  }

  /** The store's state after the first `k` records of `rs` were created
      for the fresh schema `sid`: both constraints and the foreign key
      still hold. */
  lemma CreatePrefixValid(m0: map<nat, SeatRecord>, base: nat, rs: seq<SeatRecord>, k: int, sid: int, schemas: map<int, Schema>)
    requires 0 <= k <= |rs| && DistinctPrefix(rs, k)
    requires UniqueSlots(m0) && Linked(m0, schemas) && sid in schemas
    requires forall id :: id in m0 ==> id < base && m0[id].schema != sid
    requires forall i :: 0 <= i < |rs| ==> rs[i].schema == sid
    ensures UniqueSlots(Inserted(m0, base, rs[..k])) && Linked(Inserted(m0, base, rs[..k]), schemas)
    ensures forall id :: id in Inserted(m0, base, rs[..k]) ==> id < base + k
  {
    var p := rs[..k];
    InsertedBelow(m0, base, p);
    assert Insertable(m0, p);
    InsertedUnique(m0, base, p);
    InsertedLinked(m0, base, p, schemas);
  }

  /** The seat-creation loop of `create_event`: `Seat.objects.create`
      per record, in order, until one repeats an earlier record's slot
      and the unique constraint raises. */
  method CreateSeats(store: Store, rs: seq<SeatRecord>, sid: int) returns (ok: bool)
    requires store.Valid() && sid in store.schemas
    requires forall id :: id in store.seats ==> store.seats[id].schema != sid
    requires forall i :: 0 <= i < |rs| ==> rs[i].schema == sid
    modifies store
    ensures store.Valid()
    ensures store.seats == Inserted(old(store.seats), old(store.nextSeatId), rs[..FirstRepeat(rs)])
    ensures ok <==> FirstRepeat(rs) == |rs|
    ensures store.schemas == old(store.schemas) && store.tickets == old(store.tickets) && store.events == old(store.events)
  {
    var m0, base := store.seats, store.nextSeatId;
    assert Inserted(m0, base, rs[..0]) == m0;
    assert UniqueSlots(m0) && Linked(m0, store.schemas) && UniqueTickets(store.tickets);
    assert TicketsLinked(store.tickets, m0, store.events);
    var i := 0;
    while i < |rs|
      invariant 0 <= i <= |rs| && DistinctPrefix(rs, i)
      invariant RepeatFrom(rs, i) == FirstRepeat(rs)
      invariant store.seats == Inserted(m0, base, rs[..i]) && store.nextSeatId == base + i
      invariant store.schemas == old(store.schemas) && store.tickets == old(store.tickets) && store.events == old(store.events)
    {
      if Repeats(rs, i) {
        assert RepeatFrom(rs, i) == i;
        CreatePrefixValid(m0, base, rs, i, sid, store.schemas);
        return false;
      }
      assert RepeatFrom(rs, i + 1) == RepeatFrom(rs, i);
      InsertedSnoc(m0, base, rs[..i], rs[i]);
      assert rs[..i] + [rs[i]] == rs[..i + 1];
      store.Create(rs[i]);
      i := i + 1;
    }
    CreatePrefixValid(m0, base, rs, i, sid, store.schemas);
    assert rs[..i] == rs && RepeatFrom(rs, i) == i;
    ok := true;
  }

  /** `create_event`: invalid data answers 400 and creates nothing;
      otherwise the serializer saves the event under the fresh id
      `eventId`, then the event's schema is created, then its seats, stopping
      at the first seat that repeats an earlier one's slot and leaving
      what was created so far. */
  method CreateEvent(store: Store, q: EventRequest, eventId: int, sid: int, priceMin: real, priceMax: real)
    returns (resp: Response)
    requires store.Valid() && sid !in store.schemas && eventId !in store.events
    modifies store
    ensures store.Valid()
    ensures !q.valid ==> resp.BadRequest? && store.schemas == old(store.schemas) && store.seats == old(store.seats)
    ensures !q.valid ==> store.events == old(store.events)
    ensures q.valid ==> store.events == old(store.events) + {eventId}
    ensures q.valid ==> store.schemas == old(store.schemas)[sid := Schema(eventId, priceMin, priceMax)]
    ensures q.valid ==> store.seats == Inserted(old(store.seats), old(store.nextSeatId), EventSeats(sid, q)[..FirstRepeat(EventSeats(sid, q))])
    ensures q.valid ==> (resp == Created(|EventSeats(sid, q)|) <==> FirstRepeat(EventSeats(sid, q)) == |EventSeats(sid, q)|)
    ensures q.valid && !resp.Created? ==> resp == ServerError
    ensures store.tickets == old(store.tickets)
  {
    if !q.valid {
      return BadRequest("invalid event");
    }
    store.events := store.events + {eventId};
    var rs := EventSeats(sid, q);
    LayoutSeatsLength(sid, q, RequestSectors(q), RequestRows(q), RequestSeatsPerRow(q));
    assert forall id :: id in store.seats ==> store.seats[id].schema != sid;
    store.schemas := store.schemas[sid := Schema(eventId, priceMin, priceMax)];
    var ok := CreateSeats(store, rs, sid);
    resp := if ok then Created(|rs|) else ServerError;
  }
}
