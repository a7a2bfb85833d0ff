/** The admin dashboard: how it reads the lists the API returns, the
    overview figures, which endpoint each create and delete goes to, the
    search boxes, the lookup of an event's seat schema, and the fields the
    event form sends. Lower-casing is a per-character map given as a
    parameter. */
module AdminDashboard {
  import opened Common
  import opened Text

  // ---------------------------------------------------------------------
  // Reading a response as a list

  /** A fetched response as the page sees it: nothing yet or a falsy
      value, an array, an object with a `results` key, or any other
      truthy value (an object without `results`). */
  datatype Payload<T> = Absent | Array(items: seq<T>) | Page(results: Payload<T>) | Other

  /** `x?.results || x || []`, the reading of most lists. */
  function Loose<T>(x: Payload<T>): Payload<T>
  {
    if x.Page? && !x.results.Absent? then x.results
    else if !x.Absent? then x
    else Array([])
  }

  /** `Array.isArray(x?.results) ? x.results : (Array.isArray(x) ? x : [])`,
      the reading of bookings and time slots. */
  function Strict<T>(x: Payload<T>): (r: Payload<T>)
    ensures r.Array?
  {
    if x.Page? && x.results.Array? then x.results
    else if x.Array? then x
    else Array([])
  }

  /** `memberships || []`. */
  function OrEmpty<T>(x: Payload<T>): Payload<T>
  {
    if x.Absent? then Array([]) else x
  }

  /** An array, or a page holding one, reads as that array either way;
      nothing yet reads as the empty list. */
  lemma NormaliseArrays<T>(s: seq<T>)
    ensures Loose(Array(s)) == Array(s) && Loose(Page(Array(s))) == Array(s)
    ensures Strict(Array(s)) == Array(s) && Strict(Page(Array(s))) == Array(s)
    ensures Loose<T>(Absent) == Array([]) && Strict<T>(Absent) == Array([]) && OrEmpty<T>(Absent) == Array([])
    ensures OrEmpty(Array(s)) == Array(s)
  {
  }

  /** The strict reading is always a list, and it agrees with the loose
      one exactly when the loose one is a list; the loose one passes a
      non-list through. */
  lemma LooseAgreesWhenList<T>(x: Payload<T>)
    ensures Loose(x).Array? <==> Strict(x) == Loose(x)
    ensures x.Other? ==> Loose(x) == Other
    ensures x == Page(Absent) ==> Loose(x) == x
  {
  }

  // ---------------------------------------------------------------------
  // The overview figures

  datatype AdminEvent = AdminEvent(id: int, title: string)

  datatype AdminSection = AdminSection(id: int, name: string)

  datatype AdminUser = AdminUser(id: int, username: string, email: string)

  /** A ticket and its seat's price as `Number` reads it: `None` when the
      seat or its price is missing or the text is not a number. */
  datatype Ticket = Ticket(id: int, seatPrice: Option<real>)

  /** A section request or an ice booking: only its status matters here. */
  datatype StatusRecord = StatusRecord(id: int, status: string)

  /** `Number(t.seat_info?.price) || 0`. */
  function PriceOrZero(t: Ticket): real
  {
    if t.seatPrice.Some? then t.seatPrice.value else 0.0
  }

  /** The `reduce` that adds up the ticket prices, left to right. */
  function Revenue(tickets: seq<Ticket>): real
  {
    if tickets == [] then 0.0 else Revenue(tickets[..|tickets| - 1]) + PriceOrZero(tickets[|tickets| - 1])
  }

  predicate HasPrice(t: Ticket) { t.seatPrice.Some? }

  lemma {:induction false} RevenueAppend(a: seq<Ticket>, b: seq<Ticket>)
    ensures Revenue(a + b) == Revenue(a) + Revenue(b)
    decreases |b|
  {
    if b == [] {
      assert a + b == a;
    } else {
      assert (a + b)[..|a + b| - 1] == a + b[..|b| - 1];
      RevenueAppend(a, b[..|b| - 1]);
    }
  }

  /** Tickets without a readable price add nothing: the revenue is that
      of the priced tickets alone. */
  lemma {:induction false} RevenueOfPriced(tickets: seq<Ticket>)
    ensures Revenue(tickets) == Revenue(Filter(tickets, HasPrice))
    decreases |tickets|
  {
    if tickets != [] {
      var init := tickets[..|tickets| - 1];
      var x := tickets[|tickets| - 1];
      RevenueOfPriced(init);
      if HasPrice(x) {
        RevenueAppend(Filter(init, HasPrice), [x]);
        assert Revenue([x]) == Revenue([]) + PriceOrZero(x);
      }
    }
  }

  /** With no negative prices the revenue is not negative, and it is at
      least the price of each priced ticket. */
  lemma {:induction false} RevenueBounds(tickets: seq<Ticket>, i: int)
    requires forall k :: 0 <= k < |tickets| ==> PriceOrZero(tickets[k]) >= 0.0
    requires 0 <= i < |tickets|
    ensures Revenue(tickets) >= PriceOrZero(tickets[i]) >= 0.0
    decreases |tickets|
  {
    var init := tickets[..|tickets| - 1];
    if i < |tickets| - 1 {
      assert init[i] == tickets[i];
      RevenueBounds(init, i);
    } else if init != [] {
      RevenueBounds(init, 0);
    }
  }

  predicate IsPending(r: StatusRecord) { r.status == "pending" }

  /** `filter(r => r.status === 'pending').length`. */
  function PendingCount(records: seq<StatusRecord>): nat
  {
    |Filter(records, IsPending)|
  }

  /** The count adds up over concatenation. */
  lemma PendingCountAppend(records: seq<StatusRecord>, more: seq<StatusRecord>)
    ensures PendingCount(records + more) == PendingCount(records) + PendingCount(more)
  {
    FilterAppend(records, more, IsPending);
  }

  /** The count is zero exactly when no record is pending. */
  lemma PendingCountZero(records: seq<StatusRecord>)
    ensures PendingCount(records) == 0 <==> forall k :: 0 <= k < |records| ==> records[k].status != "pending"
  {
    var f := Filter(records, IsPending);
    if f != [] {
      assert f[0] in records && IsPending(f[0]);
      var k :| 0 <= k < |records| && records[k] == f[0];
    }
    forall k | 0 <= k < |records| && records[k].status == "pending" ensures f != [] {
      assert records[k] in f;
    }
  }

  /** The count is at most the length, and the whole length exactly when
      every record is pending. */
  lemma PendingCountAll(records: seq<StatusRecord>)
    ensures PendingCount(records) <= |records|
    ensures PendingCount(records) == |records| <==> forall k :: 0 <= k < |records| ==> records[k].status == "pending"
  {
    if forall k :: 0 <= k < |records| ==> records[k].status == "pending" {
      FilterAll(records, IsPending);
    } else {
      var k :| 0 <= k < |records| && records[k].status != "pending";
      FilterShorter(records, IsPending, k);
    }
  }

  datatype Stats = Stats(totalEvents: nat, totalUsers: nat, totalTickets: nat, totalRevenue: real,
                         pendingRequests: nat, pendingBookings: nat)

  /** `stats`, from the lists as read above. */
  function ComputeStats(events: seq<AdminEvent>, users: seq<AdminUser>, tickets: seq<Ticket>,
                        requests: seq<StatusRecord>, bookings: seq<StatusRecord>): Stats
  {
    Stats(|events|, |users|, |tickets|, Revenue(tickets), PendingCount(requests), PendingCount(bookings))
  }

  /** The figures count the lists, add up the readable prices, and never
      report more pending records than there are. */
  lemma StatsSpec(events: seq<AdminEvent>, users: seq<AdminUser>, tickets: seq<Ticket>,
                  requests: seq<StatusRecord>, bookings: seq<StatusRecord>)
    ensures ComputeStats(events, users, tickets, requests, bookings).totalRevenue == Revenue(Filter(tickets, HasPrice))
    ensures ComputeStats(events, users, tickets, requests, bookings).pendingRequests <= |requests|
    ensures ComputeStats(events, users, tickets, requests, bookings).pendingBookings <= |bookings|
    ensures ComputeStats(events, users, tickets, requests, bookings).totalTickets == |tickets|
  {
    RevenueOfPriced(tickets);
    PendingCountAll(requests);
    PendingCountAll(bookings);
  }

  // ---------------------------------------------------------------------
  // Endpoints

  /** A request's path, and whether it is sent as multipart form data. */
  datatype Route = Route(path: string, multipart: bool)

  const CreatePrefix := "/users/admin/create-"

  /** `createMutation`: the endpoint for each kind of record. */
  function CreateRoute(kind: string): Route
  {
    if kind == "membership" then Route("/users/admin/add-user-to-group/", false)
    else if kind == "group" then Route("/sections/groups/", false)
    else if kind == "schedule" then Route("/sections/schedules/", false)
    else if kind == "section" then Route("/sections/sections/", true)
    else if kind == "timeslot" then Route("/bookings/timeslots/", false)
    else Route(CreatePrefix + kind + "/", false)
  }

  predicate KnownKind(kind: string)
  {
    kind in {"membership", "group", "schedule", "section", "timeslot"}
  }

  /** Only sections go as multipart data; any kind without its own
      endpoint goes to the admin `create-<kind>` endpoint. */
  lemma CreateRouteSpec(kind: string)
    ensures CreateRoute(kind).multipart <==> kind == "section"
    ensures !KnownKind(kind) ==> CreateRoute(kind).path == CreatePrefix + kind + "/"
    ensures KnownKind(kind) ==> !(CreatePrefix <= CreateRoute(kind).path)
  {
    var p := CreateRoute(kind).path;
    if KnownKind(kind) {
      if kind == "membership" {
        assert p[13] != CreatePrefix[13];
      } else {
        assert p[1] != CreatePrefix[1];
      }
    }
  }

  /** Different kinds never reach the same endpoint. */
  lemma CreateRouteInjective(k1: string, k2: string)
    requires CreateRoute(k1).path == CreateRoute(k2).path
    ensures k1 == k2
  {
    CreateRouteSpec(k1);
    CreateRouteSpec(k2);
    var p := CreateRoute(k1).path;
    if !KnownKind(k1) && !KnownKind(k2) {
      assert |k1| == |k2|;
      assert k1 == p[|CreatePrefix|..|CreatePrefix| + |k1|];
      assert k2 == p[|CreatePrefix|..|CreatePrefix| + |k2|];
    }
  }

  /** `/<endpoint>/<id>/`, the path of one record; `updateMutation`
      patches it. */
  function RecordPath(endpoint: string, id: nat): string
  {
    "/" + endpoint + "/" + NatToString(id) + "/"
  }

  /** `deleteMutation`. */
  function DeletePath(endpoint: string, id: nat): string
  {
    if endpoint == "users/admin/memberships" then "/users/admin/remove-from-group/" + NatToString(id) + "/"
    else if endpoint == "sections/groups" then "/sections/groups/" + NatToString(id) + "/"
    else if endpoint == "sections/schedules" then "/sections/schedules/" + NatToString(id) + "/"
    else RecordPath(endpoint, id)
  }

  /** A membership is deleted through `remove-from-group`; every other
      record, groups and schedules included, at its own path. */
  lemma DeletePathSpec(endpoint: string, id: nat)
    ensures endpoint == "users/admin/memberships" ==>
      DeletePath(endpoint, id) == "/users/admin/remove-from-group/" + NatToString(id) + "/"
    ensures endpoint != "users/admin/memberships" ==> DeletePath(endpoint, id) == RecordPath(endpoint, id)
  {
    var n := NatToString(id);
    if endpoint == "sections/groups" {
      assert "/" + endpoint + "/" == "/sections/groups/";
      assert RecordPath(endpoint, id) == "/" + endpoint + "/" + n + "/";
    } else if endpoint == "sections/schedules" {
      assert "/" + endpoint + "/" == "/sections/schedules/";
      assert RecordPath(endpoint, id) == "/" + endpoint + "/" + n + "/";
    }
  }

  // ---------------------------------------------------------------------
  // Search boxes

  function EventsMatching(events: seq<AdminEvent>, query: string, lower: char -> char): seq<AdminEvent>
  {
    Filter(events, (e: AdminEvent) => IncludesIgnoringCase(e.title, query, lower))
  }

  function SectionsMatching(sections: seq<AdminSection>, query: string, lower: char -> char): seq<AdminSection>
  {
    Filter(sections, (s: AdminSection) => IncludesIgnoringCase(s.name, query, lower))
  }

  function UsersMatching(users: seq<AdminUser>, query: string, lower: char -> char): seq<AdminUser>
  {
    Filter(users, (u: AdminUser) => IncludesIgnoringCase(u.username, query, lower) || IncludesIgnoringCase(u.email, query, lower))
  }

  /** Each box keeps, in order, the records whose title, name, or user
      name or e-mail contains the query, ignoring case. */
  lemma SearchSpec(events: seq<AdminEvent>, sections: seq<AdminSection>, users: seq<AdminUser>, query: string, lower: char -> char)
    ensures forall e :: e in EventsMatching(events, query, lower) <==> e in events && IncludesIgnoringCase(e.title, query, lower)
    ensures forall s :: s in SectionsMatching(sections, query, lower) <==> s in sections && IncludesIgnoringCase(s.name, query, lower)
    ensures forall u :: u in UsersMatching(users, query, lower) <==>
      u in users && (IncludesIgnoringCase(u.username, query, lower) || IncludesIgnoringCase(u.email, query, lower))
  {
  }

  lemma EmptyQueryIncludes(s: string, lower: char -> char)
    ensures IncludesIgnoringCase(s, "", lower)
  {
    assert MapChars("", lower) == "";
    ContainsEmpty(MapChars(s, lower));
  }

  /** An empty search box shows every record. */
  lemma EmptySearchKeepsAll(events: seq<AdminEvent>, sections: seq<AdminSection>, users: seq<AdminUser>, lower: char -> char)
    ensures EventsMatching(events, "", lower) == events
    ensures SectionsMatching(sections, "", lower) == sections
    ensures UsersMatching(users, "", lower) == users
  {
    forall k | 0 <= k < |events| ensures IncludesIgnoringCase(events[k].title, "", lower) {
      EmptyQueryIncludes(events[k].title, lower);
    }
    FilterAll(events, (e: AdminEvent) => IncludesIgnoringCase(e.title, "", lower));
    forall k | 0 <= k < |sections| ensures IncludesIgnoringCase(sections[k].name, "", lower) {
      EmptyQueryIncludes(sections[k].name, lower);
    }
    FilterAll(sections, (s: AdminSection) => IncludesIgnoringCase(s.name, "", lower));
    forall k | 0 <= k < |users| ensures IncludesIgnoringCase(users[k].username, "", lower) {
      EmptyQueryIncludes(users[k].username, lower);
    }
    FilterAll(users, (u: AdminUser) => IncludesIgnoringCase(u.username, "", lower) || IncludesIgnoringCase(u.email, "", lower));
  }

  // ---------------------------------------------------------------------
  // An event's seat schema

  datatype SchemaRow = SchemaRow(id: int, event: int)

  /** `find(s => s.event === event.id)`. */
  function FindSchema(schemas: seq<SchemaRow>, event: int): (r: Option<SchemaRow>)
    ensures r.None? <==> forall k :: 0 <= k < |schemas| ==> schemas[k].event != event
    ensures r.Some? ==> exists k :: (0 <= k < |schemas| && schemas[k] == r.value && r.value.event == event
      && forall j :: 0 <= j < k ==> schemas[j].event != event)
  {
    if schemas == [] then None
    else if schemas[0].event == event then Some(schemas[0])
    else
      var r := FindSchema(schemas[1..], event);
      assert forall k :: 1 <= k < |schemas| ==> schemas[k] == schemas[1..][k - 1];
      r
  }

  /** With one schema per event, as the store keeps them, the lookup
      finds that schema. */
  lemma FindSchemaUnique(schemas: seq<SchemaRow>, event: int, s: SchemaRow)
    requires forall i, j :: 0 <= i < j < |schemas| ==> schemas[i].event != schemas[j].event
    requires s in schemas && s.event == event
    ensures FindSchema(schemas, event) == Some(s)
  {
    var i :| 0 <= i < |schemas| && schemas[i] == s;
    var r := FindSchema(schemas, event);
    var k :| 0 <= k < |schemas| && schemas[k] == r.value && r.value.event == event
      && forall j :: 0 <= j < k ==> schemas[j].event != event;
    if k < i {
      assert schemas[k].event != schemas[i].event;
    }
  }

  // ---------------------------------------------------------------------
  // The event form

  /** A form value: `undefined`, `null` or a text (what an input holds). */
  datatype FieldValue = Undefined | Null | Str(s: string)

  /** The image field: nothing, a chosen file, or anything else (such as
      the URL of the current image when editing). */
  datatype ImageValue = NoImage | FileValue(name: string) | NotFile

  /** The `is_active` field: unset, a boolean, or anything else. */
  datatype ActiveValue = ActiveUnset | ActiveBool(b: bool) | ActiveOther

  /** One entry appended to the `FormData`. */
  datatype Part = TextPart(key: string, text: string) | FilePart(key: string, file: string)

  const FieldsToSend: seq<string> := ["title", "description", "event_type", "date", "price_min", "price_max"]

  function Lookup(data: map<string, FieldValue>, key: string): FieldValue
  {
    if key in data then data[key] else Undefined
  }

  /** Not `null`, not `undefined` and not ''. */
  predicate Sendable(v: FieldValue)
  {
    v.Str? && v.s != ""
  }

  /** The entries the `forEach` over `keys` appends. */
  function ListedParts(keys: seq<string>, data: map<string, FieldValue>): (r: seq<Part>)
    ensures forall p :: p in r ==> p.TextPart? && p.key in keys && Lookup(data, p.key) == Str(p.text) && p.text != ""
    ensures forall k :: k in keys && Sendable(Lookup(data, k)) ==> TextPart(k, Lookup(data, k).s) in r
    ensures |r| <= |keys|
  {
    if keys == [] then []
    else
      var init := ListedParts(keys[..|keys| - 1], data);
      var k := keys[|keys| - 1];
      assert keys == keys[..|keys| - 1] + [k];
      if Sendable(Lookup(data, k)) then init + [TextPart(k, Lookup(data, k).s)] else init
  }

  /** The text sent for `is_active`. */
  function ActiveText(v: ActiveValue): string
  {
    if v == ActiveBool(false) then "false" else "true"
  }

  /** The whole body the event form sends. */
  function EventFormParts(data: map<string, FieldValue>, image: ImageValue, active: ActiveValue): seq<Part>
  {
    ListedParts(FieldsToSend, data)
    + (if image.FileValue? then [FilePart("image", image.name)] else [])
    + [TextPart("is_active", ActiveText(active))]
  }

  /** The form's submit handler building the body. */
  method BuildEventForm(data: map<string, FieldValue>, image: ImageValue, active: ActiveValue) returns (form: seq<Part>)
    ensures form == EventFormParts(data, image, active)
  {
    form := [];
    var i := 0;
    while i < |FieldsToSend|
      invariant 0 <= i <= |FieldsToSend|
      invariant form == ListedParts(FieldsToSend[..i], data)
    {
      var key := FieldsToSend[i];
      var v := Lookup(data, key);
      assert FieldsToSend[..i + 1][..i] == FieldsToSend[..i];
      if v != Null && v != Undefined && v != Str("") {
        form := form + [TextPart(key, v.s)];
      }
      i := i + 1;
    }
    assert FieldsToSend[..i] == FieldsToSend;
    if image.FileValue? {
      form := form + [FilePart("image", image.name)];
    }
    form := form + [TextPart("is_active", ActiveText(active))];
  }

  /** A listed field is sent, with its text, exactly when it is neither
      null, undefined nor empty, and nothing else from the form data is
      sent; the image goes only as a file; `is_active` comes last, once,
      and is 'false' only for an explicit `false`. */
  lemma EventFormSpec(data: map<string, FieldValue>, image: ImageValue, active: ActiveValue)
    ensures forall k :: k in FieldsToSend && Sendable(Lookup(data, k)) ==>
      TextPart(k, Lookup(data, k).s) in EventFormParts(data, image, active)
    ensures forall k, t :: TextPart(k, t) in EventFormParts(data, image, active) && k != "is_active" ==>
      k in FieldsToSend && Lookup(data, k) == Str(t) && t != ""
    ensures forall n :: FilePart("image", n) in EventFormParts(data, image, active) <==> image == FileValue(n)
    ensures EventFormParts(data, image, active)[|EventFormParts(data, image, active)| - 1]
         == TextPart("is_active", ActiveText(active))
    ensures forall k :: 0 <= k < |EventFormParts(data, image, active)| - 1 ==> EventFormParts(data, image, active)[k].key != "is_active"
    ensures ActiveText(active) == "false" <==> active == ActiveBool(false)
  {
    var listed := ListedParts(FieldsToSend, data);
    var parts := EventFormParts(data, image, active);
    var img: seq<Part> := if image.FileValue? then [FilePart("image", image.name)] else [];
    assert parts == listed + img + [TextPart("is_active", ActiveText(active))];
    forall k | 0 <= k < |parts| - 1 ensures parts[k].key != "is_active" {
      if k < |listed| {
        assert parts[k] in listed;
      } else {
        assert parts[k] == img[k - |listed|];
      }
    }
    forall k, t | TextPart(k, t) in parts && k != "is_active"
      ensures k in FieldsToSend && Lookup(data, k) == Str(t) && t != ""
    {
      assert TextPart(k, t) in listed;
    }
    forall n ensures FilePart("image", n) in parts <==> image == FileValue(n) {
      if FilePart("image", n) in parts {
        assert FilePart("image", n) !in listed;
        assert FilePart("image", n) in img;
      }
    }
  }
}
