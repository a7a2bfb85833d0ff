/** The events list page: search by title or description, an optional
    upcoming-only filter, and a sort by date or by the lowest price.
    Dates are timestamps; "now" and lower-casing are parameters. */
module EventsPage {
  import opened Common
  import opened Text
  import opened Ordering

  datatype Event = Event(id: int, title: string, description: string, date: int, priceMin: real)

  datatype SortBy = ByDate | ByPrice

  /** The case-insensitive search: the query occurs in the title or in
      the description. */
  predicate Matches(e: Event, query: string, lower: char -> char)
  {
    IncludesIgnoringCase(e.title, query, lower) || IncludesIgnoringCase(e.description, query, lower)
  }

  function SortKey(sortBy: SortBy): Event -> real
  {
    if sortBy == ByDate then (e: Event) => e.date as real else (e: Event) => e.priceMin
  }

  /** The search step: an empty query keeps everything. */
  function Searched(events: seq<Event>, query: string, lower: char -> char): seq<Event>
  {
    if query != "" then Filter(events, (e: Event) => Matches(e, query, lower)) else events
  }

  /** The upcoming step. */
  function Upcoming(events: seq<Event>, upcoming: bool, now: int): seq<Event>
  {
    if upcoming then Filter(events, (e: Event) => e.date >= now) else events
  }

  /** `filteredEvents`: search, then the upcoming filter, then a stable
      sort of the copy. */
  function FilteredEvents(events: seq<Event>, query: string, upcoming: bool, now: int, sortBy: SortBy, lower: char -> char): seq<Event>
  {
    SortByKey(Upcoming(Searched(events, query, lower), upcoming, now), SortKey(sortBy))
  }

  /** The list holds exactly the events that match the query (all when
      it is empty) and, with the filter on, are not in the past; it is
      in ascending order of the chosen key, and each event appears as
      often as in the input. */
  lemma FilteredEventsSpec(events: seq<Event>, query: string, upcoming: bool, now: int, sortBy: SortBy, lower: char -> char)
    ensures SortedByKey(FilteredEvents(events, query, upcoming, now, sortBy, lower), SortKey(sortBy))
    ensures multiset(FilteredEvents(events, query, upcoming, now, sortBy, lower))
         == multiset(Upcoming(Searched(events, query, lower), upcoming, now))
    ensures multiset(FilteredEvents(events, query, upcoming, now, sortBy, lower)) <= multiset(events)
    ensures forall e :: e in FilteredEvents(events, query, upcoming, now, sortBy, lower) <==>
      e in events && (query == "" || Matches(e, query, lower)) && (!upcoming || e.date >= now)
  {
    var f := Upcoming(Searched(events, query, lower), upcoming, now);
    SortByKeySpec(f, SortKey(sortBy));
    var r := FilteredEvents(events, query, upcoming, now, sortBy, lower);
    assert multiset(f) <= multiset(events);
    forall e ensures e in r <==> e in f {
      assert e in r <==> e in multiset(r);
    }
  }

  /** Sorting by date puts earlier events first; sorting by price puts
      cheaper ones first. */
  lemma SortOrder(events: seq<Event>, query: string, upcoming: bool, now: int, lower: char -> char, i: int, j: int)
    requires 0 <= i < j < |FilteredEvents(events, query, upcoming, now, ByDate, lower)|
    ensures FilteredEvents(events, query, upcoming, now, ByDate, lower)[i].date <= FilteredEvents(events, query, upcoming, now, ByDate, lower)[j].date
  {
    FilteredEventsSpec(events, query, upcoming, now, ByDate, lower);
  }

  lemma SortOrderPrice(events: seq<Event>, query: string, upcoming: bool, now: int, lower: char -> char, i: int, j: int)
    requires 0 <= i < j < |FilteredEvents(events, query, upcoming, now, ByPrice, lower)|
    ensures FilteredEvents(events, query, upcoming, now, ByPrice, lower)[i].priceMin <= FilteredEvents(events, query, upcoming, now, ByPrice, lower)[j].priceMin
  {
    FilteredEventsSpec(events, query, upcoming, now, ByPrice, lower);
  }
}
