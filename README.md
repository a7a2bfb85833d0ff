# ArenaIce in Dafny

A verified model of the logic of ArenaIce, an ice-arena platform with event ticketing and seat selection, section enrolment, ice-time rental and an admin back office. Both the React front end and the Django back end are covered. Network calls, rendering and the database engine are not modelled. Each table is a sequence or map of records, each piece of React state is a class field, and each handler is a method or function over them. Prices are exact `real` values. Times are minutes since midnight. Weekdays, "now" and the Unicode case maps are parameters.

One Dafny module corresponds to each core source file:

| module | file | models |
|---|---|---|
| `SeatLayout`, `SeatBuilder` | `seat_layout.dfy`, `seat_builder.dfy` | the seat-layout editor: the draft map from `sector-row-number` keys to zone indices, the zone list, the undo/redo history, brush/eraser/fill-sector painting, loading a layout from seat records and saving it as one record per coordinate |
| `SeatMap`, `EventDetail` | `seat_map.dfy`, `event_detail.dfy` | the seat-map viewer (grouping, ordering, price tiers, colours, click gating) and the event page's selection, total and purchase |
| `SeatStore` | `seat_store.dfy` | the back end's seat table: hall generators (view set and Django admin), bulk delete/create, clearing, ticket purchase, visibility rules |
| `AdminApi` | `admin_api.dfy` | memberships (`get_or_create`, removal), group creation, event creation with its seat grid |
| `IceRental`, `BookingSerializer`, `BookingUpdate`, `Timeslots` | `ice_rental.dfy`, `booking_serializer.dfy`, `booking_update.dfy`, `timeslots.dfy` | slot availability on a date, the booking endpoint's rules, booking validation, the staff update of a booking, the standard slot catalogue |
| `SectionsRules` | `sections_rules.dfy` | querysets and permissions of the sections API, and the staff update of a section request |
| `ContactFields` | `contact_fields.dfy` | the name, phone and message fields the booking and section-request serializers build: stripping, blank and length rules, then the project's validators |
| `FormValidators`, `CoreValidators` | `form_validators.dfy`, `core_validators.dfy` | the front-end and back-end field validators, first-error field validation, the per-form error map |
| `EmailInput`, `NameInput` | `email_input.dfy`, `name_input.dfy` | email-domain completion and word capitalisation |
| `EventsPage`, `BookingPage`, `AdminDashboard`, `AuthStore` | `events_page.dfy`, `booking_page.dfy`, `admin_dashboard.dfy`, `auth_store.dfy` | the events list filter and sort, the booking form, the admin dashboard's derived data and routing, the session store |
| `Common`, `Text`, `Ordering` | `text.dfy`, `ordering.dfy` | `Option`, filtering, trimming, splitting and joining, number printing, stable sorting by key and distinct sorted lists |

In a few places the code behaves otherwise than its names, comments or user interface suggest. The model follows the code:

- A plain click in the seat editor commits two identical history entries, not one. The mouse-down handler still sees `isDragging` as false, and mouse-up commits again (`SeatBuilder.ClickCommitsTwice`).
- The editor has a third tool, `fill`, which does nothing when a cell is clicked (`SeatBuilder.Paint`).
- Removing a zone neither remaps the cell indices nor is blocked while cells use the zone. The indices are left to dangle (`SeatBuilder.RemoveZoneCanDangle`). When a drawn cell keeps a dangling index, the editor's render throws in `getCellColor` (`frontend/src/widgets/seat-builder/ui/index.tsx:148`) before Save can be pressed. The save would skip the bulk create for exactly such grids (`SeatBuilder.SaveFailsOnlyWhereRenderThrows`, `SeatLayout.BuildRecordsSomeIff`).
- The booking serializer's `validate` says it skips its rules only when the status alone is updated. It actually skips them whenever the date or either time is missing. A staff PATCH that sends only a new end time is saved at any length (`BookingUpdate.PatchEndUnchecked`).
- The back end is part of the model: the seat store, membership and event admin, ice rental, sections and validators.

Each method is proved against a specification function. The `ensures` clauses of the pure functions and lemmas state what the source promises: for example the undo/redo laws, the save→load round trip, the permutation and order of every sort, and the exact blocking rule of each slot.

## Model

| member | source | states |
|---|---|---|
| SeatLayout.KeyInjective | frontend/src/widgets/seat-builder/ui/index.tsx:119 | for rows and numbers >= 0, two cells with the same `sector-row-number` key are the same coordinate, so keying the draft by coordinate loses nothing |
| SeatLayout.KeyCollidesForNegativeRows | frontend/src/widgets/seat-builder/ui/index.tsx:119 | with a negative row the key is ambiguous: ("A", -1, 2) and ("A-", 1, 2) share the key `A--1-2` |
| SeatLayout.GridLength | frontend/src/widgets/seat-builder/ui/index.tsx:342-344 | the save loops visit exactly \|sectors\|·rows·seatsPerRow coordinates (a non-positive bound counts as 0) |
| SeatLayout.GridAt | frontend/src/widgets/seat-builder/ui/index.tsx:342-345 | sector i, row r, number k+1 is visited at position i·rows·n + (r−1)·n + k: sectors in list order, then rows, then numbers, each ascending |
| SeatLayout.GridMember | frontend/src/widgets/seat-builder/ui/index.tsx:342-344 | a coordinate is visited iff its sector is listed, 1 <= row <= rows and 1 <= number <= seatsPerRow |
| SeatLayout.GridDistinct | frontend/src/widgets/seat-builder/ui/index.tsx:342-344 | with pairwise distinct sectors no coordinate is visited twice |
| SeatLayout.BuildRecordsSomeIff | frontend/src/widgets/seat-builder/ui/index.tsx:346-347 | the loop produces a record list exactly when every painted visited key holds the index of an existing zone (otherwise `priceZones[...]` is undefined and reading `.price` throws) |
| SeatLayout.BuildRecordsAt | frontend/src/widgets/seat-builder/ui/index.tsx:345-350 | one record per visited coordinate, in visiting order: a painted key gets its zone's price and `available`, any other coordinate price 0 and `sold` |
| SeatLayout.BuildRecordsNoneExtends | frontend/src/widgets/seat-builder/ui/index.tsx:346-347 | once the loop throws on a prefix of the coordinates it throws on the whole list |
| SeatLayout.SavePlanSpec | frontend/src/widgets/seat-builder/ui/index.tsx:339-355 | a save first asks for the schema's bulk delete; the bulk create follows iff the loop completes, with exactly \|sectors\|·rows·seatsPerRow records as above |
| SeatLayout.MaxRowSpec | frontend/src/widgets/seat-builder/ui/index.tsx:54 | the loaded row count is at least every seat's row and equals some seat's row |
| SeatLayout.MaxNumberSpec | frontend/src/widgets/seat-builder/ui/index.tsx:55 | the loaded seats per row is at least every seat's number and equals some seat's number |
| SeatLayout.PositiveAvailablePricesSpec | frontend/src/widgets/seat-builder/ui/index.tsx:61-62 | a price is collected iff some `available` seat has it and it is > 0 |
| SeatLayout.ZonePricesSpec | frontend/src/widgets/seat-builder/ui/index.tsx:62 | the loaded zone prices are strictly descending (so distinct) and are exactly the positive prices of available seats |
| SeatLayout.ZonesFor | frontend/src/widgets/seat-builder/ui/index.tsx:65-69 | one zone per loaded price, in order, carrying that price and colour number i mod 12 |
| SeatLayout.LoadCellsDomain | frontend/src/widgets/seat-builder/ui/index.tsx:72-79 | a key is loaded iff some available seat with that key has a price among the zone prices; reserved and sold seats load unassigned |
| SeatLayout.LoadCellsValue | frontend/src/widgets/seat-builder/ui/index.tsx:73-78 | a loaded key holds the index of its seat's price in the zone prices |
| SeatLayout.LoadCellsUnique | backend/events/models.py:52 | when (sector, row, number) is unique among the records, every available seat with a zone price is loaded at its own key with its own price's index |
| SeatLayout.RoundTripSectors | frontend/src/widgets/seat-builder/ui/index.tsx:53 | reloading a saved layout gives the sorted distinct sectors it was saved with |
| SeatLayout.RoundTripDimensions | frontend/src/widgets/seat-builder/ui/index.tsx:54-55 | reloading a saved layout gives back its rows and seats per row |
| SeatLayout.RoundTripCells | frontend/src/widgets/seat-builder/ui/index.tsx:61-79 | when every painted zone price is positive, reloading marks exactly the painted in-bound keys, and each one's zone has the price it was saved with |
| SeatLayout.SaveLoadRoundTrip | frontend/src/widgets/seat-builder/ui/index.tsx:52-83 | save then load: a completed save of a non-empty layout with positive zone prices reloads to the same sectors (sorted, distinct), rows, seats per row and painted keys, each with its original price |
| SeatBuilder.Commit | frontend/src/widgets/seat-builder/ui/index.tsx:97-102 | a commit keeps the history well formed: the cursor is -1 only for an empty history and otherwise points at an entry |
| SeatBuilder.CommitSpec | frontend/src/widgets/seat-builder/ui/index.tsx:97-102 | a commit keeps entries 0..cursor, appends the snapshot, drops the redo tail and moves the cursor to the new last entry, which becomes the live draft |
| SeatBuilder.RedoAfterCommitIsNoop | frontend/src/widgets/seat-builder/ui/index.tsx:111-116 | right after a commit there is nothing to redo |
| SeatBuilder.UndoRedoBounds | frontend/src/widgets/seat-builder/ui/index.tsx:104-116 | undo changes nothing at cursor <= 0 and redo changes nothing at the last entry |
| SeatBuilder.UndoRedoValid | frontend/src/widgets/seat-builder/ui/index.tsx:104-116 | undo and redo keep the entries, move the cursor by one when they can and restore that entry as the live draft |
| SeatBuilder.RedoUndoInverse | frontend/src/widgets/seat-builder/ui/index.tsx:104-116 | when the live draft is the current entry, redo right after undo restores the state exactly |
| SeatBuilder.UndoRedoInverse | frontend/src/widgets/seat-builder/ui/index.tsx:104-116 | when the live draft is the current entry, undo right after redo restores the state exactly |
| SeatBuilder.UndoAfterCommit | frontend/src/widgets/seat-builder/ui/index.tsx:97-109 | undo after a commit returns to the entry the cursor was on before it |
| SeatBuilder.UndoTimes | frontend/src/widgets/seat-builder/ui/index.tsx:104-109 | repeated undo keeps the history well formed and its entries unchanged |
| SeatBuilder.UndoTimesReachesStart | frontend/src/widgets/seat-builder/ui/index.tsx:104-109 | at least cursor-many undos reach entry 0 and restore it |
| SeatBuilder.UndoTimesAtStart | frontend/src/widgets/seat-builder/ui/index.tsx:104-109 | at entry 0 any number of undos changes nothing |
| SeatBuilder.ClickCommitsTwice | frontend/src/widgets/seat-builder/ui/index.tsx:308-310 | a plain click commits the same draft twice (mouse-down still sees `isDragging` false, mouse-up commits again), so one undo leaves the draft as it was |
| SeatBuilder.Paint | frontend/src/widgets/seat-builder/ui/index.tsx:118-126 | brush sets exactly the clicked key to the current zone, eraser removes exactly that key, the fill tool changes nothing; every other key is untouched |
| SeatBuilder.SetAllSpec | frontend/src/widgets/seat-builder/ui/index.tsx:135-140 | setting a list of keys to a zone: the keys become those of the draft plus the list, listed keys hold the zone, the others keep their values |
| SeatBuilder.FillSectorCells | frontend/src/widgets/seat-builder/ui/index.tsx:135-140 | the two nested loops set every (sector, row, seat) of the sector to the zone, as the reference definition over the sector's coordinates |
| SeatBuilder.FillRowCells | frontend/src/widgets/seat-builder/ui/index.tsx:137-139 | the inner loop sets every seat of one row to the zone, as the reference definition over the row's coordinates |
| SeatBuilder.FillSectorSpec | frontend/src/widgets/seat-builder/ui/index.tsx:134-143 | after a fill, the keys (sector, r, s) with 1 <= r <= rows and 1 <= s <= seatsPerRow hold the current zone and every other key is unchanged |
| SeatBuilder.ParseDimension | frontend/src/widgets/seat-builder/ui/index.tsx:222 | the row (or seat) count becomes the parsed integer when it is >= 1 and 1 otherwise, so it is always >= 1 |
| SeatBuilder.ParsePrice | frontend/src/widgets/seat-builder/ui/index.tsx:272 | a zone price becomes the parsed number, or 0 when the input does not parse |
| SeatBuilder.JsRound | frontend/src/widgets/seat-builder/ui/index.tsx:34 | `Math.round` gives the integer within half a unit of x, ties going up |
| SeatBuilder.NextSectorName | frontend/src/widgets/seat-builder/ui/index.tsx:231 | the added sector's name is the single character with code 65 + count; below 10 sectors that is a letter A..J |
| SeatBuilder.AddSectorCanDuplicate | frontend/src/widgets/seat-builder/ui/index.tsx:231 | the new name depends only on the count: after a load that gives the sectors ["B"], adding a sector gives ["B", "B"] |
| SeatBuilder.TemplateSizes | frontend/src/widgets/seat-builder/ui/index.tsx:151-155 | the small, medium and large templates lay out 100, 450 and 1200 coordinates |
| SeatBuilder.DefaultZones | frontend/src/widgets/seat-builder/ui/index.tsx:32-36 | the three initial zones are priced at the event maximum, the rounded midpoint and the minimum |
| SeatBuilder.NewZone | frontend/src/widgets/seat-builder/ui/index.tsx:252 | an added zone is priced at the event minimum and coloured by the zone count mod 12 |
| SeatBuilder.RemoveZoneCanDangle | frontend/src/widgets/seat-builder/ui/index.tsx:267 | removing a zone does not renumber the cells: a cell on zone 2 of three resolves before removing zone 0 and dangles after |
| SeatBuilder.DropZoneResolves | frontend/src/widgets/seat-builder/ui/index.tsx:266-267 | dropping a zone from a resolving history leaves it resolving exactly when no cell holds the old last index |
| SeatBuilder.LoadCellsResolve | frontend/src/widgets/seat-builder/ui/index.tsx:61-79 | the cells loaded from a seat list refer only to zones made from the same prices |
| SeatBuilder.SaveFailsOnlyWhereRenderThrows | frontend/src/widgets/seat-builder/ui/index.tsx:145-149 | the save skips the bulk create exactly when some drawn cell has no zone, which is where `getCellColor` throws during the render |
| SeatBuilder.CellColor | frontend/src/widgets/seat-builder/ui/index.tsx:145-149 | an unpainted cell is grey, a painted one has its zone's colour, and there is no colour (reading `.color` of undefined throws) exactly when the index is past the zone list |
| SeatBuilder.Editor.constructor | frontend/src/widgets/seat-builder/ui/index.tsx:28-43 | the initial state: sector A, 10 rows of 20 seats, an empty draft, the three default zones, the brush, an empty history with cursor -1 |
| SeatBuilder.Editor.CommitSnapshot | frontend/src/widgets/seat-builder/ui/index.tsx:97-102 | the editor's history and draft become the commit of the snapshot; nothing else changes |
| SeatBuilder.Editor.UndoStep | frontend/src/widgets/seat-builder/ui/index.tsx:104-109 | the editor's history and draft become the undo of the old ones; nothing else changes |
| SeatBuilder.Editor.RedoStep | frontend/src/widgets/seat-builder/ui/index.tsx:111-116 | the editor's history and draft become the redo of the old ones; nothing else changes |
| SeatBuilder.Editor.HandleCell | frontend/src/widgets/seat-builder/ui/index.tsx:118-132 | the draft becomes the painted one; it is committed only when not dragging |
| SeatBuilder.Editor.MouseDown | frontend/src/widgets/seat-builder/ui/index.tsx:308 | paints the cell as `handleCell` does, with the dragging flag as it was before the press, then sets the flag |
| SeatBuilder.Editor.MouseEnter | frontend/src/widgets/seat-builder/ui/index.tsx:309 | while dragging, paints the cell without a commit; otherwise nothing changes |
| SeatBuilder.Editor.MouseUp | frontend/src/widgets/seat-builder/ui/index.tsx:310 | while dragging, commits the current draft and clears the flag; otherwise nothing changes |
| SeatBuilder.Editor.Click | frontend/src/widgets/seat-builder/ui/index.tsx:308-310 | press and release on one cell commit the painted draft twice |
| SeatBuilder.Editor.FillSector | frontend/src/widgets/seat-builder/ui/index.tsx:134-143 | the draft becomes the sector filled with the current zone, committed once |
| SeatBuilder.Editor.Reset | frontend/src/widgets/seat-builder/ui/index.tsx:241 | the draft becomes empty and the empty draft is committed |
| SeatBuilder.Editor.SetRows | frontend/src/widgets/seat-builder/ui/index.tsx:222 | rows become the parsed value clamped to >= 1; nothing else changes |
| SeatBuilder.Editor.SetSeatsPerRow | frontend/src/widgets/seat-builder/ui/index.tsx:226 | seats per row become the parsed value clamped to >= 1; nothing else changes |
| SeatBuilder.Editor.AddSector | frontend/src/widgets/seat-builder/ui/index.tsx:231 | below 10 sectors the next letter is appended, at 10 nothing changes; the bounds 1..10 are kept |
| SeatBuilder.Editor.RemoveSector | frontend/src/widgets/seat-builder/ui/index.tsx:234 | with more than one sector the last is dropped, otherwise nothing changes; the bounds 1..10 are kept |
| SeatBuilder.Editor.ApplyTemplate | frontend/src/widgets/seat-builder/ui/index.tsx:204-208 | a template sets the sectors, rows and seats per row and leaves the draft and history alone |
| SeatBuilder.Editor.AddZone | frontend/src/widgets/seat-builder/ui/index.tsx:252 | appends a new zone and keeps every stored index in range |
| SeatBuilder.Editor.RemoveZone | frontend/src/widgets/seat-builder/ui/index.tsx:266-267 | with more than one zone, drops zone i and leaves the cell indices as they were; from a resolving state the result still resolves exactly when the zone selection is in range and no cell held the old last index |
| SeatBuilder.Editor.SetZoneName | frontend/src/widgets/seat-builder/ui/index.tsx:265 | renames zone i in place; nothing else changes |
| SeatBuilder.Editor.SetZonePrice | frontend/src/widgets/seat-builder/ui/index.tsx:272 | sets zone i's price to the parsed input, or 0; nothing else changes |
| SeatBuilder.Editor.SetZoneColor | frontend/src/widgets/seat-builder/ui/index.tsx:275 | sets zone i's colour; nothing else changes |
| SeatBuilder.Editor.SelectZone | frontend/src/widgets/seat-builder/ui/index.tsx:262 | zone i becomes the current zone |
| SeatBuilder.Editor.SetTool | frontend/src/widgets/seat-builder/ui/index.tsx:166-174 | the chosen tool becomes current |
| SeatBuilder.Editor.Load | frontend/src/widgets/seat-builder/ui/index.tsx:52-87 | an empty seat list only resets the history to one empty entry; otherwise the sectors are the distinct ones in JavaScript `sort()` order (UTF-16 code units) and the rows and seats per row the maxima, and when a positive available price exists the zones, draft and a one-entry history come from the loaded prices, while with none the zones, draft and history stay; after a load with prices every index resolves exactly when the zone selection is in range of the new zones |
| SeatBuilder.Editor.LoadLayout | frontend/src/widgets/seat-builder/ui/index.tsx:53-59 | sets the sectors (distinct, in UTF-16 code-unit order), rows and seats per row from a non-empty seat list |
| SeatBuilder.Editor.LoadZones | frontend/src/widgets/seat-builder/ui/index.tsx:65-82 | sets the zones and the draft from the prices and makes the draft the only history entry, cursor 0 |
| SeatBuilder.Editor.Save | frontend/src/widgets/seat-builder/ui/index.tsx:339-355 | the nested loops over sectors, rows and numbers send the requests of the save plan; in a state whose indices all resolve both requests are sent |
| SeatBuilder.SaveSector | frontend/src/widgets/seat-builder/ui/index.tsx:343-352 | the row and number loops for one sector extend the records exactly as the reference definition does |
| SeatBuilder.SaveRow | frontend/src/widgets/seat-builder/ui/index.tsx:344-351 | the number loop for one row extends the records exactly as the reference definition does |
| SeatBuilder.LoadedCells | frontend/src/widgets/seat-builder/ui/index.tsx:72-79 | the `forEach` over the available seats builds the loaded draft |
| SeatMap.BucketMultiset | frontend/src/widgets/seat-map/ui/index.tsx:19-24 | the bucket of (sector, row) holds each seat with that sector and row exactly as often as the list does, and no other seat: nothing is lost or duplicated |
| SeatMap.BucketMember | frontend/src/widgets/seat-map/ui/index.tsx:19-24 | every seat lands in the bucket of its own sector and row |
| SeatMap.GroupSectors | frontend/src/widgets/seat-map/ui/index.tsx:19-20 | the grouping has a sector key exactly for the sectors that occur among the seats |
| SeatMap.GroupBuckets | frontend/src/widgets/seat-map/ui/index.tsx:19-24 | the `reduce` has a row key under a sector exactly when that bucket is non-empty, and the key holds the bucket in list order |
| SeatMap.SectorOrderSpec | frontend/src/widgets/seat-map/ui/index.tsx:47 | sectors render in strictly ascending JavaScript `sort()` order, that is by UTF-16 code units, each sector of the grouping once |
| SeatMap.RowsInSpec | frontend/src/widgets/seat-map/ui/index.tsx:80 | a row number is listed for a sector exactly when that row's bucket is non-empty |
| SeatMap.RowOrderSpec | frontend/src/widgets/seat-map/ui/index.tsx:80-81 | the rows of a sector render in strictly ascending numeric order, each row key once |
| SeatMap.RowSeatsSpec | frontend/src/widgets/seat-map/ui/index.tsx:85-86 | a rendered row is ordered by seat number and holds exactly that row's seats, with their multiplicities |
| SeatMap.PositivePricesSpec | frontend/src/widgets/seat-map/ui/index.tsx:26 | a price is collected exactly when it is > 0 and some seat has it |
| SeatMap.PriceZonesSpec | frontend/src/widgets/seat-map/ui/index.tsx:46 | the price zones are strictly descending and are exactly the distinct positive seat prices |
| SeatMap.PriceColor | frontend/src/widgets/seat-map/ui/index.tsx:28-33 | a price in the zone list gets colour number (its index mod 5); any other price has none (`colors[-1]` is undefined) |
| SeatMap.LegendMatchesTier | frontend/src/widgets/seat-map/ui/index.tsx:110-112 | legend entry i has colour number i mod 5, the colour of every seat priced at zone i |
| SeatMap.SeatLook | frontend/src/widgets/seat-map/ui/index.tsx:35-44 | price 0 gives the blank cell; else a selected seat shows as chosen; else available shows its tier, reserved the reserved look, sold the sold look; the five cases are exclusive and each iff its condition |
| SeatMap.AvailableSeatHasTierColor | frontend/src/widgets/seat-map/ui/index.tsx:41 | an unselected available seat with a positive price always has a tier colour |
| SeatMap.OnClick | frontend/src/widgets/seat-map/ui/index.tsx:90 | a click selects the seat exactly when it is available with a price > 0 |
| SeatMap.ClickGating | frontend/src/widgets/seat-map/ui/index.tsx:90-91 | for prices >= 0 the button is disabled exactly when a click does nothing; an available seat with a negative price is enabled but ignores clicks |
| SeatMap.Label | frontend/src/widgets/seat-map/ui/index.tsx:95 | the seat shows its number exactly when it is selected or clickable |
| EventDetail.RemoveId | frontend/src/pages/event-detail/index.tsx:207 | the filter keeps exactly the selected seats whose id differs |
| EventDetail.RemoveIdIds | frontend/src/pages/event-detail/index.tsx:207 | after the filter, the selected ids are the old ones without the seat's id |
| EventDetail.RemoveIdDistinct | frontend/src/pages/event-detail/index.tsx:207 | the filter keeps the selected ids duplicate-free |
| EventDetail.ToggleSpec | frontend/src/pages/event-detail/index.tsx:205-211 | a selected id is removed (every seat with it); an unselected seat is appended; ids stay duplicate-free |
| EventDetail.RemoveIdAbsent | frontend/src/pages/event-detail/index.tsx:207 | filtering an id that is not selected changes nothing |
| EventDetail.ToggleTwice | frontend/src/pages/event-detail/index.tsx:205-211 | toggling an unselected seat twice restores the selection; toggling a selected one twice moves it to the end |
| EventDetail.TotalAppend | frontend/src/pages/event-detail/index.tsx:240 | the total grows by the seat's price when a seat is appended |
| EventDetail.TotalRemoveId | frontend/src/pages/event-detail/index.tsx:240 | removing an id lowers the total by the prices of the seats with that id |
| EventDetail.ToggleTotal | frontend/src/pages/event-detail/index.tsx:205-240 | selecting a seat adds its price to the total; deselecting subtracts the prices of the seats with its id |
| EventDetail.AvailableCount | frontend/src/pages/event-detail/index.tsx:67 | the available count never exceeds the seat count |
| EventDetail.AvailableCountAll | frontend/src/pages/event-detail/index.tsx:67-68 | the available count equals the total count exactly when every seat is available |
| EventDetail.SelectedSeat | frontend/src/pages/event-detail/index.tsx:203 | the map's single selected seat is the last selected one, or none for an empty selection |
| EventDetail.TicketRequests | frontend/src/pages/event-detail/index.tsx:35-39 | one ticket request per selected seat, in order, for this event and that seat's id |
| EventDetail.Purchase | frontend/src/pages/event-detail/index.tsx:253-262 | requests go out exactly when the selection is non-empty, the buyer is signed in, no purchase is pending and the event is not past; then they are one per seat |
| EventDetail.EventPage.constructor | frontend/src/pages/event-detail/index.tsx:18 | the page starts with an empty selection and no pending purchase |
| EventDetail.EventPage.SelectSeat | frontend/src/pages/event-detail/index.tsx:205-211 | the selection becomes its toggle by the clicked seat |
| EventDetail.EventPage.Cancel | frontend/src/pages/event-detail/index.tsx:247 | the cancel button empties the selection |
| EventDetail.EventPage.Buy | frontend/src/pages/event-detail/index.tsx:253-262 | sends the purchase requests, marks the purchase pending if any were sent, and keeps the selection |
| EventDetail.EventPage.PurchaseSucceeded | frontend/src/pages/event-detail/index.tsx:41-45 | success clears the selection and the pending flag |
| EventDetail.EventPage.PurchaseFailed | frontend/src/pages/event-detail/index.tsx:46-53 | failure keeps the selection and clears the pending flag |
| SeatStore.WithoutSpec | backend/events/views.py:46 | deleting a schema's seats leaves it none, leaves every other schema's seats as they were and keeps the slots unique |
| SeatStore.InsertedSpec | backend/events/views.py:53 | creating records under fresh ids adds exactly the records of a schema to that schema's seats |
| SeatStore.InsertedLinked | backend/events/models.py:44 | records whose schema exists keep every seat's schema reference valid |
| SeatStore.InsertedUnique | backend/events/models.py:52 | creating records whose slots are free and pairwise distinct keeps (schema, sector, row, number) unique |
| SeatStore.HallSeatsSpec | backend/events/views.py:48-53 | the generator loops emit \|sectors\|·rows·seats records, each the hall seat of its own coordinate, every in-hall coordinate once, with pairwise distinct slots |
| SeatStore.HallLength | backend/events/views.py:49-51 | a hall has \|sectors\|·rows·seatsPerRow seats |
| SeatStore.SmallHallSize | backend/events/views.py:48-55 | the small hall (A, B × rows 1–5 × numbers 1–10) has 100 seats |
| SeatStore.SmallHallTiers | backend/events/views.py:52 | in the small hall rows 1–2 cost price_max and the rest price_min |
| SeatStore.MediumHallSize | backend/events/views.py:62-74 | the medium hall (A–C × 1–10 × 1–15) has 450 seats |
| SeatStore.MediumHallTiers | backend/events/views.py:66-71 | in the medium hall rows 1–3 cost price_max, rows 4–7 the mean of min and max, the rest price_min |
| SeatStore.LargeHallSize | backend/events/views.py:81-93 | the large hall (A–D × 1–15 × 1–20) has 1200 seats |
| SeatStore.LargeHallTiers | backend/events/views.py:85-90 | in the large hall rows 1–5 cost price_max, rows 6–10 the mean, the rest price_min |
| SeatStore.HallPrice | backend/events/views.py:52-53 | every generated seat costs its row's tier price |
| SeatStore.HallSetSchema | backend/events/views.py:53 | every generated seat belongs to the schema being generated, and the set of them is that schema's hall |
| SeatStore.GenerateSpec | backend/events/views.py:46-53 | after delete-then-create the schema holds exactly its hall, other schemas are untouched, and schema links and slot uniqueness are kept |
| SeatStore.SectorsOfMember | backend/events/admin.py:58 | the listed sectors are exactly the sectors of the schema's seats |
| SeatStore.SectorsInfoSpec | backend/events/admin.py:57-59 | the sectors are shown sorted, strictly ascending, each present sector once, and the text depends only on which sectors occur |
| SeatStore.SeatInfoIsCellKey | backend/events/admin.py:177-178 | the ticket's seat text is the editor's `sector-row-number` key, and for non-negative rows and numbers it identifies the coordinate |
| SeatStore.InitialData | backend/events/admin.py:62-67 | the initial form data takes `event` from the query string when it is there and is otherwise unchanged |
| SeatStore.VisibleEvents | backend/events/views.py:19-22 | staff see every event; others see exactly the active ones |
| SeatStore.VisibleTickets | backend/events/views.py:144-147 | staff see every ticket; others see exactly their own |
| SeatStore.Reattach | backend/events/views.py:133-135 | every record is attached to the first record's schema and otherwise kept, in order |
| SeatStore.Counts | backend/events/admin.py:153 | the recorded count for each selected schema is its number of seats |
| SeatStore.ClearAllSpec | backend/events/admin.py:152-154 | after clearing, every selected schema has no seats and every other schema keeps its seats |
| SeatStore.ClearCount | backend/events/admin.py:151-156 | the seats left plus the reported total equal the seats before, for distinct selected schemas |
| SeatStore.SplitCount | backend/events/admin.py:153-155 | a schema's seats and the rest partition the table |
| SeatStore.Store.constructor | backend/events/models.py:44-52 | an empty seat table and ticket list over the given schemas and events |
| SeatStore.CascadeSpec | backend/events/models.py:65 | deleting seats keeps exactly the tickets whose seat remains, still unique per event and seat, and removes nothing when every seat remains |
| SeatStore.CascadeValid | backend/events/models.py:64-71 | after the cascade every ticket's seat and event exist and no event and seat pair repeats |
| SeatStore.CascadeWithout | backend/events/models.py:65 | deleting one more schema's seats after a cascade is the same as one cascade over the smaller table |
| SeatStore.Store.Create | backend/events/views.py:53 | one record is stored under the next fresh id |
| SeatStore.Store.CreateAll | backend/events/views.py:137 | the records are stored under consecutive fresh ids, in order |
| SeatStore.Store.DeleteSchema | backend/events/views.py:119 | exactly the schema's seats are deleted and the tickets on them removed by the cascade; seats, tickets and events stay linked and unique |
| SeatStore.Store.GenerateHall | backend/events/views.py:43-93 | an unknown schema gives 404 and no change; otherwise the schema's seats are replaced by exactly the hall, other schemas untouched, the tickets of the deleted seats removed by the cascade, all constraints kept |
| SeatStore.Store.AdminGenerate | backend/events/admin.py:76-147 | every selected schema ends with exactly the hall's seats; unselected schemas are untouched; exactly the tickets on seats that no longer exist are gone |
| SeatStore.Store.ClearAll | backend/events/admin.py:149-157 | the selected schemas' seats are deleted, the running total is the sum of their prior counts, and the tickets on those seats are removed by the cascade |
| SeatStore.Store.BulkDelete | backend/events/views.py:115-121 | no schema id gives 400 and removes nothing; otherwise exactly that schema's seats are removed, with their tickets |
| SeatStore.Store.BulkCreate | backend/events/views.py:123-138 | an empty list gives 400; otherwise the records, reattached to the first record's schema, are created exactly when that schema exists and their slots are free, and the count returned is the number of records; a failure changes nothing |
| SeatStore.Store.CreateTicket | backend/events/views.py:149-163 | a non-available seat gives 400 and no change; a missing seat, a missing or unknown event or an existing ticket for that event and seat gives a server error and rolls the sale back; otherwise the seat becomes sold and exactly one paid ticket is added |
| AdminApi.FindMembership | backend/users/views_admin.py:32 | the lookup of `get_or_create` finds a membership of the user in the group exactly when one exists |
| AdminApi.GetOrCreateSpec | backend/users/views_admin.py:32-37 | a row is created exactly when the pair is new, and then gets the fresh id; otherwise the table is unchanged and the existing row's id is returned; unique ids and unique (user, group) pairs are kept |
| AdminApi.GetOrCreateIdempotent | backend/users/views_admin.py:32-37 | a repeated call creates nothing, leaves the table as the first call left it and returns the same id, which is reported as already in the group |
| AdminApi.RemoveMembership | backend/users/views_admin.py:52-53 | deleting by id keeps exactly the memberships with another id |
| AdminApi.RemoveMembershipCount | backend/users/views_admin.py:52-56 | with unique ids, deleting an existing id removes one row and deleting an unknown id removes none |
| AdminApi.RemoveAfterCreate | backend/users/views_admin.py:32-53 | removing the membership just created restores the table |
| AdminApi.RemoveMembershipProps | backend/users/views_admin.py:53 | deleting a membership keeps ids and (user, group) pairs unique and every id below the next fresh one |
| AdminApi.NewGroup | backend/users/views_admin.py:92-96 | a new group has the given section and name, and max_members 20 unless given |
| AdminApi.Directory.constructor | backend/users/views_admin.py:21-22 | no groups and no memberships yet, over the given users and sections |
| AdminApi.Directory.AddUserToGroup | backend/users/views_admin.py:24-41 | an unknown user gives user-not-found, then an unknown group gives group-not-found, both with no membership created; otherwise the table is the get-or-create result and the reply says added or already in group with the membership id |
| AdminApi.Directory.RemoveFromGroup | backend/users/views_admin.py:49-56 | an existing id is deleted (one row fewer); an unknown id gives 404 and no change |
| AdminApi.Directory.CreateGroup | backend/users/views_admin.py:88-99 | an unknown section gives 404; a missing name is refused by the database; otherwise exactly one group is appended, max_members defaulting to 20 |
| AdminApi.LayoutSeatsLength | backend/users/views_admin.py:70-74 | the loops create \|sectors\|·rows·seats_per_row seats, all of the new schema |
| AdminApi.LayoutSeatAt | backend/users/views_admin.py:70-74 | sector i, row r, number k+1 is created at its position in sector→row→number order, priced `price_<sector>`, available |
| AdminApi.LayoutSeatsMember | backend/users/views_admin.py:70-74 | a seat is created iff it is of the schema, of a listed sector, within the rows and numbers, priced `price_<sector>` (1000 when absent) and available |
| AdminApi.EventSeatsDefaults | backend/users/views_admin.py:65-67 | without layout fields the sectors are A, B, C, with 5 rows of 10: 150 seats |
| AdminApi.EventSeatsLength | backend/users/views_admin.py:65-74 | the seat count is \|sectors\|·rows·seats_per_row for the request's fields or their defaults |
| AdminApi.FirstRepeat | backend/users/views_admin.py:70-74 | the position of the first seat whose slot repeats an earlier one (the create that violates the unique constraint), or the length when none does |
| AdminApi.DistinctSectorsCreateAll | backend/users/views_admin.py:70-74 | with distinct sectors no slot repeats, so every seat is created |
| AdminApi.RepeatedSectorFails | backend/users/views_admin.py:70-74 | a repeated sector (with at least one row and seat) makes some create fail |
| AdminApi.CreatePrefixValid | backend/users/views_admin.py:74 | the seats created before the first repeat keep slot uniqueness and schema links |
| AdminApi.CreateSeats | backend/users/views_admin.py:70-74 | the loop creates the seats up to the first repeated slot and reports success iff there is none |
| AdminApi.CreateEvent | backend/users/views_admin.py:58-77 | invalid data gives 400 and creates no event, schema or seats. Valid data saves the event under its new id, then creates its schema and the seats up to the first repeated slot. The answer is 201 iff all seats were created, and a server error otherwise; the event and the schema stay |
| IceRental.ForWeekday | backend/bookings/views.py:60-63 | the filter keeps exactly the active slots whose weekday is the requested one or unset, none more often than in the table |
| IceRental.CandidatesSpec | backend/bookings/views.py:60-64 | the candidate slots are exactly the active slots of the weekday or of every day, each as often as in the table, ordered by start time |
| IceRental.DefaultSlotList | backend/bookings/views.py:134-143 | the default list has fourteen slots |
| IceRental.DefaultSlotsSpec | backend/bookings/views.py:137-142 | default slot i runs from hour 8 + i to hour 9 + i at price 4000 on every day; the list spans 08:00 to 22:00 and consecutive slots meet |
| IceRental.DefaultSlots | backend/bookings/views.py:134-143 | the loop over hours 8 to 21 builds exactly the default list |
| IceRental.SchedulesOn | backend/bookings/views.py:73 | keeps exactly the section schedules of the requested weekday |
| IceRental.EventsOn | backend/bookings/views.py:78-80 | yields exactly the start times of the events on the requested date |
| IceRental.ApprovedOn | backend/bookings/views.py:84 | keeps exactly the approved bookings of the requested date |
| IceRental.FirstBooking | backend/bookings/views.py:114-120 | finds no booking exactly when no approved booking overlaps the slot; a booking found is one of them and overlaps it |
| IceRental.FirstBookingAt | backend/bookings/views.py:114-120 | the booking found is the one at the first overlapping position, as the `break` leaves it |
| IceRental.AvailabilitySpec | backend/bookings/views.py:86-129 | one entry per slot to check, copying its date, times and price; a slot is free exactly when no schedule of the weekday, no two-hour event window of the date and no approved booking of the date overlaps it (half-open intervals); `booked_by` is set exactly when only a booking blocks it and names the first such booking |
| IceRental.DefaultsWhenEmpty | backend/bookings/views.py:66-68 | when no active slot applies to the weekday, the answer lists the fourteen default slots from 08:00 on |
| IceRental.UnapprovedIgnored | backend/bookings/views.py:84 | a pending or rejected booking changes no slot's availability |
| IceRental.ScheduleFree | backend/bookings/views.py:95-100 | the schedule loop reports free exactly when no schedule overlaps the slot |
| IceRental.EventFree | backend/bookings/views.py:103-110 | the event loop reports free exactly when no two-hour event window overlaps the slot |
| IceRental.BookingFree | backend/bookings/views.py:113-120 | the booking loop reports free exactly when no approved booking overlaps, and otherwise the name of the first overlapping one |
| IceRental.CheckSlot | backend/bookings/views.py:88-129 | one iteration of the slot loop yields the slot's entry as the availability rule defines it |
| IceRental.CheckSlots | backend/bookings/views.py:86-129 | the slot loop yields one entry per slot, in order |
| IceRental.AvailableSlots | backend/bookings/views.py:50-132 | a missing or empty date answers 400, an unparsable one an uncaught error, and a valid one the availability list over the table's slots or the defaults |
| IceRental.BookingPermission | backend/bookings/views.py:25-28 | as written, only creation is open to anyone; every other action needs a signed-in user and none needs staff |
| IceRental.AvailableSlotsNeedsLogin | backend/bookings/views.py:25-28 | `available_slots` needs a login despite its `AllowAny` decorator at line 50 |
| IceRental.IntendedBookingPermissionSpec | backend/bookings/views.py:49-51 | the intended rule opens creation and `available_slots` and agrees with the written one on every other action |
| IceRental.BookingQueryset | backend/bookings/views.py:30-33 | staff see every booking; anyone else exactly their own |
| IceRental.OwnBookings | backend/bookings/views.py:33 | keeps exactly the bookings of the user, never more than the table holds |
| IceRental.PerformCreate | backend/bookings/views.py:35-37 | a new booking is saved as pending for the signed-in user or for nobody, with every other field as submitted |
| BookingUpdate.UpdateBooking | backend/bookings/views.py:39-47 | anyone who is not staff gets 403. For staff, a PUT or PATCH is saved exactly when the serializer accepts the request. Then every validated field replaces the stored one. Otherwise 400 carries the serializer's errors |
| BookingUpdate.Assign | backend/bookings/views.py:42-47 | saving keeps the owner, stores a sent status, keeps the stored status when none is sent, and changes nothing when no field is sent |
| BookingUpdate.LongBookingRefused | backend/bookings/serializers.py:59-60 | a staff PUT of a booking three to eight hours long, all of whose fields pass, gets 400 with the approval message |
| BookingUpdate.SavedWithinRules | backend/bookings/serializers.py:40-75 | a saved update that sent the date and both times lasts one to three hours, meets no schedule of its weekday, stores its length as the duration and its stripped name |
| BookingUpdate.PatchEndUnchecked | backend/bookings/serializers.py:41-43 | a staff PATCH that sends only an end time five hours after the start is saved, unchecked, with only the end changed |
| BookingUpdate.StatusChange | backend/bookings/views.py:44-47 | a staff PATCH that sends only a status stores that status and changes nothing else |
| BookingSerializer.DayDisplay | backend/bookings/serializers.py:15-19 | no weekday reads 'every day'; a weekday gets a name exactly when Python's list index accepts it (-7 to 6), otherwise the lookup fails |
| BookingSerializer.DayDisplayDistinct | backend/bookings/serializers.py:15-19 | the seven weekdays get seven different names, none equal to the every-day label, and a negative index names the same day as its value plus seven |
| BookingSerializer.RequiredErrors | backend/bookings/models.py:40-43 | on a full update, the date, the start, the end and the duration each get the required error exactly when missing; a partial update gets none |
| BookingSerializer.FieldChecks | backend/bookings/serializers.py:21-38 | the field errors are exactly those of the contact fields and of the required values, and the contact errors are reported as their fields give them |
| BookingSerializer.RequiredFieldsSpec | backend/bookings/models.py:40-43 | date, start, end and duration get an error exactly when missing on a full update, and no field outside the serializer's gets one |
| BookingSerializer.FieldChecksSpec | backend/bookings/serializers.py:27-38 | name and phone get an error exactly when missing on a full update or refused by their field; the message exactly when sent and refused; a refused name reports its field's error |
| BookingSerializer.Cleaned | backend/bookings/serializers.py:27-38 | `validate` and the save see the request's data with only name, phone and message changed: a sent one stays sent and is stripped, so a blank message becomes '' |
| BookingSerializer.ValidationSpec | backend/bookings/serializers.py:40-75 | a booking with date and both times passes exactly when it lasts at least one and less than three hours, meets no schedule of its weekday and no event starting strictly inside it; the accepted data carry the duration in hours and are otherwise unchanged |
| BookingSerializer.DurationMessages | backend/bookings/serializers.py:53-60 | under an hour gives the minimum message, over eight hours the maximum message, and three to eight hours the approval message |
| BookingSerializer.PartialUpdatePasses | backend/bookings/serializers.py:42-43 | a partial update without the date or either time, whose fields pass, skips the cross-field check and is accepted with its strings stripped; a full update of the same data fails with field errors |
| BookingSerializer.FieldErrorsFirst | backend/bookings/serializers.py:27-29 | a name refused by its field (blank, too long or refused by `validate_name`) stops the booking with exactly the field errors, the name's own error on `name`, before any cross-field check |
| BookingSerializer.ValidateTimes | backend/bookings/serializers.py:40-75 | the loops with their early `raise` compute exactly the cross-field outcome |
| BookingSerializer.EventAtStartAccepted | backend/bookings/serializers.py:68-72 | as written, a booking 18:00–19:00 passes next to an event at 18:00 whose window `available_slots` counts as blocking that hour |
| BookingSerializer.IntendedValidationSpec | backend/bookings/serializers.py:68-72 | the intended check accepts exactly what the written check accepts minus bookings that meet an event's two-hour window, and what it accepts meets no schedule and no event window |
| Timeslots.StandardSlots | backend/bookings/management/commands/create_timeslots.py:11-36 | the command creates fourteen slots |
| Timeslots.StandardSlotsSpec | backend/bookings/management/commands/create_timeslots.py:11-36 | slot i runs from hour 8 + i for one hour, active on every day; the slots meet end to start from 08:00 to 22:00; the four morning slots cost 3000, the six day slots 4000, the four evening slots 5000 |
| Timeslots.StandardActive | backend/bookings/management/commands/create_timeslots.py:12-36 | every created slot is active and bound to no weekday |
| Timeslots.StandardSorted | backend/bookings/management/commands/create_timeslots.py:12-36 | the slots are created in ascending order of start |
| Timeslots.ForWeekdayAll | backend/bookings/views.py:60-63 | a table of active every-day slots passes the weekday filter whole |
| Timeslots.StandardCandidates | backend/bookings/views.py:60-68 | after the command, every weekday's availability lists exactly the created slots in creation order, never the defaults |
| Timeslots.StandardMatchesDefaults | backend/bookings/views.py:134-143 | the created slots have the times of the fallback defaults and differ from them only in price, which agrees exactly for the six day slots |
| Timeslots.SlotTable.constructor | backend/bookings/management/commands/create_timeslots.py:9 | the table starts with the given slots |
| Timeslots.SlotTable.CreateTimeslots | backend/bookings/management/commands/create_timeslots.py:8-38 | the table is emptied and then holds exactly the standard slots; the reported count is fourteen |
| SectionsRules.PermissionsSpec | backend/sections/views.py:18-21 | writes to sections, groups and schedules are allowed exactly for staff; section reads for anyone; group and schedule reads exactly for signed-in users; every section-request action, lines 59-61, exactly for signed-in users |
| SectionsRules.SectionQueryset | backend/sections/views.py:13-16 | staff see every section; anyone else exactly the active ones |
| SectionsRules.ActiveSections | backend/sections/views.py:16 | keeps exactly the active sections |
| SectionsRules.GroupIds | backend/sections/views.py:46 | the user's group ids are exactly the groups of the user's memberships |
| SectionsRules.SchedulesOfGroups | backend/sections/views.py:48 | keeps exactly the schedules of the given groups |
| SectionsRules.ScheduleQuerysetSpec | backend/sections/views.py:37-52 | staff with a `group` parameter see exactly that group's schedules; otherwise anyone, staff included, sees exactly the schedules of groups they belong to, and nothing without a membership |
| SectionsRules.GroupParamIgnored | backend/sections/views.py:41-43 | for someone who is not staff, the `group` parameter changes nothing |
| SectionsRules.RequestQueryset | backend/sections/views.py:63-66 | staff see every section request; anyone else exactly their own |
| SectionsRules.OwnRequests | backend/sections/views.py:66 | keeps exactly the requests of the user |
| SectionsRules.CreateRequest | backend/sections/views.py:68-69 | a new request is saved for the signed-in user and as pending, with every other field as submitted |
| SectionsRules.SectionError | backend/sections/models.py:70 | the section gets an error exactly when it is missing on a full update or names no existing section, and then the invalid-key message |
| SectionsRules.RequestErrors | backend/sections/serializers.py:32-49 | the field errors are exactly those of the contact fields plus the section's, and the contact errors are reported as their fields give them |
| SectionsRules.RequestErrorsSpec | backend/sections/serializers.py:32-49 | section, name, phone and message each get an error exactly under their field's rule, no other field gets one, and a refused name reports its field's error |
| SectionsRules.AssignRequest | backend/sections/views.py:74-79 | saving keeps the owner, stores a sent status, keeps the stored status when none is sent, and changes nothing when no field is sent |
| SectionsRules.UpdateRequest | backend/sections/views.py:71-79 | anyone who is not staff gets 403 and the request stays as it was. For staff, the update is saved exactly when the serializer finds no field error. Then every sent field replaces the stored one, stripped. Otherwise 400 carries exactly those errors |
| SectionsRules.ShortNameRefused | backend/sections/serializers.py:38-40 | a staff PATCH to the name "x" gets 400 with the length message on `name` and no other error |
| SectionsRules.RequestStatusChange | backend/sections/views.py:76-79 | a staff PATCH that sends only a status stores that status and changes nothing else |
| ContactFields.CharField | backend/bookings/models.py:44-46 | with white space stripped first: a blank value is accepted as '' exactly when allowed and otherwise refused with the blank error; any other value is accepted, as its stripped text, exactly when it is within the length limit and holds no null character |
| ContactFields.CharFieldStable | backend/bookings/models.py:44-46 | an accepted value passes the field again unchanged |
| ContactFields.ContactField | backend/bookings/serializers.py:27-38 | a value is accepted exactly when its string field accepts it and the serializer's check passes on the stripped text, which is the value kept |
| ContactFields.NamePhoneSpec | backend/bookings/models.py:44-45 | a name is accepted exactly when, stripped, it is at most 100 characters, has no null character and passes `validate_name`; a phone the same with 20 characters, non-blank, and `validate_phone`; a blank name or phone gets the blank error |
| ContactFields.MessageSpec | backend/bookings/serializers.py:35-38 | a message is accepted exactly when it is blank, and is then stored as '', or when, stripped, it has at least ten characters and no null character |
| ContactFields.BlankMessageStored | backend/bookings/serializers.py:35-38 | a message of twelve spaces is stored as '', although `validate_message` would refuse it |
| ContactFields.ErrorOf | backend/bookings/serializers.py:27-38 | a field gets an error exactly when it is missing and required on a full update, or sent and refused; the error is the required message or the field's own |
| ContactFields.ContactErrors | backend/sections/serializers.py:38-49 | name and phone get an error exactly when missing on a full update or refused by their field, the message exactly when sent and refused, and no other field gets one |
| ContactFields.CleanedValues | backend/sections/serializers.py:38-49 | without field errors, every sent value is accepted as its stripped text |
| FormValidators.PhoneSpec | frontend/src/shared/lib/validators.ts:2-8 | a phone passes exactly when, after deleting every character other than digits and '+', it is '+7' followed by exactly ten digits |
| FormValidators.PhoneAcceptedByBackEnd | frontend/src/shared/lib/validators.ts:2-8 | every phone the form accepts is accepted by the back end's `validate_phone` too |
| FormValidators.EightPrefixOnlyBackEnd | backend/core/validators.py:7 | the back end accepts the '8' prefix the form refuses: 89123456789 passes there and fails in the form |
| FormValidators.Name | frontend/src/shared/lib/validators.ts:10-18 | a name passes exactly when its trimmed UTF-16 length is at least two and every character is a letter of the class, white space or '-' |
| FormValidators.NameRulesAgree | frontend/src/shared/lib/validators.ts:10-18 | on names of BMP characters whose white space JavaScript and Python agree on, the form and `validate_name` give the same answer and message |
| FormValidators.Message | frontend/src/shared/lib/validators.ts:20-25 | a message passes exactly when it is empty or its trimmed UTF-16 length is at least ten |
| FormValidators.MessageLengthsDiffer | frontend/src/shared/lib/validators.ts:20-25 | five to nine characters outside the BMP pass the form, which counts UTF-16 units, and fail `validate_message`, which counts code points |
| FormValidators.Utf16LengthAstral | frontend/src/shared/lib/validators.ts:21 | a string of characters outside the BMP has twice as many UTF-16 units as characters |
| FormValidators.EmailPatternShape | frontend/src/shared/lib/validators.ts:27-32 | an address the pattern matches has no white space, exactly one '@', not first, and a '.' after it that neither starts nor ends the domain |
| FormValidators.EmailShapePattern | frontend/src/shared/lib/validators.ts:27-32 | every address of that shape is matched by the pattern |
| FormValidators.EmailSpec | frontend/src/shared/lib/validators.ts:27-32 | the email rule passes exactly the addresses of that shape |
| FormValidators.Password | frontend/src/shared/lib/validators.ts:34-39 | a password passes exactly when it has at least six UTF-16 units |
| FormValidators.Required | frontend/src/shared/lib/validators.ts:41-46 | a string passes exactly when it holds a character that is not white space |
| FormValidators.Price | frontend/src/shared/lib/validators.ts:48-53 | a price passes exactly when it is positive |
| FormValidators.Duration | frontend/src/shared/lib/validators.ts:55-60 | a duration passes exactly when it is between 1 and 8 hours, both included |
| FormValidators.NumberRulesAgree | frontend/src/shared/lib/validators.ts:48-60 | the price and duration rules give the same answer and message as `validate_price` and `validate_duration` |
| FormValidators.FirstErrorSpec | frontend/src/shared/lib/validators.ts:63-69 | a field has no error exactly when every rule passes; otherwise its error is that of a failing rule all of whose predecessors pass |
| FormValidators.ValidateField | frontend/src/shared/lib/validators.ts:63-69 | the loop returns the first rule's error, in list order |
| FormValidators.FormErrorsSpec | frontend/src/shared/lib/validators.ts:71-82 | with distinct field names, the error object names exactly the fields whose rules fail, each with its first error |
| FormValidators.FormErrorsFields | frontend/src/shared/lib/validators.ts:71-82 | the errors name only fields of the schema |
| FormValidators.FormErrorsEmpty | frontend/src/shared/lib/validators.ts:71-82 | there are no errors exactly when every field passes all its rules |
| FormValidators.ValidateForm | frontend/src/shared/lib/validators.ts:71-82 | the result is `null` exactly when every field passes; otherwise it is the non-empty error object |
| CoreValidators.ValidatePhoneSpec | backend/core/validators.py:4-8 | a phone passes exactly when, after deleting every character other than digits and '+', it is '+7' or '8' followed by exactly ten digits; the error is the format message |
| CoreValidators.ValidateName | backend/core/validators.py:10-15 | a name passes exactly when it is at least two characters long once stripped and holds only letters of the class, white space and '-'; a short name gets the length message first, otherwise the character message |
| CoreValidators.ValidateNameSpec | backend/core/validators.py:10-15 | a name that passes holds two characters that are not white space; a name of white space only is refused as too short |
| CoreValidators.ValidateMessage | backend/core/validators.py:17-20 | a message passes exactly when it is empty or at least ten characters long once stripped |
| CoreValidators.BlankMessageRefused | backend/core/validators.py:17-20 | a non-empty message of white space only is refused |
| CoreValidators.ValidatePrice | backend/core/validators.py:22-25 | a price passes exactly when it is positive |
| CoreValidators.ValidateDuration | backend/core/validators.py:27-30 | a duration passes exactly when it is between 1 and 8, both included |
| EmailInput.SingleAtParts | frontend/src/shared/ui/email-input.tsx:26-27 | for a value with a single '@', `split('@')` gives exactly the local part and the domain part, neither holding '@', and they rebuild the value around the '@' |
| EmailInput.SplitNone | frontend/src/shared/ui/email-input.tsx:27 | splitting text without the separator gives the text alone |
| EmailInput.SplitAround | frontend/src/shared/ui/email-input.tsx:27 | splitting `a@b` with no other '@' gives `[a, b]` |
| EmailInput.FindDomain | frontend/src/shared/ui/email-input.tsx:30-32 | no domain is found exactly when the domain part is empty or no listed domain starts with it lower-cased; a domain found is the first listed one that does |
| EmailInput.SuggestSpec | frontend/src/shared/ui/email-input.tsx:24-43 | the effect leaves the offer unchanged exactly for a value with a single '@' and nothing before it; a non-empty offer is the local part, '@' and the first listed domain that extends the lower-cased, non-empty domain part and is longer than it; every other value clears the offer |
| EmailInput.GhostText | frontend/src/shared/ui/email-input.tsx:87-94 | with a lower-case domain part, the value is a proper prefix of the offer, so the grey text after the value is exactly the rest of the offer |
| EmailInput.Extends | frontend/src/shared/ui/email-input.tsx:89-92 | a proper prefix followed by the rest of the longer text is that text |
| EmailInput.DomainsPrefixFree | frontend/src/shared/ui/email-input.tsx:10-17 | no listed domain is a prefix of another |
| EmailInput.DomainsHaveNoAt | frontend/src/shared/ui/email-input.tsx:10-17 | no listed domain holds '@' |
| EmailInput.JoinedParts | frontend/src/shared/ui/email-input.tsx:26-27 | `local@domain` with no other '@' has a single '@' and splits back into the same local part and domain |
| EmailInput.AcceptedOfferCleared | frontend/src/shared/ui/email-input.tsx:34-38 | after an offer is taken, the effect on the completed value clears the suggestion, since no other listed domain extends the completed one |
| EmailInput.StaleOfferKept | frontend/src/shared/ui/email-input.tsx:29-39 | as written, deleting the local part of "a@gm" keeps the offer "a@gmail.com", so Tab would restore the deleted text |
| EmailInput.IntendedEffectSpec | frontend/src/shared/ui/email-input.tsx:29-39 | with the missing `else` added, the offer depends on the value alone, and a non-empty offer starts with the value's own non-empty local part and '@' |
| EmailInput.EmailField.constructor | frontend/src/shared/ui/email-input.tsx:20-43 | a new field holds the given value and the offer the effect computes for it |
| EmailInput.EmailField.Change | frontend/src/shared/ui/email-input.tsx:59-66 | the typed text is stored lower-cased and the effect then updates the offer from the previous one |
| EmailInput.EmailField.KeyDown | frontend/src/shared/ui/email-input.tsx:45-57 | Tab or the right arrow takes the offer exactly when it is non-empty and differs from the value; the value becomes the offer and the offer is recomputed from empty; any other key changes nothing |
| NameInput.CapitalizeAll | frontend/src/shared/ui/name-input.tsx:10-18 | capitalising the words keeps their number |
| NameInput.Capitalized | frontend/src/shared/ui/name-input.tsx:10-18 | the character-wise reference reading keeps the length |
| NameInput.CapitalizeWordsReference | frontend/src/shared/ui/name-input.tsx:10-18 | splitting on single spaces, capitalising each word and joining with single spaces equals the character-wise reading |
| NameInput.CapitalizedSpaces | frontend/src/shared/ui/name-input.tsx:10-18 | with case maps that produce no space, a position holds a space after capitalising exactly when it did before |
| NameInput.CapitalizedAt | frontend/src/shared/ui/name-input.tsx:10-18 | each character is a space left as is, the head of a word put through `charAt(0).toUpperCase()`, or another letter lower-cased |
| NameInput.CapitalizeWordsShape | frontend/src/shared/ui/name-input.tsx:10-18 | `capitalizeWords` keeps the length and the position of every space. A word head in the Basic Multilingual Plane is upper-cased; an astral head is kept as it is, because `charAt(0)` gives a lone surrogate that `toUpperCase` leaves alone. Every other character is lower-cased |
| NameInput.AstralHeadKept | frontend/src/shared/ui/name-input.tsx:15 | the Deseret word "\u{10428}" comes back unchanged whatever the case maps, alone or after another word |
| NameInput.CapitalizedIdempotent | frontend/src/shared/ui/name-input.tsx:10-18 | with idempotent case maps, capitalising twice is capitalising once |
| NameInput.CapitalizeWordsIdempotent | frontend/src/shared/ui/name-input.tsx:10-18 | `capitalizeWords` applied twice equals one application |
| NameInput.Blur | frontend/src/shared/ui/name-input.tsx:22-35 | leaving a non-empty field reports a change exactly when the trimmed and capitalised value (word heads under the `charAt(0)` rule, astral heads kept) differs from it, and then the new value is that; an empty field reports nothing |
| NameInput.BlurSettles | frontend/src/shared/ui/name-input.tsx:22-35 | a second blur right after one that changed the value reports no change |
| EventsPage.FilteredEventsSpec | frontend/src/pages/events/index.tsx:23-46 | the list holds exactly the events that match the query in title or description, ignoring case (all of them for an empty query), and, with the filter on, are not in the past; each appears as often as after filtering, never more often than in the input; the list is in ascending order of the chosen key |
| EventsPage.SortOrder | frontend/src/pages/events/index.tsx:37-40 | sorted by date, an earlier position never holds a later event |
| EventsPage.SortOrderPrice | frontend/src/pages/events/index.tsx:37-43 | sorted by price, an earlier position never holds a higher lowest price |
| BookingPage.Prefill | frontend/src/pages/booking/index.tsx:41-50 | a form with neither name nor phone is filled with the user's full name (or username) and phone and an empty message; any other form is kept |
| BookingPage.Submit | frontend/src/pages/booking/index.tsx:52-79 | a request that is sent is for the chosen slot: its date, its times, its length in hours and the form's fields |
| BookingPage.BookingSchemaPasses | frontend/src/pages/booking/index.tsx:55-59 | the form passes exactly when name and phone are present and well formed and the message is acceptable |
| BookingPage.SubmitSpec | frontend/src/pages/booking/index.tsx:52-79 | errors are shown exactly when some field fails, and then they are the failing fields with their first errors; a request goes out exactly when no field fails and a slot is chosen |
| BookingPage.SentDurationAgrees | frontend/src/pages/booking/index.tsx:67-69 | the duration sent is the one the serializer computes for the same times |
| BookingPage.BookingForm.constructor | frontend/src/pages/booking/index.tsx:14-19 | the page starts with no chosen slot, an empty form and no errors |
| BookingPage.BookingForm.ClickSlot | frontend/src/pages/booking/index.tsx:193-194 | clicking a free slot chooses it and may prefill the form; clicking a taken one changes nothing; only free slots are ever chosen |
| BookingPage.BookingForm.HandleSubmit | frontend/src/pages/booking/index.tsx:52-79 | a failing form stores its errors and sends nothing; a passing one sends the request for the chosen slot, or nothing without one, and leaves the errors as they were |
| BookingPage.BookingForm.Succeeded | frontend/src/pages/booking/index.tsx:29-35 | a successful request clears the chosen slot, the form and the errors |
| BookingPage.WithField | frontend/src/pages/booking/index.tsx:273-306 | the edited field takes the typed value and the other two fields keep theirs |
| BookingPage.ClearError | frontend/src/pages/booking/index.tsx:273-306 | the field's shown error is blanked, no key is added or dropped, other fields' errors stay, and a field without a shown error leaves the map as it was |
| BookingPage.BookingForm.SetDate | frontend/src/pages/booking/index.tsx:144-166 | only the date changes; the chosen slot, the form and the errors stay |
| BookingPage.BookingForm.EditField | frontend/src/pages/booking/index.tsx:273-306 | the field takes the typed value and its shown error is blanked; the date and the choice stay |
| AdminDashboard.Strict | frontend/src/pages/admin/index.tsx:138 | the `Array.isArray` reading of bookings and time slots always yields a list |
| AdminDashboard.NormaliseArrays | frontend/src/pages/admin/index.tsx:135-144 | a plain array and a page holding one read as that array under both readings; a missing response reads as the empty list under every reading |
| AdminDashboard.LooseAgreesWhenList | frontend/src/pages/admin/index.tsx:135-144 | the two readings agree exactly when the `results || x || []` reading yields a list; that reading passes any other truthy value through, and a page without results is kept whole |
| AdminDashboard.RevenueAppend | frontend/src/pages/admin/index.tsx:150 | the summed revenue of two ticket lists one after the other is the sum of their revenues |
| AdminDashboard.RevenueOfPriced | frontend/src/pages/admin/index.tsx:150 | tickets without a readable seat price add nothing: the revenue is that of the priced tickets alone |
| AdminDashboard.RevenueBounds | frontend/src/pages/admin/index.tsx:150 | with no negative prices, the revenue is not negative and is at least each ticket's price |
| AdminDashboard.PendingCountAppend | frontend/src/pages/admin/index.tsx:151-152 | the pending count of two lists one after the other is the sum of their counts |
| AdminDashboard.PendingCountZero | frontend/src/pages/admin/index.tsx:151-152 | the pending count is zero exactly when no record is pending |
| AdminDashboard.PendingCountAll | frontend/src/pages/admin/index.tsx:151-152 | the pending count never exceeds the list's length and equals it exactly when every record is pending |
| AdminDashboard.StatsSpec | frontend/src/pages/admin/index.tsx:146-153 | the overview counts the tickets, adds up exactly the readable seat prices, and reports no more pending requests or bookings than there are |
| AdminDashboard.CreateRouteSpec | frontend/src/pages/admin/index.tsx:74-94 | only sections are sent as multipart data; every kind without its own endpoint goes to `/users/admin/create-<kind>/`, and none of the five known kinds does |
| AdminDashboard.CreateRouteInjective | frontend/src/pages/admin/index.tsx:74-94 | two different kinds never reach the same endpoint |
| AdminDashboard.DeletePathSpec | frontend/src/pages/admin/index.tsx:115-127 | a membership is deleted through `remove-from-group/<id>/`; every other record, groups and schedules included, at `/<endpoint>/<id>/` |
| AdminDashboard.SearchSpec | frontend/src/pages/admin/index.tsx:322-324 | the event list keeps exactly the events whose title holds the query, ignoring case; sections by name (lines 397-398) and users by username or email (lines 542-546) likewise |
| AdminDashboard.EmptyQueryIncludes | frontend/src/pages/admin/index.tsx:323 | every text includes the empty query |
| AdminDashboard.EmptySearchKeepsAll | frontend/src/pages/admin/index.tsx:542-546 | with an empty search box, the event, section and user lists are shown whole |
| AdminDashboard.FindSchema | frontend/src/pages/admin/index.tsx:373 | no schema is found exactly when none belongs to the event; a schema found is the first in the list that does |
| AdminDashboard.FindSchemaUnique | frontend/src/pages/admin/index.tsx:373 | with one schema per event, the lookup returns that event's schema |
| AdminDashboard.ListedParts | frontend/src/pages/admin/index.tsx:925-930 | the loop appends a text entry for exactly the listed fields that are neither null, undefined nor empty, each with its own text, in list order |
| AdminDashboard.BuildEventForm | frontend/src/pages/admin/index.tsx:920-938 | the submit handler builds exactly the body the event form defines |
| AdminDashboard.EventFormSpec | frontend/src/pages/admin/index.tsx:922-938 | a listed field is sent with its text exactly when it is neither null, undefined nor empty, and no other text field is sent; the image goes exactly when it is a file; `is_active` comes last, once, and is 'false' exactly for an explicit `false` |
| AuthStore.Store.constructor | frontend/src/entities/user/model/store.ts:21-23 | the store starts with no user and counts as signed in exactly when a non-empty access token is stored |
| AuthStore.Store.SetUser | frontend/src/entities/user/model/store.ts:24 | the user is replaced and the session counts as signed in exactly when a user is set; the tokens are untouched |
| AuthStore.Store.Logout | frontend/src/entities/user/model/store.ts:25-29 | both tokens are removed, the user is cleared and the session no longer counts as signed in |
| Ordering.SortByKeySpec | frontend/src/pages/events/index.tsx:37-43 | the comparator sort returns the same elements, each as often, in ascending order of the key |
| Ordering.Utf16Order | frontend/src/widgets/seat-map/ui/index.tsx:47 | comparing strings under the UTF-16 collation is comparing their UTF-16 code-unit sequences, in both directions |
| Ordering.CollationsDiffer | frontend/src/widgets/seat-map/ui/index.tsx:47 | JavaScript `sort()` and Python `sorted()` order U+FF21 and U+1D400 oppositely |
| Ordering.CollationsAgreeOnBmp | backend/events/admin.py:59 | on strings without astral characters code-point and UTF-16 order coincide |
| Text.ContainsIff | frontend/src/pages/events/index.tsx:28-29 | `includes` holds exactly when the query occurs at some position of the text |
| Text.JoinSplit | frontend/src/shared/ui/name-input.tsx:11-17 | splitting on a character and joining with it gives back the text |

## Left out

- HTTP, react-query and axios: every request is an out-parameter or a returned plan, and the network failures of the two-call save are not modelled.
- Toasts, navigation, animation, zoom and fullscreen of the seat map: these are presentation only.
- Concurrency: ticket creation's `transaction.atomic` and `select_for_update` are modelled as one sequential step on the store.
- The Django ORM: tables are sequences of records. Field defaults and uniqueness are taken from the models. The serializers' required, blank, length and null-character rules are modelled for a booking's and a section request's name, phone and message. The required rule is also modelled for the booking's date, times and duration and the request's section. Type and format checks (date and time parsing, the decimal places of `duration_hours`, status choices) are not modelled: the values arrive typed.
- ContactFields.CharField: the framework reports every failing validator of a field in a list. The model keeps only the first: for a value that is both too long and holds a null character, only the length error. The messages are the framework's English defaults; a translation chosen by the project's language settings is not part of this model.
- IceRental.PerformCreate: the create path runs the serializer as `BookingSerializer.Validate` with `partial` false before it. The model does not chain the two.
- Floating point: prices are exact `real` values, so JavaScript `Number` rounding and Python `total_seconds()` are not modelled. `Math.round` and `parseInt`/`parseFloat` are modelled on exact values.
- Dates, clocks and locale: the weekday of a date, "now" and `strptime` failure come in as parameters. Date formatting is not modelled.
- Unicode case mapping: `toLowerCase`/`toUpperCase` are per-character maps given as parameters. Context-dependent and length-changing mappings are not modelled. A word head outside the Basic Multilingual Plane is kept as `charAt(0)` leaves it (`NameInput.HeadCase`).
- CoreValidators.ValidatePhone: counts only ASCII digits, while Python's `\d` also matches other Unicode decimal digits.
- EventsPage.FilteredEventsSpec: the comparator sort is the stable sort Dafny can check. A `NaN` key from an unparsable date or price is not modelled. The sort is on a sequence, not in place on the array.
- IceRental.CandidatesSpec: `order_by('time_start')` leaves ties in an order the database chooses. The model keeps table order for ties.
- The `occupied_slots` list in `available_slots` is built but never read, so it is not modelled.
- AdminDashboard.StatsSpec: the figures are computed over lists. A loose reading that yields a non-array object, whose `.length` is undefined, is not modelled.
- AdminDashboard.EventFormSpec: form values are text, `null` or `undefined`. Numbers and other values, and the choice between POST and PATCH for the finished form, are not modelled.
- AuthStore.Store: local storage is modelled as the store's two token fields. Fetching the user after start-up is not modelled.
- AdminApi.CreateEvent: there is no transaction. A seat that fails midway leaves the schema and the earlier seats in place, as the code does, and the model states exactly that.
- SeatStore.MediumHallTiers: the middle tier is the exact mean of `price_min` and `price_max`. The column is a `DecimalField` with two decimal places, and its rounding of an odd cent total on save depends on the database backend and the Django version, whose settings are not part of this model.
- SeatStore.LargeHallTiers: the middle tier is the exact mean, not rounded to the two decimal places the `DecimalField` stores, for the same reason.
- The ticket table's other cascades: deleting an event or a user is not an operation of the modelled core, so only the seat cascade is modelled, and the ticket's user is not checked against a user table.

## Findings

| source | as written | input that shows it | evidently intended | confidence | as-written member | corrected member |
|---|---|---|---|---|---|---|
| backend/bookings/views.py:25-28 | `get_permissions` gives every action other than `create` `IsAuthenticated`, so the `@permission_classes([AllowAny])` on `available_slots` (line 50) has no effect | an anonymous GET of `available_slots` | `available_slots` open to anyone, as the decorator says | not executed | IceRental.AvailableSlotsNeedsLogin | IceRental.IntendedBookingPermissionSpec |
| backend/bookings/serializers.py:68-72 | an event blocks a booking only when it starts strictly inside (start, end) | a booking 18:00–19:00 on a date with an event at 18:00: accepted, while `available_slots` shows the hour as taken | reject a booking that meets the event's two-hour window, as `available_slots` does | not executed | BookingSerializer.EventAtStartAccepted | BookingSerializer.IntendedValidationSpec |
| frontend/src/shared/ui/email-input.tsx:29-39 | with a single '@' and an empty local part no branch clears the suggestion | type "a@gm", then delete the "a": the value "@gm" keeps the offer "a@gmail.com", and Tab brings the deleted text back | clear the suggestion whenever no offer applies | not executed | EmailInput.StaleOfferKept | EmailInput.IntendedEffectSpec |
