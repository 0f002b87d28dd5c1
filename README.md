# Event catalogue with capacity-bounded rosters — a Dafny model

This project models the core of an event-publishing application. Organisers
create events with a seating capacity. Users join ("RSVP") or leave an
event's attendee roster. Only an event's creator may edit or delete it. The
browser lists upcoming events through a three-part filter (title search,
category, day). Each event card shows a countdown status and the
Join / Leave / Delete buttons that apply to the viewer.

Modules, one per concern of the source:

- `EventModel` (`event_model.dfy`): the stored event record, the category
  enumeration and its default, and what the schema's validators require.
- `Roster` (`roster.dfy`): the two roster updates the database applies
  (`$addToSet` to join, `$pull` to leave) on a list of user ids.
- `Catalog` (`catalog.dfy`): each route as a pure function from the event
  collection (a map from id to record) to the collection after the request
  and the reply. The lemmas state the admission and ownership rules.
- `EventStore` (`event_store.dfy`): class `Store`, holding the collection in
  a `map` field. It has one method per route, and each mutating method is
  proved to produce exactly the collection and reply its `Catalog` function
  gives. The listing routes are read-only methods with loops.
- `EventFilter` (`event_filter.dfy`): the events page's filter pipeline, and
  class `EventsPage` holding the filter controls.
- `EventCard` (`event_card.dfy`): the countdown classification, its text and
  colour, and the button selection.

Inputs the model takes as parameters rather than computing:

- The current time. The listing takes `now`; the countdown takes
  `diffMs = start - now`.
- The fresh id of a new event. The store's `nextId` counter stands for the
  database's id generator.
- The calendar day of a time stamp and of the date input's value. The page
  is given these as two functions.
- The acting user's id, which authentication supplies.
- The stored name of an uploaded file, if one was sent.

Behaviours of the routes that a reader might not expect:

- Joining a missing event gets the same "Event is full or you already
  joined" reply as a full or already-joined event; there is no separate
  not-found reply for a join.
- Create checks only that a capacity is present, so it accepts a capacity of
  `"0"` or below (`Catalog.CapacityNotChecked`).
- Update writes the new capacity without comparing it with the roster, so an
  event can end up over capacity (`Catalog.UpdateCanExceedCapacity`).
- Deleting an event leaves its uploaded image in place.
- The card counts whole minutes rounded down, so it reads "Live now" during
  the last minute before the start (`EventCard.LiveNowBeforeStart`), and the
  clock never shows 00:00:SS (`EventCard.ClockNeverZero`).

## Model

| member | source | states |
|---|---|---|
| `EventModel.SchemaValid` | backend/models/Event.js:5-39 | a schema-valid document never has an empty category; when the schema holds is stated by `Catalog.NewEvent` (every created document is schema-valid), `Catalog.UpdateKeepsSchemaValid` and `Catalog.UpdateSchemaValidOnlyIf` |
| `EventModel.CategoryOrDefault` | backend/models/Event.js:35-39 | the category after defaulting is never empty; it is "Other" when none was given and the given value when that is one of the enumeration |
| `EventModel.DefaultIsCategory` | backend/models/Event.js:37-38 | the default "Other" is one of the nine enumerated categories |
| `Roster.Count` | backend/models/Event.js:47-52 | occurrences of a user in a roster are at most its length and zero exactly when the user is absent |
| `Roster.AddToSet` | backend/routes/eventRoutes.js:178 | `$addToSet` keeps the roster as a prefix, grows it by at most one, makes the user a member and adds no one else, and changes nothing when the user is already there |
| `Roster.AddToSetOnce` | backend/routes/eventRoutes.js:178 | `$addToSet` keeps a roster duplicate-free, leaves the user in it exactly once, adds no one else, and grows it by one exactly when the user was absent |
| `Roster.Pull` | backend/routes/eventRoutes.js:205 | `$pull` keeps exactly the members other than the user, removes every occurrence (length drops by the count), leaves every other user's number of occurrences as it was, and changes nothing when the user is absent |
| `Roster.PullKeepsNoDuplicates` | backend/routes/eventRoutes.js:205 | pulling from a duplicate-free roster leaves it duplicate-free |
| `Roster.PullMemberShrinksByOne` | backend/routes/eventRoutes.js:203-216 | a member leaving a duplicate-free roster shortens it by exactly one |
| `Roster.PullIdempotent` | backend/routes/eventRoutes.js:205 | pulling a user twice gives the same roster as pulling once |
| `Catalog.NewEvent` | backend/routes/eventRoutes.js:30-52 | a create request is refused for missing fields first, then for a missing image, then by the schema for a category outside the enumeration; otherwise the document holds the request's fields, the defaulted category, the upload path, the actor as creator and an empty roster, and satisfies the schema |
| `Catalog.CategoryNotRequired` | backend/routes/eventRoutes.js:30-48 | the presence check ignores category and image: a request without a category is accepted exactly when the other fields are present and an image was sent, and it then gets the default "Other" |
| `Catalog.CapacityNotChecked` | backend/routes/eventRoutes.js:30 | any capacity value, zero or negative included, is accepted and stored as given |
| `Catalog.NewEventWithinCapacity` | backend/models/Event.js:25-28 | a new event respects the capacity bound exactly when its capacity is not negative; the schema sets no lower bound |
| `Catalog.Create` | backend/routes/eventRoutes.js:42-57 | a successful create adds exactly the new document under a fresh id and touches no other event; a refused one changes nothing and carries the refusal |
| `Catalog.Get` | backend/routes/eventRoutes.js:80-94 | reading an id gives its event when present and NotFound otherwise |
| `Catalog.Update` | backend/routes/eventRoutes.js:97-128 | a missing event gives NotFound, then a non-owner gives Forbidden, and neither changes anything; the owner's update succeeds, replaces only that event and returns the stored result |
| `Catalog.Revised` | backend/routes/eventRoutes.js:110-122 | the update document keeps the creator and roster, never leaves the category empty, takes a non-empty requested category as given, otherwise keeps a stored category, and keeps the image unless a file was sent |
| `Catalog.UpdateRevises` | backend/routes/eventRoutes.js:110-122 | the update overwrites title, description, date, location and capacity; the category is the request's, else the stored one, else "Other"; the image changes only when a file is sent; creator and roster are untouched |
| `Catalog.UpdateKeepsSchemaValid` | backend/routes/eventRoutes.js:110-128 | an update keeps a schema-valid event schema-valid if the request has non-empty strings and an empty or enumerated category |
| `Catalog.UpdateSchemaValidOnlyIf` | backend/routes/eventRoutes.js:110-128 | the owner's update always succeeds, and the event is schema-valid afterwards only if the request has non-empty strings and an empty or enumerated category, so neither is enforced on update |
| `Catalog.UpdateCanExceedCapacity` | backend/routes/eventRoutes.js:115 | the owner may lower capacity below the roster's size and the update succeeds, leaving the event over capacity |
| `Catalog.SingleOwner` | backend/routes/eventRoutes.js:105-152 | the ownership guard of update and delete admits only the event's creator, so two actors who may each edit or delete an event are the same user |
| `Catalog.Delete` | backend/routes/eventRoutes.js:141-158 | NotFound before Forbidden, neither changing anything; the owner's delete removes exactly that event, whatever its roster, and keeps every other event |
| `Catalog.DeleteThenGet` | backend/routes/eventRoutes.js:154 | after the owner deletes an event, reading it gives NotFound |
| `Catalog.MissingBeforeForbidden` | backend/routes/eventRoutes.js:99-103 | a missing event is reported as NotFound to every actor by both update and delete |
| `Catalog.Join` | backend/routes/eventRoutes.js:166-192 | a join succeeds exactly when the event exists, the user is not on the roster and the roster is below capacity; it then appends the user and reports the old count plus one, which is within capacity; any failure leaves the collection unchanged with the one "full or already joined" reply |
| `Catalog.CanJoin` | backend/routes/eventRoutes.js:173-175 | the join filter holds exactly when the user is not on the roster and a seat is free, and admitting the user keeps the roster within capacity |
| `Catalog.JoinFailuresAlike` | backend/routes/eventRoutes.js:183-187 | a missing, a full and an already-joined event all give the same refusal and no change |
| `Catalog.JoinAddsOnce` | backend/routes/eventRoutes.js:174-178 | after a successful join the user is on the roster exactly once and the roster stays duplicate-free |
| `Catalog.JoinTwice` | backend/routes/eventRoutes.js:174 | a second join by the same user is refused and changes nothing |
| `Catalog.JoinKeepsCapacity` | backend/routes/eventRoutes.js:175 | if every event is within capacity before a join, every event is within capacity after it |
| `Catalog.JoinAllAdmitsUpToCapacity` | backend/routes/eventRoutes.js:171-181 | of a sequence of joins by distinct newcomers, exactly the first min(requests, free seats) are admitted, in order, and the rest are refused |
| `Catalog.Leave` | backend/routes/eventRoutes.js:198-216 | a missing event gives NotFound; otherwise only that event's roster changes, the user is no longer on it, every other member stays, the reply is the new count, and an absent user changes nothing |
| `Catalog.LeaveIdempotent` | backend/routes/eventRoutes.js:203-216 | leaving twice gives the same collection and reply as leaving once |
| `Catalog.LeaveFreesOneSeat` | backend/routes/eventRoutes.js:213-216 | a member leaving a duplicate-free roster reports one fewer attendee, keeps the roster duplicate-free and keeps the capacity bound |
| `Catalog.LeaveKeepsCapacity` | backend/routes/eventRoutes.js:203-207 | if every event is within capacity before a leave, every event is within capacity after it |
| `Catalog.InsertByDate` | backend/routes/eventRoutes.js:70 | inserting an id into a date-sorted list keeps it sorted, adds exactly that id and keeps the list duplicate-free |
| `EventStore.Store.constructor` | backend/models/Event.js:57 | the store starts with no events and satisfies its invariant |
| `EventStore.Store.MyEvents` | backend/routes/eventRoutes.js:9-16 | lists exactly the events the actor created, once each, in id order |
| `EventStore.Store.Create` | backend/routes/eventRoutes.js:19-62 | leaves the collection and reply `Catalog.Create` prescribes for the next fresh id, and keeps the invariant |
| `EventStore.Store.List` | backend/routes/eventRoutes.js:65-77 | lists exactly the events starting at or after `now`, once each, by nondecreasing date |
| `EventStore.Store.Get` | backend/routes/eventRoutes.js:80-94 | gives the stored event for a present id and NotFound otherwise |
| `EventStore.Store.Update` | backend/routes/eventRoutes.js:97-138 | leaves the collection and reply `Catalog.Update` prescribes, and keeps the invariant |
| `EventStore.Store.Delete` | backend/routes/eventRoutes.js:141-162 | leaves the collection and reply `Catalog.Delete` prescribes, and keeps the invariant |
| `EventStore.Store.Join` | backend/routes/eventRoutes.js:166-196 | performs the guarded `$addToSet` as one step, leaving the collection and reply `Catalog.Join` prescribes, and keeps every roster duplicate-free |
| `EventStore.Store.Leave` | backend/routes/eventRoutes.js:198-220 | leaves the collection and reply `Catalog.Leave` prescribes, and keeps every roster duplicate-free |
| `EventFilter.Lower` | frontend/src/pages/Events.jsx:64 | lower-casing keeps the length, maps each character on its own and leaves no capital letter |
| `EventFilter.LowerIffSameUpToCase` | frontend/src/pages/Events.jsx:64 | two strings lower-case to the same string exactly when they differ only in the case of their letters |
| `EventFilter.LowerIdempotent` | frontend/src/pages/Events.jsx:64 | lower-casing twice is lower-casing once, and the result differs from its input only in letter case |
| `EventFilter.SearchIgnoresCase` | frontend/src/pages/Events.jsx:62-66 | the search answer does not depend on the letter case of the title or of the term |
| `EventFilter.Includes` | frontend/src/pages/Events.jsx:64 | a found term is no longer than the title, and a prefix of the title is always found |
| `EventFilter.IncludesAt` | frontend/src/pages/Events.jsx:64 | `includes` holds exactly when the term occurs at some offset of the title |
| `EventFilter.Keep` | frontend/src/pages/Events.jsx:63 | a filter keeps exactly the elements satisfying its predicate and is no longer than its input |
| `EventFilter.KeepIsSubsequence` | frontend/src/pages/Events.jsx:63 | a filter's result is a subsequence of its input |
| `EventFilter.Filtered` | frontend/src/pages/Events.jsx:59-83 | the shown list holds only events from the list and is no longer; with a term every shown title matches it, and with a category other than "All" every shown event has it |
| `EventFilter.FilteredIsOneFilter` | frontend/src/pages/Events.jsx:59-83 | the three conditional stages together equal one filter by "passes every active filter" |
| `EventFilter.ShownIffPasses` | frontend/src/pages/Events.jsx:60-82 | an event is shown exactly when it is among the events and passes the search, category and date filters that are active |
| `EventFilter.ShownIsSubsequence` | frontend/src/pages/Events.jsx:60-82 | the shown list keeps the events' order, adds nothing, and is no longer than the list of events |
| `EventFilter.ShownMatchSearch` | frontend/src/pages/Events.jsx:62-66 | with a non-empty term every shown title, lower-cased, contains the lower-cased term |
| `EventFilter.ShownMatchCategory` | frontend/src/pages/Events.jsx:68-72 | with a category other than "All" every shown event has that category |
| `EventFilter.NoFilterShowsAll` | frontend/src/pages/Events.jsx:60-83 | with an empty search, "All" and no date the shown list is the events list |
| `EventFilter.EventsPage.constructor` | frontend/src/pages/Events.jsx:11-15 | the page starts with no events, an empty search, "All" and no date |
| `EventFilter.EventsPage.Shown` | frontend/src/pages/Events.jsx:82 | the list the page shows holds exactly the events passing the current controls, in the events' order |
| `EventFilter.EventsPage.SetEvents` | frontend/src/pages/Events.jsx:41 | the fetched events replace the list and the filters stay |
| `EventFilter.EventsPage.SetSearchTerm` | frontend/src/pages/Events.jsx:134 | sets the search term only |
| `EventFilter.EventsPage.SetCategory` | frontend/src/pages/Events.jsx:151 | sets the category only |
| `EventFilter.EventsPage.SetDate` | frontend/src/pages/Events.jsx:175 | sets the date only |
| `EventFilter.EventsPage.ClearFilters` | frontend/src/pages/Events.jsx:85-89 | resets the controls to "", "All" and "", keeps the events, and afterwards every event is shown |
| `EventCard.Decimal` | frontend/src/components/EventCard.jsx:41-43 | `String(n)` is a non-empty string of digits, one digit long exactly below 10, starting with "0" only for 0 |
| `EventCard.DecimalRoundTrip` | frontend/src/components/EventCard.jsx:54 | reading back the decimal of a number gives the number |
| `EventCard.Pad2` | frontend/src/components/EventCard.jsx:54 | a padded field is at least two digits that read back as the number, exactly two below 100 |
| `EventCard.DiffMinutes` | frontend/src/components/EventCard.jsx:19 | the whole minutes left are the floor of the milliseconds over 60000, negative times included |
| `EventCard.StatusOf` | frontend/src/components/EventCard.jsx:15-56 | with m the whole minutes left, rounded down: Ended for m ≤ −120, Live now for −119 ≤ m ≤ 0, the clock for 1 ≤ m ≤ 1440 and days for m > 1440: four exclusive cases covering every time; days are at least one with 0..23 spare hours, and the clock's fields are within 24, 59 and 59 and add up to the time left less its milliseconds |
| `EventCard.StatusText` | frontend/src/components/EventCard.jsx:22-56 | the text begins "Starts in " exactly in the days and clock cases, that is when at least one whole minute is left |
| `EventCard.StatusColor` | frontend/src/components/EventCard.jsx:22-56 | each case has its own colour: grey exactly when ended, green exactly when live, blue exactly for days, orange exactly for the clock |
| `EventCard.StatusOfDays` | frontend/src/components/EventCard.jsx:36-38 | with more than 1440 whole minutes left the status holds the whole days and the whole hours of the remainder |
| `EventCard.LiveNowBeforeStart` | frontend/src/components/EventCard.jsx:19-33 | less than a minute before the start the whole minutes left are 0, so the card already reads "Live now" |
| `EventCard.ClockNeverZero` | frontend/src/components/EventCard.jsx:49-54 | the clock shows at least one minute, never 00:00:SS, and at 24 hours shows 24:00:SS |
| `EventCard.Countdown` | frontend/src/components/EventCard.jsx:22-56 | the text and colour in each case: "Ended" grey, "Live now" green, days blue, clock orange |
| `EventCard.ClockReadsBack` | frontend/src/components/EventCard.jsx:50-55 | with 1 to 1440 whole minutes left the text is "Starts in HH:MM:SS" with three two-digit fields, hours at most 24 and minutes and seconds at most 59, which read back as the time left less its milliseconds |
| `EventCard.DaysReadsBack` | frontend/src/components/EventCard.jsx:36-46 | with more than 1440 whole minutes left the whole days are at least one; one day reads "Starts in 1 day Hh" with H at most 23, more read "Starts in N days" with N the whole days, written without a leading zero |
| `EventCard.IsJoined` | frontend/src/components/EventCard.jsx:7 | a viewer the card shows as joined would be refused by the join route; any other signed-in viewer would be admitted exactly when a seat is free |
| `EventCard.IsOwner` | frontend/src/components/EventCard.jsx:8 | the card's owner check agrees with the ownership guard of the update and delete routes |
| `EventCard.CardButtons` | frontend/src/components/EventCard.jsx:7-8 | exactly one of Join and Leave is offered, Leave exactly when the viewer is on the roster, and Delete exactly when the viewer is the creator |
| `EventCard.CardFollowsRoster` | frontend/src/components/EventCard.jsx:141-150 | after a successful join the joiner's card offers Leave, and after leaving it offers Join |
| `EventCard.CreatorSeesDelete` | frontend/src/components/EventCard.jsx:146-150 | on a newly created event only its creator sees Delete |

## Left out

- Concurrency: requests are applied one at a time. The store's per-document
  atomicity is modelled by making each guarded update one method step, and
  concurrent joins by a sequence of joins (`Catalog.JoinAllAdmitsUpToCapacity`).
- HTTP plumbing: authentication, the upload middleware, status codes, JSON
  replies and their messages (each refusal is a `Failure` value).
- The 500 paths for storage failures, except the schema's refusal of a new
  document whose category is outside the enumeration (`SchemaRejected`).
- Populating `createdBy` with the creator's name and email, and the
  creation/update timestamps.
- `parseInt` and date parsing: capacity and dates arrive already parsed.
  A value that does not parse, and the cast failure it causes, are not modelled.
- Update: the model's update request always carries every field, as the
  edit page sends them all (frontend/src/pages/EditEvent.jsx:104-118). What
  the route does with a field the request leaves out is not modelled: it
  reaches `findByIdAndUpdate` as an undefined key, and an absent capacity
  becomes `parseInt(undefined)`. The update path runs no validation, so
  neither the enumeration nor the required fields are enforced there
  (`Catalog.UpdateSchemaValidOnlyIf`).
- Image validation on the client, the image file itself, and its clean-up.
- Startup, database connection, routing, the network client, and the login,
  signup, profile, navigation, create-form and edit-form pages. These are
  I/O and rendering with no logic of their own.
- The real clock, time zones and `toDateString`: the date filter compares
  day keys produced by two functions the page is given.
- The countdown's one-second timer and its clean-up.
- EventFilter.Lower: lower-cases ASCII letters only, not the whole of Unicode.
- The fetch on page load, and its 401 redirect, are network I/O.
  `EventsPage.SetEvents` models only its effect on the page state.
