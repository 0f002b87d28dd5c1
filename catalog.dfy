/**
 * What each event route does to the event collection, as pure functions
 * from the collection before a request to the collection after it and the
 * reply. The store class in EventStore is proved against these functions;
 * the lemmas here state the rules of admission control and ownership.
 */
module Catalog {
  import opened EventModel
  import opened Roster

  /** The event collection, keyed by event id. */
  type Events = map<EventId, Event>

  /** The ways a route can refuse a request. */
  datatype Failure =
    | MissingFields   // 400 "All fields are required"
    | ImageRequired   // 400 "Image is required"
    | SchemaRejected  // the schema refuses the new document (a category outside the enumeration)
    | NotFound        // 404 "Event not found"
    | Forbidden       // 403 "Not authorized to edit / delete this event"
    | FullOrJoined    // 400 "Event is full or you already joined"

  datatype Result<T> = Ok(value: T) | Err(failure: Failure)

  /** The collection after a request, and the reply to it. */
  datatype Step<T> = Step(events: Events, reply: Result<T>)

  /**
   * The body of a create request. A string field is absent when empty; a
   * date or capacity is `None` when absent and otherwise already parsed.
   * `image` is the stored name of the uploaded file, if one was sent.
   */
  datatype CreateRequest = CreateRequest(
    title: string,
    description: string,
    dateTime: Option<Millis>,
    location: string,
    capacity: Option<int>,
    category: string,
    image: Option<string>)

  /** The body of an update request; its fields are written as given. */
  datatype UpdateRequest = UpdateRequest(
    title: string,
    description: string,
    dateTime: Millis,
    location: string,
    capacity: int,
    category: string,
    image: Option<string>)

  /** The presence check on a create request: every field is truthy. */
  predicate HasRequiredFields(req: CreateRequest) {
    && req.title != ""
    && req.description != ""
    && req.dateTime.Some?
    && req.location != ""
    && req.capacity.Some?
  }

  /** The public path of an uploaded image. */
  function UploadUrl(filename: string): string {
    "/uploads/" + filename
  }

  /** The ownership guard: only the creator may edit or delete. */
  predicate IsOwner(e: Event, actor: UserId) {
    e.createdBy == actor
  }

  /**
   * Admission: the user is not on the roster and a seat is free. Admitting
   * the user keeps the roster within capacity.
   */
  predicate CanJoin(e: Event, u: UserId): (ok: bool)
    ensures ok <==> u !in e.attendees && FreeSeats(e) > 0
    ensures ok ==> WithinCapacity(e.(attendees := e.attendees + [u]))
  {
    u !in e.attendees && |e.attendees| < e.capacity
  }

  /** `|attendees| <= capacity`. */
  predicate WithinCapacity(e: Event) {
    |e.attendees| <= e.capacity
  }

  // ---------------------------------------------------------------- create

  /**
   * The document a create request produces, or why it is refused: missing
   * fields first, then a missing image, then the schema's enumeration check
   * on the defaulted category. Capacity is only required to be present.
   */
  function NewEvent(req: CreateRequest, actor: UserId): (r: Result<Event>)
    ensures !HasRequiredFields(req) ==> r == Err(MissingFields)
    ensures HasRequiredFields(req) && req.image.None? ==> r == Err(ImageRequired)
    ensures r.Ok? <==>
      HasRequiredFields(req) && req.image.Some? && IsCategory(CategoryOrDefault(req.category))
    ensures r.Err? && HasRequiredFields(req) && req.image.Some? ==> r.failure == SchemaRejected
    ensures r.Ok? ==>
      && SchemaValid(r.value)
      && r.value.title == req.title
      && r.value.description == req.description
      && r.value.dateTime == req.dateTime.value
      && r.value.location == req.location
      && r.value.capacity == req.capacity.value
      && r.value.category == (if req.category == "" then DefaultCategory else req.category)
      && r.value.imageUrl == Some(UploadUrl(req.image.value))
      && r.value.createdBy == actor
      && r.value.attendees == []
  {
    if !HasRequiredFields(req) then Err(MissingFields)
    else if req.image.None? then Err(ImageRequired)
    else
      var e := Event(req.title, req.description, req.dateTime.value, req.location,
                     req.capacity.value, Some(UploadUrl(req.image.value)),
                     CategoryOrDefault(req.category), actor, []);
      if !IsCategory(e.category) then Err(SchemaRejected) else Ok(e)
  }

  /**
   * Category and image are not among the required fields: a request without
   * a category gets the default, and only a missing image is refused later.
   */
  lemma CategoryNotRequired(req: CreateRequest, actor: UserId, category: string, image: Option<string>)
    ensures HasRequiredFields(req.(category := category, image := image)) == HasRequiredFields(req)
    ensures NewEvent(req.(category := ""), actor).Ok? <==> HasRequiredFields(req) && req.image.Some?
    ensures NewEvent(req.(category := ""), actor).Ok? ==>
      NewEvent(req.(category := ""), actor).value.category == DefaultCategory
  {
    DefaultIsCategory();
  }

  /** Capacity is only checked for presence: any parsed value, 0 or negative included, is stored. */
  lemma CapacityNotChecked(req: CreateRequest, actor: UserId, n: int)
    requires NewEvent(req, actor).Ok?
    ensures NewEvent(req.(capacity := Some(n)), actor).Ok?
    ensures NewEvent(req.(capacity := Some(n)), actor).value.capacity == n
  {
  }

  /** A new event respects `|attendees| <= capacity` exactly when its capacity is not negative. */
  lemma NewEventWithinCapacity(req: CreateRequest, actor: UserId)
    requires NewEvent(req, actor).Ok?
    ensures WithinCapacity(NewEvent(req, actor).value) <==> req.capacity.value >= 0
  {
  }

  /** Create under the fresh id `id` that the store assigns. */
  function Create(c: Events, id: EventId, req: CreateRequest, actor: UserId): (s: Step<EventId>)
    requires id !in c
    ensures s.reply.Ok? <==> NewEvent(req, actor).Ok?
    ensures s.reply.Ok? ==>
      s.reply.value == id && s.events.Keys == c.Keys + {id} &&
      s.events[id] == NewEvent(req, actor).value &&
      forall k :: k in c ==> s.events[k] == c[k]
    ensures s.reply.Err? ==> s.events == c && s.reply.failure == NewEvent(req, actor).failure
  {
    match NewEvent(req, actor)
    case Ok(e) => Step(c[id := e], Ok(id))
    case Err(f) => Step(c, Err(f))
  }

  // ------------------------------------------------------------------ read

  function Get(c: Events, id: EventId): (r: Result<Event>)
    ensures r.Ok? <==> id in c
    ensures r.Ok? ==> r.value == c[id]
    ensures r.Err? ==> r.failure == NotFound
  {
    if id in c then Ok(c[id]) else Err(NotFound)
  }

  // ---------------------------------------------------------------- update

  /**
   * The update document applied to `e`: five fields overwritten, the
   * category falling back to the stored one and then to the default, the
   * image replaced only when a file was sent.
   */
  function Revised(e: Event, req: UpdateRequest): (r: Event)
    ensures r.createdBy == e.createdBy && r.attendees == e.attendees
    ensures r.category != ""
    ensures req.category != "" ==> r.category == req.category
    ensures req.category == "" && e.category != "" ==> r.category == e.category
    ensures req.image.None? ==> r.imageUrl == e.imageUrl
    ensures req.image.Some? ==> r.imageUrl.Some?
  {
    e.(title := req.title,
       description := req.description,
       dateTime := req.dateTime,
       location := req.location,
       capacity := req.capacity,
       category := OrElse(req.category, OrElse(e.category, DefaultCategory)),
       imageUrl := if req.image.Some? then Some(UploadUrl(req.image.value)) else e.imageUrl)
  }

  /** Existence is checked first, then ownership; neither failure changes anything. */
  function Update(c: Events, id: EventId, actor: UserId, req: UpdateRequest): (s: Step<Event>)
    ensures id !in c ==> s == Step(c, Err(NotFound))
    ensures id in c && !IsOwner(c[id], actor) ==> s == Step(c, Err(Forbidden))
    ensures s.reply.Ok? <==> id in c && IsOwner(c[id], actor)
    ensures s.reply.Ok? ==>
      s.events.Keys == c.Keys && s.reply.value == s.events[id] &&
      forall k :: k in c && k != id ==> s.events[k] == c[k]
  {
    if id !in c then Step(c, Err(NotFound))
    else if !IsOwner(c[id], actor) then Step(c, Err(Forbidden))
    else
      var e := Revised(c[id], req);
      Step(c[id := e], Ok(e))
  }

  /**
   * What a successful update does to the event: the five fields take the
   * request's values, the category is the request's, else the stored one,
   * else the default, the image changes only with a new file, and the
   * owner and roster are never touched.
   */
  lemma UpdateRevises(c: Events, id: EventId, actor: UserId, req: UpdateRequest)
    requires id in c && IsOwner(c[id], actor)
    ensures var e, e' := c[id], Update(c, id, actor, req).events[id];
      && e'.title == req.title && e'.description == req.description
      && e'.dateTime == req.dateTime && e'.location == req.location
      && e'.capacity == req.capacity
      && e'.category == (if req.category != "" then req.category
                         else if e.category != "" then e.category else DefaultCategory)
      && e'.imageUrl == (if req.image.Some? then Some(UploadUrl(req.image.value)) else e.imageUrl)
      && e'.createdBy == e.createdBy
      && e'.attendees == e.attendees
  {
  }

  /**
   * The update path honours the schema only when the request does: with
   * non-empty strings and a category that is empty or in the enumeration,
   * a schema-valid event stays schema-valid.
   */
  lemma UpdateKeepsSchemaValid(c: Events, id: EventId, actor: UserId, req: UpdateRequest)
    requires id in c && SchemaValid(c[id])
    requires req.title != "" && req.description != "" && req.location != ""
    requires req.category == "" || IsCategory(req.category)
    ensures SchemaValid(Update(c, id, actor, req).events[id])
  {
  }

  /**
   * The converse: after an owner's update the event is schema-valid only if
   * the request's strings are non-empty and its category is empty or in the
   * enumeration. The update path itself enforces neither, so a request with
   * an empty title or a category outside the enumeration is stored as
   * given, leaving an event the schema would refuse to create.
   */
  lemma UpdateSchemaValidOnlyIf(c: Events, id: EventId, actor: UserId, req: UpdateRequest)
    requires id in c && IsOwner(c[id], actor)
    ensures Update(c, id, actor, req).reply.Ok?
    ensures SchemaValid(Update(c, id, actor, req).events[id]) ==>
      && req.title != "" && req.description != "" && req.location != ""
      && (req.category == "" || IsCategory(req.category))
  {
  }

  /**
   * The ownership guard admits one user only: if two actors may each update
   * or delete the same event, they are the same user, its creator.
   */
  lemma SingleOwner(c: Events, id: EventId, a: UserId, b: UserId, req: UpdateRequest)
    ensures Update(c, id, a, req).reply.Ok? ==> id in c && a == c[id].createdBy
    ensures Delete(c, id, a).reply.Ok? ==> id in c && a == c[id].createdBy
    ensures
      && (Update(c, id, a, req).reply.Ok? || Delete(c, id, a).reply.Ok?)
      && (Update(c, id, b, req).reply.Ok? || Delete(c, id, b).reply.Ok?)
      ==> a == b
  {
  }

  /** The new capacity is never compared with the roster: an owner can shrink it below the count. */
  lemma UpdateCanExceedCapacity(c: Events, id: EventId, actor: UserId, req: UpdateRequest)
    requires id in c && IsOwner(c[id], actor)
    requires req.capacity < |c[id].attendees|
    ensures Update(c, id, actor, req).reply.Ok?
    ensures !WithinCapacity(Update(c, id, actor, req).events[id])
  {
  }

  // ---------------------------------------------------------------- delete

  /** Existence, then ownership; the owner's delete removes the event whatever its roster. */
  function Delete(c: Events, id: EventId, actor: UserId): (s: Step<()>)
    ensures id !in c ==> s == Step(c, Err(NotFound))
    ensures id in c && !IsOwner(c[id], actor) ==> s == Step(c, Err(Forbidden))
    ensures s.reply.Ok? <==> id in c && IsOwner(c[id], actor)
    ensures s.reply.Ok? ==>
      s.events.Keys == c.Keys - {id} && forall k :: k in s.events ==> s.events[k] == c[k]
  {
    if id !in c then Step(c, Err(NotFound))
    else if !IsOwner(c[id], actor) then Step(c, Err(Forbidden))
    else Step(map k | k in c && k != id :: c[k], Ok(()))
  }

  /** After the owner deletes an event, reading it gives NotFound. */
  lemma DeleteThenGet(c: Events, id: EventId, actor: UserId)
    requires id in c && IsOwner(c[id], actor)
    ensures Get(Delete(c, id, actor).events, id) == Err(NotFound)
  {
  }

  /**
   * A missing event is reported as NotFound whoever asks, before ownership
   * is looked at, by both owner-gated routes.
   */
  lemma MissingBeforeForbidden(c: Events, id: EventId, actor: UserId, req: UpdateRequest)
    requires id !in c
    ensures Update(c, id, actor, req).reply == Err(NotFound)
    ensures Delete(c, id, actor).reply == Err(NotFound)
  {
  }

  // ------------------------------------------------------------------ join

  /**
   * RSVP: one conditional mutation. The filter (event exists, user not on
   * the roster, roster shorter than capacity) and `$addToSet` happen in the
   * same step; any failed condition gives the same reply and no change.
   */
  function Join(c: Events, id: EventId, u: UserId): (s: Step<nat>)
    ensures s.reply.Ok? <==> id in c && CanJoin(c[id], u)
    ensures s.reply.Err? ==> s == Step(c, Err(FullOrJoined))
    ensures s.reply.Ok? ==>
      && s.events == c[id := c[id].(attendees := c[id].attendees + [u])]
      && s.reply.value == |c[id].attendees| + 1
      && s.reply.value <= c[id].capacity
  {
    if id in c && u !in c[id].attendees && |c[id].attendees| < c[id].capacity then
      var e := c[id];
      var joined := e.(attendees := AddToSet(e.attendees, u));
      Step(c[id := joined], Ok(|joined.attendees|))
    else
      Step(c, Err(FullOrJoined))
  }

  /** A missing, a full and an already-joined event are indistinguishable to the caller. */
  lemma JoinFailuresAlike(c: Events, id: EventId, u: UserId)
    requires id !in c || c[id].capacity <= |c[id].attendees| || u in c[id].attendees
    ensures Join(c, id, u) == Step(c, Err(FullOrJoined))
  {
  }

  /** After a successful join the user is on the roster exactly once and the roster stays duplicate-free. */
  lemma JoinAddsOnce(c: Events, id: EventId, u: UserId)
    requires id in c && NoDuplicates(c[id].attendees)
    requires Join(c, id, u).reply.Ok?
    ensures Count(Join(c, id, u).events[id].attendees, u) == 1
    ensures NoDuplicates(Join(c, id, u).events[id].attendees)
  {
    AddToSetOnce(c[id].attendees, u);
  }

  /** Joining twice: the second request is refused and changes nothing. */
  lemma JoinTwice(c: Events, id: EventId, u: UserId)
    requires Join(c, id, u).reply.Ok?
    ensures var s := Join(c, id, u); Join(s.events, id, u) == Step(s.events, Err(FullOrJoined))
  {
    var s := Join(c, id, u);
    assert u in s.events[id].attendees by {
      assert s.events[id].attendees == c[id].attendees + [u];
    }
  }

  /** Join never takes an event over capacity, so it keeps the capacity bound of the whole collection. */
  lemma JoinKeepsCapacity(c: Events, id: EventId, u: UserId)
    requires forall k :: k in c ==> WithinCapacity(c[k])
    ensures var s := Join(c, id, u); forall k :: k in s.events ==> WithinCapacity(s.events[k])
  {
  }

  /** The requests `us`, applied one after another: the collection after them and how many were admitted. */
  function JoinAll(c: Events, id: EventId, us: seq<UserId>): (Events, nat)
    decreases |us|
  {
    if us == [] then (c, 0)
    else
      var s := Join(c, id, us[0]);
      var rest := JoinAll(s.events, id, us[1..]);
      (rest.0, rest.1 + if s.reply.Ok? then 1 else 0)
  }

  /** The seats still free on an event (none when it is at or over capacity). */
  function FreeSeats(e: Event): nat {
    if |e.attendees| < e.capacity then e.capacity - |e.attendees| else 0
  }

  function Min(a: nat, b: nat): nat {
    if a <= b then a else b
  }

  /**
   * Requests serialised by the store's per-document atomicity: of `|us|`
   * distinct newcomers exactly min(|us|, free seats) are admitted, in
   * arrival order, and the rest are refused.
   */
  lemma {:induction false} JoinAllAdmitsUpToCapacity(c: Events, id: EventId, us: seq<UserId>)
    requires id in c && NoDuplicates(us)
    requires forall i :: 0 <= i < |us| ==> us[i] !in c[id].attendees
    ensures var k := Min(|us|, FreeSeats(c[id]));
      && JoinAll(c, id, us).1 == k
      && JoinAll(c, id, us).0 == c[id := c[id].(attendees := c[id].attendees + us[..k])]
    decreases |us|
  {
    var k := Min(|us|, FreeSeats(c[id]));
    if us == [] {
      assert us[..0] == [];
      assert c[id].attendees + [] == c[id].attendees;
      assert c[id := c[id].(attendees := c[id].attendees)] == c;
    } else {
      var s := Join(c, id, us[0]);
      var tail := us[1..];
      NoDuplicatesTail(us);
      if s.reply.Ok? {
        var att := c[id].attendees + [us[0]];
        assert s.events[id].attendees == att;
        forall i | 0 <= i < |tail| ensures tail[i] !in att {
          assert tail[i] == us[i + 1];
          assert tail[i] != us[0];
        }
        JoinAllAdmitsUpToCapacity(s.events, id, tail);
        assert FreeSeats(s.events[id]) == FreeSeats(c[id]) - 1;
        var k' := Min(|tail|, FreeSeats(s.events[id]));
        assert k == k' + 1;
        assert us[..k] == [us[0]] + tail[..k'];
        assert att + tail[..k'] == c[id].attendees + us[..k];
        assert s.events[id := s.events[id].(attendees := att + tail[..k'])]
            == c[id := c[id].(attendees := c[id].attendees + us[..k])];
      } else {
        assert FreeSeats(c[id]) == 0;
        JoinAllAdmitsUpToCapacity(c, id, tail);
        assert k == 0 && Min(|tail|, FreeSeats(c[id])) == 0;
      }
    }
  }

  // ----------------------------------------------------------------- leave

  /** Leave: `$pull` the user from an existing event and report the new count. */
  function Leave(c: Events, id: EventId, u: UserId): (s: Step<nat>)
    ensures id !in c ==> s == Step(c, Err(NotFound))
    ensures id in c ==>
      && s.events.Keys == c.Keys
      && (forall k :: k in c && k != id ==> s.events[k] == c[k])
      && s.events[id] == c[id].(attendees := s.events[id].attendees)
      && s.reply == Ok(|s.events[id].attendees|)
      && u !in s.events[id].attendees
      && (forall x :: x != u ==> (x in s.events[id].attendees <==> x in c[id].attendees))
      && (u !in c[id].attendees ==> s.events == c)
  {
    if id !in c then Step(c, Err(NotFound))
    else
      var left := c[id].(attendees := Pull(c[id].attendees, u));
      Step(c[id := left], Ok(|left.attendees|))
  }

  /** Leaving twice is leaving once: same collection, same count, no error. */
  lemma LeaveIdempotent(c: Events, id: EventId, u: UserId)
    ensures var s := Leave(c, id, u); Leave(s.events, id, u) == s
  {
  }

  /** A member leaving a duplicate-free roster frees exactly one seat; the capacity bound is kept. */
  lemma LeaveFreesOneSeat(c: Events, id: EventId, u: UserId)
    requires id in c && NoDuplicates(c[id].attendees) && u in c[id].attendees
    ensures Leave(c, id, u).reply == Ok(|c[id].attendees| - 1)
    ensures NoDuplicates(Leave(c, id, u).events[id].attendees)
    ensures WithinCapacity(c[id]) ==> WithinCapacity(Leave(c, id, u).events[id])
  {
    PullMemberShrinksByOne(c[id].attendees, u);
    PullKeepsNoDuplicates(c[id].attendees, u);
  }

  /** Leave never lengthens a roster, so it keeps the capacity bound of the whole collection. */
  lemma LeaveKeepsCapacity(c: Events, id: EventId, u: UserId)
    requires forall k :: k in c ==> WithinCapacity(c[k])
    ensures var s := Leave(c, id, u); forall k :: k in s.events ==> WithinCapacity(s.events[k])
  {
  }

  // -------------------------------------------------------------- listings

  /** `r` lists exactly the events starting at or after `now`, once each, by nondecreasing date. */
  ghost predicate IsUpcomingListing(c: Events, now: Millis, r: seq<EventId>) {
    && (forall i :: 0 <= i < |r| ==> r[i] in c && c[r[i]].dateTime >= now)
    && (forall k :: k in c && c[k].dateTime >= now ==> k in r)
    && (forall i, j :: 0 <= i < j < |r| ==> r[i] != r[j])
    && (forall i, j :: 0 <= i < j < |r| ==> c[r[i]].dateTime <= c[r[j]].dateTime)
  }

  /** `r` lists exactly the events created by `actor`, once each. */
  ghost predicate IsOwnedListing(c: Events, actor: UserId, r: seq<EventId>) {
    && (forall i :: 0 <= i < |r| ==> r[i] in c && c[r[i]].createdBy == actor)
    && (forall k :: k in c && c[k].createdBy == actor ==> k in r)
    && (forall i, j :: 0 <= i < j < |r| ==> r[i] != r[j])
  }

  /** Every id of `r` names an event, and their dates do not decrease along `r`. */
  predicate SortedByDate(c: Events, r: seq<EventId>) {
    && (forall i :: 0 <= i < |r| ==> r[i] in c)
    && (forall i, j :: 0 <= i < j < |r| ==> c[r[i]].dateTime <= c[r[j]].dateTime)
  }

  lemma SortedTail(c: Events, r: seq<EventId>)
    requires r != [] && SortedByDate(c, r)
    ensures SortedByDate(c, r[1..])
    ensures forall k :: k in r[1..] ==> c[r[0]].dateTime <= c[k].dateTime
  {
    forall k | k in r[1..] ensures c[r[0]].dateTime <= c[k].dateTime {
      var j :| 0 <= j < |r[1..]| && r[1..][j] == k;
      assert r[1..][j] == r[j + 1];
    }
  }

  lemma SortedCons(c: Events, x: EventId, rest: seq<EventId>)
    requires x in c && SortedByDate(c, rest)
    requires forall k :: k in rest ==> c[x].dateTime <= c[k].dateTime
    ensures SortedByDate(c, [x] + rest)
  {
    var r := [x] + rest;
    forall i, j | 0 <= i < j < |r| ensures c[r[i]].dateTime <= c[r[j]].dateTime {
      assert r[j] == rest[j - 1];
      if i > 0 {
        assert r[i] == rest[i - 1];
      }
    }
  }

  /** Insert `id` after every event that starts no later than it (so ties keep their order). */
  function InsertByDate(c: Events, r: seq<EventId>, id: EventId): (r': seq<EventId>)
    requires id in c && SortedByDate(c, r)
    ensures SortedByDate(c, r')
    ensures |r'| == |r| + 1
    ensures forall k :: k in r' <==> k in r || k == id
    ensures id !in r && NoDuplicates(r) ==> NoDuplicates(r')
  {
    if r == [] then [id]
    else if c[id].dateTime < c[r[0]].dateTime then
      SortedCons(c, id, r);
      if id !in r && NoDuplicates(r) then NoDuplicatesCons(id, r); [id] + r else [id] + r
    else
      SortedTail(c, r);
      var rest := InsertByDate(c, r[1..], id);
      SortedCons(c, r[0], rest);
      assert r == [r[0]] + r[1..];
      if id !in r && NoDuplicates(r) then
        NoDuplicatesTail(r);
        NoDuplicatesCons(r[0], rest);
        [r[0]] + rest
      else
        [r[0]] + rest
  }
}
