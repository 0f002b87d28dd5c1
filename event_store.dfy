/**
 * The event routes as methods on one store object that holds the event
 * collection. Each mutating method is proved to leave the collection and
 * reply that the corresponding Catalog function prescribes.
 */
module EventStore {
  import opened EventModel
  import opened Roster
  import Catalog

  class Store {
    /** The event collection. */
    var events: Catalog.Events
    /** The id the next created event receives; it stands for the database's id generator. */
    var nextId: EventId

    /** Every stored id was handed out before, and no roster holds a user twice. */
    ghost predicate Valid()
      reads this
    {
      && (forall id :: id in events ==> id < nextId)
      && (forall id :: id in events ==> NoDuplicates(events[id].attendees))
    }

    constructor ()
      ensures Valid() && events == map[] && nextId == 0
    {
      events := map[];
      nextId := 0;
    }

    /** GET /my-events: the ids of the events `actor` created, in id order. */
    method MyEvents(actor: UserId) returns (ids: seq<EventId>)
      requires Valid()
      ensures Catalog.IsOwnedListing(events, actor, ids)
      ensures forall i, j :: 0 <= i < j < |ids| ==> ids[i] < ids[j]
    {
      ids := [];
      var id := 0;
      while id < nextId
        invariant 0 <= id <= nextId
        invariant forall i :: 0 <= i < |ids| ==> ids[i] < id && ids[i] in events && events[ids[i]].createdBy == actor
        invariant forall k :: k < id && k in events && events[k].createdBy == actor ==> k in ids
        invariant forall i, j :: 0 <= i < j < |ids| ==> ids[i] < ids[j]
      {
        if id in events && events[id].createdBy == actor {
          ids := ids + [id];
        }
        id := id + 1;
      }
    }

    /** POST /: validate the request and store the new event under a fresh id. */
    method Create(req: Catalog.CreateRequest, actor: UserId) returns (r: Catalog.Result<EventId>)
      requires Valid()
      modifies this
      ensures Valid()
      ensures Catalog.Step(events, r) == Catalog.Create(old(events), old(nextId), req, actor)
    {
      var made := Catalog.NewEvent(req, actor);
      if made.Err? {
        r := Catalog.Err(made.failure);
      } else {
        var id := nextId;
        events := events[id := made.value];
        nextId := nextId + 1;
        r := Catalog.Ok(id);
      }
    }

    /**
     * GET /: the ids of the events starting at or after `now`, by date.
     * Each qualifying id is inserted into the sorted result in turn.
     */
    method List(now: Millis) returns (ids: seq<EventId>)
      requires Valid()
      ensures Catalog.IsUpcomingListing(events, now, ids)
    {
      ids := [];
      var id := 0;
      while id < nextId
        invariant 0 <= id <= nextId
        invariant Catalog.SortedByDate(events, ids)
        invariant NoDuplicates(ids)
        invariant forall k :: k in ids <==> k < id && k in events && events[k].dateTime >= now
      {
        if id in events && events[id].dateTime >= now {
          ids := Catalog.InsertByDate(events, ids, id);
        }
        id := id + 1;
      }
    }

    /** GET /:id */
    function Get(id: EventId): (r: Catalog.Result<Event>)
      reads this
      ensures r.Ok? <==> id in events
      ensures r.Ok? ==> r.value == events[id]
      ensures r.Err? ==> r.failure == Catalog.NotFound
    {
      Catalog.Get(events, id)
    }

    /** PUT /:id: existence, then ownership, then the update document. */
    method Update(id: EventId, actor: UserId, req: Catalog.UpdateRequest) returns (r: Catalog.Result<Event>)
      requires Valid()
      modifies this
      ensures Valid() && nextId == old(nextId)
      ensures Catalog.Step(events, r) == Catalog.Update(old(events), id, actor, req)
    {
      if id !in events {
        return Catalog.Err(Catalog.NotFound);
      }
      var e := events[id];
      if e.createdBy != actor {
        return Catalog.Err(Catalog.Forbidden);
      }
      var updated := Catalog.Revised(e, req);
      events := events[id := updated];
      r := Catalog.Ok(updated);
    }

    /** DELETE /:id: existence, then ownership, then removal whatever the roster. */
    method Delete(id: EventId, actor: UserId) returns (r: Catalog.Result<()>)
      requires Valid()
      modifies this
      ensures Valid() && nextId == old(nextId)
      ensures Catalog.Step(events, r) == Catalog.Delete(old(events), id, actor)
    {
      if id !in events {
        return Catalog.Err(Catalog.NotFound);
      }
      if events[id].createdBy != actor {
        return Catalog.Err(Catalog.Forbidden);
      }
      events := events - {id};
      r := Catalog.Ok(());
    }

    /**
     * POST /:id/rsvp: the guarded `$addToSet`. The guard and the write are
     * one step of this method, as they are one document update in the store.
     */
    method Join(id: EventId, u: UserId) returns (r: Catalog.Result<nat>)
      requires Valid()
      modifies this
      ensures Valid() && nextId == old(nextId)
      ensures Catalog.Step(events, r) == Catalog.Join(old(events), id, u)
    {
      if id in events && u !in events[id].attendees && |events[id].attendees| < events[id].capacity {
        var e := events[id];
        AddToSetOnce(e.attendees, u);
        var joined := e.(attendees := AddToSet(e.attendees, u));
        events := events[id := joined];
        r := Catalog.Ok(|joined.attendees|);
      } else {
        r := Catalog.Err(Catalog.FullOrJoined);
      }
    }

    /** POST /:id/leave: `$pull` the user; only a missing event is an error. */
    method Leave(id: EventId, u: UserId) returns (r: Catalog.Result<nat>)
      requires Valid()
      modifies this
      ensures Valid() && nextId == old(nextId)
      ensures Catalog.Step(events, r) == Catalog.Leave(old(events), id, u)
    {
      if id !in events {
        return Catalog.Err(Catalog.NotFound);
      }
      var e := events[id];
      PullKeepsNoDuplicates(e.attendees, u);
      var left := e.(attendees := Pull(e.attendees, u));
      events := events[id := left];
      r := Catalog.Ok(|left.attendees|);
    }
  }

  /**
   * A capacity-two event filled, refused, freed and refilled, using only the
   * methods' contracts.
   */
  method CapacityTwoWalkthrough(owner: UserId, a: UserId, b: UserId, c: UserId)
    requires a != b && b != c && a != c
  {
    var store := new Store();
    var req := Catalog.CreateRequest("Meetup", "Monthly meetup", Some(0), "Hall", Some(2), "", Some("poster.png"));
    var created := store.Create(req, owner);
    assert created == Catalog.Ok(0);
    var r := store.Join(0, a);
    assert r == Catalog.Ok(1);
    r := store.Join(0, b);
    assert r == Catalog.Ok(2);
    r := store.Join(0, c);
    assert r == Catalog.Err(Catalog.FullOrJoined);
    ghost var full := store.events;
    Catalog.LeaveFreesOneSeat(full, 0, a);
    r := store.Leave(0, a);
    assert r == Catalog.Ok(1);
    r := store.Join(0, c);
    assert r == Catalog.Ok(2);
    var gone := store.Delete(0, owner);
    assert gone.Ok?;
    assert store.Get(0) == Catalog.Err(Catalog.NotFound);
  }
}
