/**
 * The page's place store: the module-level `customPlaces` list of
 * src/map.js and its `localStorage` entry, changed in place by the
 * operations the page runs. Each method does what the source does, step
 * by step, and promises the change described by the matching step
 * function of `Sync`, whose lemmas say what that change guarantees.
 */
module Store {
  import opened Wrappers
  import opened JsText
  import opened Places
  import opened Remote
  import opened Sync

  class PlaceStore {
    var places: seq<Place>
    var cache: CacheEntry

    function Snap(): Snapshot
      reads this
    {
      Snapshot(places, cache)
    }

    /** The list mirrors what the cache reads back as. */
    ghost predicate Valid()
      reads this
    {
      Mirrors(Snap())
    }

    /** Page load: `customPlaces` starts empty and takes the cached list
        if there is one; an entry that fails to parse gives the empty list. */
    constructor Startup(stored: CacheEntry)
      ensures Snap() == StartupSnapshot(stored)
      ensures Valid()
    {
      places := [];
      cache := stored;
      match stored
      case Missing =>
      case Stored(ps) => places := ps;
      case Undecodable => places := [];
    }

    /** `loadPlacesFromAPI`, given the reply the GET produced. */
    method Refresh(reply: Reply<Listing>) returns (outcome: RefreshOutcome)
      modifies this
      ensures RefreshStep(old(Snap()), reply) == Step(Snap(), Some(FetchAll), outcome)
      ensures old(Valid()) ==> Valid()
      ensures old(Valid()) && !outcome.Refreshed? ==> places == old(places) && cache == old(cache)
    {
      ghost var before := Snap();
      var got := ApiGet(reply);
      if got.Ok? {
        places := if got.value.PlaceArray? then got.value.items else [];
        cache := Stored(places);
        outcome := Refreshed;
      } else {
        match cache
        case Undecodable =>
          outcome := CacheUnreadable(got.error);
        case Missing =>
          places := [];
          outcome := FellBackToCache(got.error);
        case Stored(ps) =>
          places := ps;
          outcome := FellBackToCache(got.error);
      }
      if Mirrors(before) {
        RefreshKeepsMirror(before, reply);
        if !outcome.Refreshed? {
          FailedRefreshIsNoOpWhenMirrored(before, reply);
        }
      }
    }

    /** `savePlaceData`, given the form's inputs and the reply the POST
        produced, if one is sent. `sent` is the request posted. */
    method Save(form: Form, reply: Reply<Ack>) returns (sent: Option<Request>, outcome: SaveOutcome)
      modifies this
      ensures SaveStep(old(Snap()), form, reply) == Step(Snap(), sent, outcome)
      ensures old(Valid()) ==> Valid()
    {
      ghost var before := Snap();
      var name := Trim(form.name);
      if name == "" {
        return None, Invalid(NameMissing);
      }
      if form.at.None? {
        return None, Invalid(CoordinatesMissing);
      }
      var record := RecordOf(form, form.at.value);
      if record.id.Some? {
        sent := Some(Update(record));
        var got := ApiPost(reply);
        if got.Err? {
          return sent, SaveFailed(Rejected(got.error));
        }
        var idx := IndexOfId(places, record.id.value);
        if idx.Some? {
          places := places[idx.value := record];
        }
        outcome := Saved(record);
      } else {
        sent := Some(Add(record));
        var got := ApiPost(reply);
        if got.Err? {
          return sent, SaveFailed(Rejected(got.error));
        }
        if got.value.NoData? {
          return sent, SaveFailed(AckWithoutData);
        }
        record := record.(id := got.value.id);
        places := places + [record];
        outcome := Saved(record);
      }
      cache := Stored(places);
      if Mirrors(before) { SaveKeepsMirror(before, form, reply); }
    }

    /** `deletePlace`, given the user's confirmation, the coordinate test
        that picks the target and the reply the POST produced, if one is
        sent. `sent` is the request posted. */
    method Delete(confirmed: bool, near: Place -> bool, reply: Reply<Ack>) returns (sent: Option<Request>, outcome: DeleteOutcome)
      modifies this
      ensures DeleteStep(old(Snap()), confirmed, near, reply) == Step(Snap(), sent, outcome)
      ensures old(Valid()) ==> Valid()
    {
      ghost var before := Snap();
      if !confirmed {
        return None, Cancelled;
      }
      var target := FindIndex(places, near);
      if target.None? || places[target.value].id.None? {
        return None, NoTargetId;
      }
      var id := places[target.value].id.value;
      sent := Some(Request.Delete(id));
      var got := ApiPost(reply);
      if got.Err? {
        return sent, DeleteFailed(got.error);
      }
      places := WithoutId(places, id);
      cache := Stored(places);
      outcome := Deleted(id);
      if Mirrors(before) { DeleteKeepsMirror(before, confirmed, near, reply); }
    }
  }
}
