/**
 * The place list and its local cache as one value, and the change each
 * operation of src/map.js makes to that value: refresh from the remote
 * (`loadPlacesFromAPI`), save from the form (`savePlaceData`), delete a
 * marker (`deletePlace`) and the startup read of the cache. `PlaceStore`
 * (store.dfy) performs these changes in place; the lemmas here state what
 * they guarantee.
 */
module Sync {
  import opened Wrappers
  import opened JsText
  import opened Places
  import opened Remote

  /** The `localStorage` entry "customPlaces". The store only ever writes an
      encoded place list; `Missing` also covers the empty text, which both
      readers treat as absent, and `Undecodable` is text `JSON.parse` rejects. */
  datatype CacheEntry = Missing | Stored(places: seq<Place>) | Undecodable

  /** The in-memory list together with the cache entry. */
  datatype Snapshot = Snapshot(places: seq<Place>, cache: CacheEntry)

  /** What an operation leaves behind: the new snapshot, the request it
      sent to the remote (if it sent one) and what it reports. */
  datatype Step<O> = Step(after: Snapshot, sent: Option<Request>, outcome: O)

  datatype RefreshOutcome =
    | Refreshed
    | FellBackToCache(remoteError: string)
    | CacheUnreadable(remoteError: string)   // the fallback's JSON.parse threw

  datatype Problem = NameMissing | CoordinatesMissing

  datatype SaveFailure = Rejected(message: string) | AckWithoutData

  datatype SaveOutcome = Invalid(problem: Problem) | SaveFailed(failure: SaveFailure) | Saved(record: Place)

  datatype DeleteOutcome = Cancelled | NoTargetId | DeleteFailed(message: string) | Deleted(id: Id)

  datatype LatLng = LatLng(lat: real, lng: real)

  /** The save form as `savePlaceData` reads it: the raw name and address
      inputs, the colour input, the clicked position `tempLatLng`, the place
      being edited `editingPlace` and the clock reading taken for `timestamp`. */
  datatype Form = Form(
    name: string,
    address: string,
    color: string,
    at: Option<LatLng>,
    editing: Option<Place>,
    stamp: string)

  /** The list a cache entry stands for when it is read back: what was
      stored, or nothing when the entry is absent or cannot be decoded. */
  function CachedList(c: CacheEntry): seq<Place>
  {
    if c.Stored? then c.places else []
  }

  /** The list the page starts with (the `DOMContentLoaded` handler): the
      cached list, or the initial empty list when the entry is absent, or
      empty when it cannot be parsed. */
  function StartupSnapshot(c: CacheEntry): (s: Snapshot)
    ensures s.cache == c
    ensures c.Stored? ==> s.places == c.places
    ensures !c.Stored? ==> s.places == []
    ensures Mirrors(s)
  {
    match c
    case Missing => Snapshot([], c)
    case Stored(ps) => Snapshot(ps, c)
    case Undecodable => Snapshot([], c)
  }

  /** The list mirrors the cache: reading the cache back gives the list. */
  ghost predicate Mirrors(s: Snapshot)
  {
    s.places == CachedList(s.cache)
  }

  // ---------------------------------------------------------------- refresh

  /** `loadPlacesFromAPI`. A good reply replaces the list (a non-array
      `data` gives the empty list) and writes it to the cache; a failed one
      reloads the list from the cache without writing it, and if the cache
      cannot be parsed the exception leaves the list as it was. */
  function RefreshStep(s: Snapshot, reply: Reply<Listing>): (r: Step<RefreshOutcome>)
    ensures r.sent == Some(FetchAll)
    ensures r.outcome.Refreshed? <==> reply.Body? && reply.ok
    ensures r.after.cache == (if r.outcome.Refreshed? then Stored(r.after.places) else s.cache)
  {
    match ApiGet(reply)
    case Ok(data) =>
      var ps := if data.PlaceArray? then data.items else [];
      Step(Snapshot(ps, Stored(ps)), Some(FetchAll), Refreshed)
    case Err(msg) =>
      if s.cache.Undecodable? then Step(s, Some(FetchAll), CacheUnreadable(msg))
      else Step(Snapshot(CachedList(s.cache), s.cache), Some(FetchAll), FellBackToCache(msg))
  }

  /** A good reply: the list becomes the reply's array (or empty), and the
      whole list is written to the cache. */
  lemma RefreshAdoptsRemote(s: Snapshot, reply: Reply<Listing>)
    requires reply.Body? && reply.ok
    ensures var t := RefreshStep(s, reply);
      && t.outcome == Refreshed
      && t.after.places == (if reply.data.PlaceArray? then reply.data.items else [])
      && t.after.cache == Stored(t.after.places)
  {
  }

  /** A failed reply: the cache is not written, and the list becomes the
      cached list (empty when there is none) unless the cache cannot be
      parsed, in which case nothing changes at all. */
  lemma RefreshFallsBack(s: Snapshot, reply: Reply<Listing>)
    requires !(reply.Body? && reply.ok)
    ensures var t := RefreshStep(s, reply);
      && t.after.cache == s.cache
      && (s.cache.Undecodable? ==> t.after == s && t.outcome.CacheUnreadable?)
      && (!s.cache.Undecodable? ==> t.after.places == CachedList(s.cache) && t.outcome.FellBackToCache?)
      && (s.cache.Missing? ==> t.after.places == [])
  {
  }

  /** Refreshing twice against the same remote answer gives the same list
      and cache as refreshing once. */
  lemma RefreshIdempotent(s: Snapshot, reply: Reply<Listing>)
    ensures var once := RefreshStep(s, reply).after;
      RefreshStep(once, reply).after == once
  {
  }

  /** When the list already mirrors the cache, a failed refresh changes nothing. */
  lemma FailedRefreshIsNoOpWhenMirrored(s: Snapshot, reply: Reply<Listing>)
    requires Mirrors(s)
    requires !(reply.Body? && reply.ok)
    ensures RefreshStep(s, reply).after == s
  {
  }

  // ------------------------------------------------------------------- save

  /** `placeData`: the trimmed name and address, the clicked position, and
      the id of the place being edited, if it has one. */
  function RecordOf(form: Form, at: LatLng): Place
  {
    var existing := if form.editing.Some? then form.editing.value.id else None;
    Place(existing, Trim(form.name), Trim(form.address), at.lat, at.lng, form.color, form.stamp)
  }

  /** Position `k` is the first one carrying `id`. */
  ghost predicate FirstWithId(ps: seq<Place>, id: Id, k: nat)
    requires k <= |ps|
  {
    forall j :: 0 <= j < k ==> ps[j].id != Some(id)
  }

  /** The list after a successful update: the record replaces the first
      place carrying its id, if there is one. */
  function ReplaceFirst(ps: seq<Place>, id: Id, record: Place): (r: seq<Place>)
    ensures (forall j :: 0 <= j < |ps| ==> ps[j].id != Some(id)) ==> r == ps
    ensures forall k :: 0 <= k < |ps| && ps[k].id == Some(id) && FirstWithId(ps, id, k) ==> r == ps[k := record]
  {
    match IndexOfId(ps, id)
    case None => ps
    case Some(k) => ps[k := record]
  }

  /** `savePlaceData`. An empty trimmed name or a missing position stops the
      save before any request. A record with an id is sent as "update"; on
      success it replaces the first place with that id. A record without one
      is sent as "add"; on success it is appended with the id the reply
      assigns. Either success writes the cache; every failure leaves list
      and cache as they were. */
  function SaveStep(s: Snapshot, form: Form, reply: Reply<Ack>): (r: Step<SaveOutcome>)
    ensures r.sent.None? <==> r.outcome.Invalid?
    ensures r.sent.Some? ==> (r.sent.value.Update? || r.sent.value.Add?)
    ensures r.sent.Some? ==> (r.sent.value.Update? <==> form.editing.Some? && form.editing.value.id.Some?)
    ensures r.outcome.Saved? || r.after == s
  {
    if Trim(form.name) == "" then Step(s, None, Invalid(NameMissing))
    else if form.at.None? then Step(s, None, Invalid(CoordinatesMissing))
    else
      var record := RecordOf(form, form.at.value);
      match record.id
      case Some(id) =>
        (match ApiPost(reply)
         case Err(msg) => Step(s, Some(Update(record)), SaveFailed(Rejected(msg)))
         case Ok(_) =>
           var ps := ReplaceFirst(s.places, id, record);
           Step(Snapshot(ps, Stored(ps)), Some(Update(record)), Saved(record)))
      case None =>
        (match ApiPost(reply)
         case Err(msg) => Step(s, Some(Add(record)), SaveFailed(Rejected(msg)))
         case Ok(NoData) => Step(s, Some(Add(record)), SaveFailed(AckWithoutData))
         case Ok(AckData(newId)) =>
           var placed := record.(id := newId);
           var ps := s.places + [placed];
           Step(Snapshot(ps, Stored(ps)), Some(Add(record)), Saved(placed)))
  }

  /** A save sends a request exactly when the trimmed name is non-empty and
      a position was clicked; without one, nothing changes. */
  lemma SaveValidatesFirst(s: Snapshot, form: Form, reply: Reply<Ack>)
    ensures var t := SaveStep(s, form, reply);
      && (t.sent.None? <==> Trim(form.name) == "" || form.at.None?)
      && (t.sent.None? ==> t.after == s && t.outcome.Invalid?)
      && (Trim(form.name) == "" ==> t.outcome == Invalid(NameMissing))
      && (Trim(form.name) != "" && form.at.None? ==> t.outcome == Invalid(CoordinatesMissing))
  {
  }

  /** A valid form is posted whatever the remote answers: as an update of
      the record when the edited place has an id, as an add otherwise. */
  lemma SaveSendsForm(s: Snapshot, form: Form, reply: Reply<Ack>)
    requires Trim(form.name) != "" && form.at.Some?
    ensures SaveStep(s, form, reply).sent ==
      Some(if form.editing.Some? && form.editing.value.id.Some?
           then Update(RecordOf(form, form.at.value))
           else Add(RecordOf(form, form.at.value)))
  {
  }

  /** What a saved record promises: its name is the typed name with white
      space cut from both ends, and non-empty; its address is trimmed the
      same way; it sits at the clicked position; and its id is the edited
      place's id on an update and the reply's id on an add. */
  lemma SavedRecord(s: Snapshot, form: Form, reply: Reply<Ack>)
    requires SaveStep(s, form, reply).outcome.Saved?
    ensures var t := SaveStep(s, form, reply);
      var p := t.outcome.record;
      && p.name != "" && TrimmedFrom(p.name, form.name)
      && TrimmedFrom(p.address, form.address)
      && form.at.Some? && p.lat == form.at.value.lat && p.lng == form.at.value.lng
      && p.color == form.color && p.timestamp == form.stamp
      && (t.sent.value.Update? ==> form.editing.Some? && p.id.Some? && p.id == form.editing.value.id)
      && (t.sent.value.Add? ==> reply.Body? && reply.data.AckData? && p.id == reply.data.id)
  {
  }

  /** All or nothing: a save either succeeds, with the remote's consent, and
      leaves the cache mirroring the new list, or leaves list and cache
      exactly as they were. */
  lemma SaveAllOrNothing(s: Snapshot, form: Form, reply: Reply<Ack>)
    ensures var t := SaveStep(s, form, reply);
      && (t.outcome.Saved? ==> ApiPost(reply).Ok? && t.sent.Some? && Mirrors(t.after))
      && (!t.outcome.Saved? ==> t.after == s)
      && (t.sent.Some? && ApiPost(reply).Err? ==> t.after == s && t.outcome.SaveFailed?)
  {
  }

  /** An update that the remote accepts replaces only the first place
      carrying the edited id: the length and every other place stay, and
      a list without that id is left unchanged. */
  lemma UpdateReplacesFirstMatch(s: Snapshot, form: Form, reply: Reply<Ack>, id: Id)
    requires Trim(form.name) != "" && form.at.Some?
    requires form.editing.Some? && form.editing.value.id == Some(id)
    requires reply.Body? && reply.ok
    ensures var t := SaveStep(s, form, reply);
      && t.sent == Some(Update(RecordOf(form, form.at.value)))
      && t.outcome == Saved(RecordOf(form, form.at.value))
      && |t.after.places| == |s.places|
      && ((forall j :: 0 <= j < |s.places| ==> s.places[j].id != Some(id)) ==> t.after.places == s.places)
      && (forall k :: 0 <= k < |s.places| && s.places[k].id == Some(id) ==>
            exists f ::
              && 0 <= f <= k && s.places[f].id == Some(id)
              && t.after.places[f] == RecordOf(form, form.at.value)
              && (forall j :: 0 <= j < |s.places| && j != f ==> t.after.places[j] == s.places[j]))
      && t.after.cache == Stored(t.after.places)
  {
  }

  /** An add that the remote acknowledges with data appends the record,
      carrying the returned id, after every existing place. */
  lemma AddAppends(s: Snapshot, form: Form, reply: Reply<Ack>)
    requires Trim(form.name) != "" && form.at.Some?
    requires form.editing.None? || form.editing.value.id.None?
    requires reply.Body? && reply.ok && reply.data.AckData?
    ensures var t := SaveStep(s, form, reply);
      && t.sent == Some(Add(RecordOf(form, form.at.value)))
      && |t.after.places| == |s.places| + 1
      && t.after.places[..|s.places|] == s.places
      && t.after.places[|s.places|] == RecordOf(form, form.at.value).(id := reply.data.id)
      && t.outcome == Saved(t.after.places[|s.places|])
      && t.after.cache == Stored(t.after.places)
  {
  }

  /** An update keeps ids unique, and so does an add whose returned id is
      new to the list. */
  lemma SaveKeepsIdsUnique(s: Snapshot, form: Form, reply: Reply<Ack>)
    requires UniqueIds(s.places)
    requires (form.editing.None? || form.editing.value.id.None?)
               && reply.Body? && reply.data.AckData? && reply.data.id.Some? ==>
               forall j :: 0 <= j < |s.places| ==> s.places[j].id != reply.data.id
    ensures UniqueIds(SaveStep(s, form, reply).after.places)
  {
  }

  // ----------------------------------------------------------------- delete

  /** `deletePlace`. Nothing happens unless the user confirms; the target is
      the first place the coordinate test accepts, and without one, or when
      it has no id, no request is sent. On success every place carrying the
      target's id is filtered out and the cache is written; a rejected
      request changes nothing. */
  function DeleteStep(s: Snapshot, confirmed: bool, near: Place -> bool, reply: Reply<Ack>): (r: Step<DeleteOutcome>)
    ensures r.sent.None? <==> r.outcome.Cancelled? || r.outcome.NoTargetId?
    ensures r.sent.Some? ==> r.sent.value.Delete?
    ensures r.outcome.Deleted? ==> r.sent == Some(Request.Delete(r.outcome.id))
    ensures r.outcome.Deleted? || r.after == s
  {
    if !confirmed then Step(s, None, Cancelled)
    else
      var target := FindIndex(s.places, near);
      if target.None? || s.places[target.value].id.None? then Step(s, None, NoTargetId)
      else
        var id := s.places[target.value].id.value;
        match ApiPost(reply)
        case Err(msg) => Step(s, Some(Delete(id)), DeleteFailed(msg))
        case Ok(_) =>
          var ps := WithoutId(s.places, id);
          Step(Snapshot(ps, Stored(ps)), Some(Delete(id)), Deleted(id))
  }

  /** No request is sent, and nothing changes, when the user cancels or
      when the first place the coordinate test accepts is missing or has no
      id; a later matching place with an id is not considered. */
  lemma DeleteNeedsTargetId(s: Snapshot, confirmed: bool, near: Place -> bool, reply: Reply<Ack>)
    ensures var t := DeleteStep(s, confirmed, near, reply);
      var target := FindIndex(s.places, near);
      && (t.sent.None? <==> !confirmed || target.None? || s.places[target.value].id.None?)
      && (t.sent.None? ==> t.after == s)
      && (confirmed && (forall j :: 0 <= j < |s.places| ==> !near(s.places[j])) ==> t.sent.None?)
  {
  }

  /** All or nothing: a delete either succeeds with the remote's consent
      and leaves the cache mirroring the new list, or changes nothing. */
  lemma DeleteAllOrNothing(s: Snapshot, confirmed: bool, near: Place -> bool, reply: Reply<Ack>)
    ensures var t := DeleteStep(s, confirmed, near, reply);
      && (t.outcome.Deleted? ==> ApiPost(reply).Ok? && t.sent == Some(Delete(t.outcome.id)) && Mirrors(t.after))
      && (!t.outcome.Deleted? ==> t.after == s)
  {
  }

  /** A successful delete keeps exactly the places whose id differs from
      the target's, in their original relative order; none left carries it. */
  lemma DeleteFilters(s: Snapshot, confirmed: bool, near: Place -> bool, reply: Reply<Ack>)
    requires DeleteStep(s, confirmed, near, reply).outcome.Deleted?
    ensures var t := DeleteStep(s, confirmed, near, reply);
      var id := t.outcome.id;
      && confirmed
      && (exists k ::
            && 0 <= k < |s.places| && near(s.places[k]) && s.places[k].id == Some(id)
            && (forall j :: 0 <= j < k ==> !near(s.places[j])))
      && t.after.places == WithoutId(s.places, id)
      && (forall p :: p in t.after.places <==> p in s.places && p.id != Some(id))
      && |t.after.places| == |s.places| - CountId(s.places, id)
      && (forall a, b :: s.places == a + b ==> t.after.places == WithoutId(a, id) + WithoutId(b, id))
  {
    var t := DeleteStep(s, confirmed, near, reply);
    var id := t.outcome.id;
    var k := FindIndex(s.places, near).value;
    assert forall j :: 0 <= j < k ==> !near(s.places[j]);
    WithoutIdLength(s.places, id);
    forall a, b | s.places == a + b ensures t.after.places == WithoutId(a, id) + WithoutId(b, id) {
      WithoutIdAppend(a, b, id);
    }
  }

  /** A confirmed delete posts the id of the first place the position
      matches, whatever the remote answers. */
  lemma DeleteSendsTarget(s: Snapshot, near: Place -> bool, reply: Reply<Ack>, k: nat, id: Id)
    requires k < |s.places| && near(s.places[k]) && (forall j :: 0 <= j < k ==> !near(s.places[j]))
    requires s.places[k].id == Some(id)
    ensures DeleteStep(s, true, near, reply).sent == Some(Request.Delete(id))
  {
    var f := FindIndex(s.places, near);
    assert f.Some?;
    assert f.value == k;
  }

  /** When the user confirms, the first place the position matches has an
      id, and the remote accepts, that id is sent and every place carrying
      it is filtered out; the cache is written with the new list. */
  lemma DeleteOnSuccess(s: Snapshot, near: Place -> bool, reply: Reply<Ack>, k: nat, id: Id)
    requires k < |s.places| && near(s.places[k]) && (forall j :: 0 <= j < k ==> !near(s.places[j]))
    requires s.places[k].id == Some(id)
    requires reply.Body? && reply.ok
    ensures var t := DeleteStep(s, true, near, reply);
      && t.sent == Some(Request.Delete(id))
      && t.outcome == Deleted(id)
      && t.after.places == WithoutId(s.places, id)
      && t.after.cache == Stored(t.after.places)
  {
    var f := FindIndex(s.places, near);
    assert f.Some?;
    assert f.value == k;
  }

  /** A delete keeps ids unique. */
  lemma DeleteKeepsIdsUnique(s: Snapshot, confirmed: bool, near: Place -> bool, reply: Reply<Ack>)
    requires UniqueIds(s.places)
    ensures UniqueIds(DeleteStep(s, confirmed, near, reply).after.places)
  {
    var t := DeleteStep(s, confirmed, near, reply);
    if t.outcome.Deleted? {
      WithoutIdKeepsUnique(s.places, t.outcome.id);
    }
  }

  // -------------------------------------------------------------- invariant

  /** Every operation keeps the list mirroring the cache (and the page
      starts that way, see `StartupSnapshot`). */
  lemma RefreshKeepsMirror(s: Snapshot, reply: Reply<Listing>)
    requires Mirrors(s)
    ensures Mirrors(RefreshStep(s, reply).after)
  {
  }

  lemma SaveKeepsMirror(s: Snapshot, form: Form, reply: Reply<Ack>)
    requires Mirrors(s)
    ensures Mirrors(SaveStep(s, form, reply).after)
  {
  }

  lemma DeleteKeepsMirror(s: Snapshot, confirmed: bool, near: Place -> bool, reply: Reply<Ack>)
    requires Mirrors(s)
    ensures Mirrors(DeleteStep(s, confirmed, near, reply).after)
  {
  }

  // --------------------------------------------------------------- examples

  /** Places "1", "2" and "3"; deleting the one at the clicked position,
      "2", against an accepting remote leaves "1" and "3" in that order. */
  lemma DeleteExample(p1: Place, p2: Place, p3: Place, near: Place -> bool, reply: Reply<Ack>)
    requires p1.id == Some("1") && p2.id == Some("2") && p3.id == Some("3")
    requires !near(p1) && near(p2)
    requires reply.Body? && reply.ok
    ensures var t := DeleteStep(Snapshot([p1, p2, p3], Missing), true, near, reply);
      t.sent == Some(Request.Delete("2")) && t.after.places == [p1, p3]
  {
    var ps := [p1, p2, p3];
    DeleteOnSuccess(Snapshot(ps, Missing), near, reply, 1, "2");
    assert [p3][1..] == [];
    assert WithoutId([p3], "2") == [p3] + WithoutId([], "2");
    assert [p2, p3][1..] == [p3];
    assert WithoutId([p2, p3], "2") == WithoutId([p3], "2");
    assert ps[1..] == [p2, p3];
    assert WithoutId(ps, "2") == [p1] + WithoutId([p2, p3], "2");
  }

  /** Adding "A" at (1, 2) against a remote that answers with id "7" puts a
      place with id "7" and name "A" at the end of the list. */
  lemma AddExample(s: Snapshot, reply: Reply<Ack>)
    requires reply == Body(true, AckData(Some("7")), "")
    ensures var t := SaveStep(s, Form("A", "", "#ff6b6b", Some(LatLng(1.0, 2.0)), None, "t"), reply);
      && t.outcome.Saved?
      && t.after.places == s.places + [t.outcome.record]
      && t.outcome.record.id == Some("7") && t.outcome.record.name == "A"
  {
    assert LeadingSpace("A") == 0;
    assert TrailingSpace("A") == 0;
    assert "A"[0..1] == "A";
    assert Trim("A") == "A";
    AddAppends(s, Form("A", "", "#ff6b6b", Some(LatLng(1.0, 2.0)), None, "t"), reply);
  }
}
