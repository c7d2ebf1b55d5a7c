/**
 * The saved map markers (`customPlaces` in src/map.js) and the three array
 * operations the store applies to them: `findIndex` by id, `find` by a
 * caller-supplied test, and `filter` on id.
 */
module Places {
  import opened Wrappers

  /** An id assigned by the remote store. JavaScript treats `null`,
      `undefined`, `""` and `0` as "no id"; those are `None` in `Place.id`,
      so an `Id` itself is never empty. */
  type Id = s: string | s != "" witness "1"

  /** One marker: every field the save form writes. Coordinates are carried,
      never computed with; `timestamp` is an opaque ISO-8601 text. */
  datatype Place = Place(
    id: Option<Id>,
    name: string,
    address: string,
    lat: real,
    lng: real,
    color: string,
    timestamp: string)

  /** `ps.findIndex(p => p.id === id)`: the first position holding `id`. */
  function IndexOfId(ps: seq<Place>, id: Id): (r: Option<nat>)
    ensures r.Some? ==> r.value < |ps| && ps[r.value].id == Some(id)
    ensures r.Some? ==> forall j :: 0 <= j < r.value ==> ps[j].id != Some(id)
    ensures r.None? <==> forall j :: 0 <= j < |ps| ==> ps[j].id != Some(id)
  {
    if ps == [] then None
    else if ps[0].id == Some(id) then Some(0)
    else
      match IndexOfId(ps[1..], id)
      case None => None
      case Some(i) => Some(i + 1)
  }

  /** The position of `ps.find(matches)`: the first place the test accepts. */
  function FindIndex(ps: seq<Place>, matches: Place -> bool): (r: Option<nat>)
    ensures r.Some? ==> r.value < |ps| && matches(ps[r.value])
    ensures r.Some? ==> forall j :: 0 <= j < r.value ==> !matches(ps[j])
    ensures r.None? <==> forall j :: 0 <= j < |ps| ==> !matches(ps[j])
  {
    if ps == [] then None
    else if matches(ps[0]) then Some(0)
    else
      match FindIndex(ps[1..], matches)
      case None => None
      case Some(i) => Some(i + 1)
  }

  /** `ps.filter(p => p.id !== id)`: every place that does not carry `id`. */
  function WithoutId(ps: seq<Place>, id: Id): (r: seq<Place>)
    ensures |r| <= |ps|
    ensures forall p :: p in r <==> p in ps && p.id != Some(id)
  {
    if ps == [] then []
    else (if ps[0].id == Some(id) then [] else [ps[0]]) + WithoutId(ps[1..], id)
  }

  /** Filtering distributes over concatenation: the places kept stay in the
      relative order they had. */
  lemma {:induction false} WithoutIdAppend(a: seq<Place>, b: seq<Place>, id: Id)
    ensures WithoutId(a + b, id) == WithoutId(a, id) + WithoutId(b, id)
  {
    if a == [] {
      assert a + b == b;
    } else {
      assert (a + b)[1..] == a[1..] + b;
      WithoutIdAppend(a[1..], b, id);
    }
  }

  /** A list in which nothing carries `id` passes the filter unchanged. */
  lemma {:induction false} WithoutIdAbsent(ps: seq<Place>, id: Id)
    requires forall j :: 0 <= j < |ps| ==> ps[j].id != Some(id)
    ensures WithoutId(ps, id) == ps
  {
    if ps != [] {
      WithoutIdAbsent(ps[1..], id);
    }
  }

  /** Filtering a second time on the same id removes nothing more. */
  lemma WithoutIdIdempotent(ps: seq<Place>, id: Id)
    ensures WithoutId(WithoutId(ps, id), id) == WithoutId(ps, id)
  {
    var r := WithoutId(ps, id);
    forall j | 0 <= j < |r| ensures r[j].id != Some(id) {
      assert r[j] in r;
    }
    WithoutIdAbsent(r, id);
  }

  /** Removes exactly the places that carry `id`: the length drops by their number. */
  lemma {:induction false} WithoutIdLength(ps: seq<Place>, id: Id)
    ensures |WithoutId(ps, id)| == |ps| - CountId(ps, id)
  {
    if ps != [] {
      WithoutIdLength(ps[1..], id);
    }
  }

  /** How many places carry `id`. */
  function CountId(ps: seq<Place>, id: Id): nat
  {
    if ps == [] then 0 else (if ps[0].id == Some(id) then 1 else 0) + CountId(ps[1..], id)
  }

  /** No two places share an id (places without one are not constrained). */
  ghost predicate UniqueIds(ps: seq<Place>)
  {
    forall i, j :: 0 <= i < j < |ps| && ps[i].id.Some? ==> ps[i].id != ps[j].id
  }

  /** Filtering keeps ids unique. */
  lemma {:induction false} WithoutIdKeepsUnique(ps: seq<Place>, id: Id)
    requires UniqueIds(ps)
    ensures UniqueIds(WithoutId(ps, id))
  {
    if ps != [] {
      var tail := ps[1..];
      assert UniqueIds(tail) by {
        forall i, j | 0 <= i < j < |tail| && tail[i].id.Some? ensures tail[i].id != tail[j].id {
          assert ps[i + 1] == tail[i] && ps[j + 1] == tail[j];
        }
      }
      WithoutIdKeepsUnique(tail, id);
      var rest := WithoutId(tail, id);
      if ps[0].id != Some(id) && ps[0].id.Some? {
        forall k | 0 <= k < |rest| ensures rest[k].id != ps[0].id {
          assert rest[k] in tail;
          var m :| 0 <= m < |tail| && tail[m] == rest[k];
          assert ps[m + 1] == rest[k];
        }
      }
    }
  }
}
