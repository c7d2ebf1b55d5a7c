/**
 * The remote spreadsheet endpoint as the store sees it (`apiGet` and
 * `apiPost` in src/map.js). The HTTP exchange and the JSON decoding are
 * not modelled: a call is given the reply the endpoint produced.
 */
module Remote {
  import opened Wrappers
  import opened Places

  /** What a request came back with: either the transport or the body decoding
      failed (`fetch` or `res.json()` threw), or a decoded body `{ok, data, error}`
      arrived. A missing or `null` `error` is the empty text. */
  datatype Reply<D> = Unreachable(reason: string) | Body(ok: bool, data: D, error: string)

  /** The `data` of a GET reply: a JSON array of places, or anything else. */
  datatype Listing = PlaceArray(items: seq<Place>) | NotAnArray

  /** The `data` of a POST reply, as far as the add path reads it: absent or
      `null`, or an object whose `id` is the new place's id (`None` when that
      id is missing or falsy). */
  datatype Ack = NoData | AckData(id: Option<Id>)

  /** What the store sends: the GET that fetches everything, or one POST
      tagged "add", "update" or "delete". */
  datatype Request = FetchAll | Add(place: Place) | Update(place: Place) | Delete(id: Id)

  const GetFailed: string := "API GET failed"
  const PostFailed: string := "API POST failed"

  /** The `ok` test shared by `apiGet` and `apiPost`: a reply whose body says
      `ok` yields its data; anything else fails, with the body's `error`
      or, when that is empty, with `fallback`. */
  function CheckOk<D>(reply: Reply<D>, fallback: string): (r: Result<D>)
    requires fallback != ""
    ensures r.Ok? <==> reply.Body? && reply.ok
    ensures r.Ok? ==> r.value == reply.data
    ensures r.Err? && reply.Body? ==> r.error != "" && (reply.error != "" ==> r.error == reply.error)
    ensures r.Err? && reply.Body? && reply.error == "" ==> r.error == fallback
  {
    match reply
    case Unreachable(reason) => Err(reason)
    case Body(ok, data, error) =>
      if ok then Ok(data) else Err(if error != "" then error else fallback)
  }

  /** `apiGet()`: the fetched listing, or the failure it throws. */
  function ApiGet(reply: Reply<Listing>): (r: Result<Listing>)
    ensures r.Ok? <==> reply.Body? && reply.ok
    ensures r.Ok? ==> r.value == reply.data
    ensures r.Err? && reply.Body? ==> r.error == if reply.error != "" then reply.error else GetFailed
  {
    CheckOk(reply, GetFailed)
  }

  /** `apiPost(payload)` returns the whole body, or throws; this yields the
      body's `data`, the only part any caller reads, or the failure. */
  function ApiPost(reply: Reply<Ack>): (r: Result<Ack>)
    ensures r.Ok? <==> reply.Body? && reply.ok
    ensures r.Ok? ==> r.value == reply.data
    ensures r.Err? && reply.Body? ==> r.error == if reply.error != "" then reply.error else PostFailed
  {
    CheckOk(reply, PostFailed)
  }
}
