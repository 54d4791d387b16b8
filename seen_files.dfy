/** The per-session list of viewed file ids, stored in the session under
    `seen_files` as a `[]uint64` (main.go:112-115, 161-176). */
module SeenFiles {

  const SeenFilesKey := "seen_files"

  /** A value held in the session's `Values` map: the `[]uint64` the handlers
      write, or a value of any other dynamic type. */
  datatype SessionValue = IdList(ids: seq<nat>) | OtherValue

  /** `s.Values["seen_files"].([]uint64)` with its `ok` check: a missing key or
      a value of another type reads as the empty list. */
  function SeenIds(values: map<string, SessionValue>): (ids: seq<nat>)
    ensures SeenFilesKey in values && values[SeenFilesKey].IdList? ==> ids == values[SeenFilesKey].ids
    ensures SeenFilesKey !in values || values[SeenFilesKey].OtherValue? ==> ids == []
  {
    if SeenFilesKey in values then
      match values[SeenFilesKey]
      case IdList(ids) => ids
      case OtherValue => []
    else []
  }

  predicate NoDuplicates(s: seq<nat>) {
    forall i, j :: 0 <= i < j < |s| ==> s[i] != s[j]
  }

  /** The detail view's update of the list: `id` is appended when it is not
      in the list already (main.go:169-171). */
  function MarkSeen(seen: seq<nat>, id: nat): (r: seq<nat>)
    ensures id in r
    ensures forall x :: x in r <==> x in seen || x == id
    ensures |seen| <= |r| <= |seen| + 1 && r[..|seen|] == seen
    ensures id in seen <==> r == seen
    ensures NoDuplicates(seen) ==> NoDuplicates(r)
  {
    if id in seen then seen else seen + [id]
  }

  /** Viewing the same file twice leaves the list as viewing it once. */
  lemma MarkSeenIdempotent(seen: seq<nat>, id: nat)
    ensures MarkSeen(MarkSeen(seen, id), id) == MarkSeen(seen, id)
  {
  }

  /** The list after a session views the files `views` in order, one detail
      request after another. */
  function ViewAll(seen: seq<nat>, views: seq<nat>): seq<nat>
    decreases |views|
  {
    if views == [] then seen
    else MarkSeen(ViewAll(seen, views[..|views| - 1]), views[|views| - 1])
  }

  /** Over any number of views the list stays free of duplicates, keeps what
      it held in front and in order, and holds exactly the old ids and the
      viewed ones. */
  lemma {:induction false} ViewAllKeepsSeenSet(seen: seq<nat>, views: seq<nat>)
    ensures NoDuplicates(seen) ==> NoDuplicates(ViewAll(seen, views))
    ensures |seen| <= |ViewAll(seen, views)| && ViewAll(seen, views)[..|seen|] == seen
    ensures forall x :: x in ViewAll(seen, views) <==> x in seen || x in views
    decreases |views|
  {
    if views != [] {
      var before := views[..|views| - 1];
      ViewAllKeepsSeenSet(seen, before);
      var mid := ViewAll(seen, before);
      assert views == before + [views[|views| - 1]];
      assert mid[..|seen|] == seen;
      assert MarkSeen(mid, views[|views| - 1])[..|mid|] == mid;
    }
  }

  /** The session of one request: `values` is `s.Values` as the handler sees
      and edits it, `saved` is what the session backend holds. */
  class Session {
    var values: map<string, SessionValue>
    var saved: map<string, SessionValue>

    /** The session as `session.Get` loads it from the backend. */
    constructor (stored: map<string, SessionValue>)
      ensures values == stored && saved == stored
    {
      values := stored;
      saved := stored;
    }

    /** `s.Save(...)`: on success the backend holds the edited values; on
        failure it keeps what it had and the error is reported. */
    method Save(ok: bool) returns (err: bool)
      modifies this`saved
      ensures err == !ok
      ensures saved == if ok then values else old(saved)
    {
      if ok {
        saved := values;
      }
      err := !ok;
    }
  }
}
