/** The two read handlers: `GET /` lists the five newest files and marks the
    ones this session has viewed (main.go:105-147); `GET /detail/:id` loads
    one file and records it as viewed (main.go:149-181). The database and
    the session backend are abstract: the catalog is a sequence of rows and
    each call that can fail takes a flag saying whether it succeeded. */
module Handlers {
  import opened Outcomes
  import opened Catalog
  import opened SeenFiles

  /** Which call an error came from. The source returns the library's error
      unchanged; these tags only name the failure point. */
  datatype HandlerError =
    | SessionUnavailable  // session.Get failed
    | QueryFailed         // the query or its Scan failed, including "no rows"
    | SaveFailed          // s.Save failed

  /** `files[i]` is `rows[i]` as scanned, with `Seen` set exactly when its id
      is in `seen`. */
  ghost predicate Annotates(rows: seq<Row>, seen: seq<nat>, files: seq<File>) {
    |files| == |rows| &&
    forall i :: 0 <= i < |rows| ==> files[i] == FileOf(rows[i]).(seen := rows[i].id in seen)
  }

  /** What the rendered list looks like: at most five files, newest first,
      each marked seen exactly when the session has viewed it. */
  ghost predicate ListingShape(files: seq<File>, seen: seq<nat>) {
    && |files| <= ListLimit
    && (forall i, j :: 0 <= i < j < |files| ==> files[i].createdAt >= files[j].createdAt)
    && (forall i :: 0 <= i < |files| ==> (files[i].seen <==> files[i].id in seen))
  }

  /** Annotating the listing query's rows keeps the query's length and order
      and changes nothing but `Seen`. */
  lemma AnnotatedListing(catalog: seq<Row>, seen: seq<nat>, files: seq<File>)
    requires Annotates(RecentRows(catalog), seen, files)
    ensures ListingShape(files, seen)
    ensures forall i :: 0 <= i < |files| ==> files[i].(seen := false) == FileOf(RecentRows(catalog)[i])
  {
    var rows := RecentRows(catalog);
    forall i, j | 0 <= i < j < |files|
      ensures files[i].createdAt >= files[j].createdAt
    {
      assert files[i].createdAt == rows[i].createdAt && files[j].createdAt == rows[j].createdAt;
    }
  }

  /** The `for rows.Next()` loop of `GET /` (main.go:123-134): each row is
      scanned into a fresh `File`, marked seen when its id is in the list,
      and appended. */
  method AnnotateRows(rows: seq<Row>, seenFileIds: seq<nat>) returns (files: seq<File>)
    ensures Annotates(rows, seenFileIds, files)
  {
    files := [];
    var i := 0;
    while i < |rows|
      invariant 0 <= i <= |rows|
      invariant |files| == i
      invariant forall k :: 0 <= k < i ==> files[k] == FileOf(rows[k]).(seen := rows[k].id in seenFileIds)
    {
      var f := FileOf(rows[i]);
      if rows[i].id in seenFileIds {
        f := f.(seen := true);
      }
      files := files + [f];
      i := i + 1;
    }
  }

  /** The `GET /` handler up to rendering. */
  method ListFiles(catalog: seq<Row>, values: map<string, SessionValue>, getOk: bool, queryOk: bool)
    returns (res: Result<seq<File>, HandlerError>)
    ensures !getOk ==> res == Failure(SessionUnavailable)
    ensures getOk && !queryOk ==> res == Failure(QueryFailed)
    ensures getOk && queryOk ==> res.Success? && Annotates(RecentRows(catalog), SeenIds(values), res.value)
    ensures res.Success? ==> ListingShape(res.value, SeenIds(values))
  {
    if !getOk {
      return Failure(SessionUnavailable);
    }
    var seenFileIds := SeenIds(values);

    if !queryOk {
      return Failure(QueryFailed);
    }
    var rows := RecentRows(catalog);

    var files := AnnotateRows(rows, seenFileIds);
    AnnotatedListing(catalog, seenFileIds, files);
    res := Success(files);
  }

  /** The `GET /detail/:id` handler up to rendering. A failed lookup returns
      before the session is touched; otherwise the id is added to the list
      when absent and the list is written back and saved, and a failed save
      is returned instead of the page. The page's `File` keeps `Seen` false. */
  method ViewDetail(catalog: seq<Row>, id: nat, queryOk: bool, getOk: bool, s: Session, saveOk: bool)
    returns (res: Result<File, HandlerError>)
    modifies s
    ensures !queryOk || FindRow(catalog, id).None? ==>
      res == Failure(QueryFailed) && s.values == old(s.values) && s.saved == old(s.saved)
    ensures queryOk && FindRow(catalog, id).Some? && !getOk ==>
      res == Failure(SessionUnavailable) && s.values == old(s.values) && s.saved == old(s.saved)
    ensures queryOk && FindRow(catalog, id).Some? && getOk ==>
      && s.values == old(s.values)[SeenFilesKey := IdList(MarkSeen(SeenIds(old(s.values)), id))]
      && s.saved == (if saveOk then s.values else old(s.saved))
      && res == (if saveOk then Success(FileOf(FindRow(catalog, id).value)) else Failure(SaveFailed))
  {
    var row := if queryOk then FindRow(catalog, id) else None;
    if row.None? {
      return Failure(QueryFailed);
    }
    var f := FileOf(row.value);

    if !getOk {
      return Failure(SessionUnavailable);
    }
    var seenFileIds := SeenIds(s.values);
    if f.id !in seenFileIds {
      seenFileIds := seenFileIds + [f.id];
    }
    s.values := s.values[SeenFilesKey := IdList(seenFileIds)];
    var err := s.Save(saveOk);
    if err {
      return Failure(SaveFailed);
    }
    return Success(f);
  }

  /** A successful detail view followed by a listing: the viewed file is now
      marked seen, every other file keeps the mark it had. */
  lemma ViewThenList(rows: seq<Row>, values: map<string, SessionValue>, id: nat, before: seq<File>, after: seq<File>)
    requires Annotates(rows, SeenIds(values), before)
    requires Annotates(rows, SeenIds(values[SeenFilesKey := IdList(MarkSeen(SeenIds(values), id))]), after)
    ensures |after| == |before|
    ensures forall i :: 0 <= i < |rows| ==> after[i].seen == (before[i].seen || rows[i].id == id)
    ensures forall i :: 0 <= i < |rows| ==> after[i].(seen := false) == before[i].(seen := false)
  {
  }
}
