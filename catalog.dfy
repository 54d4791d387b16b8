/** The `files` table and the `File` record the handlers fill from it
    (main.go:211-218), with the two queries the handlers run against it:
    the five most recent rows (main.go:117) and the row with a given id
    (main.go:155). */
module Catalog {
  import opened Outcomes

  /** A row of `files(id, created_at, name, url, size)`. `createdAt` is the
      database timestamp in the database's own units (an abstract tick at
      the timestamp's full resolution), not Unix seconds. */
  datatype Row = Row(id: nat, createdAt: nat, name: string, url: string, size: int)

  /** The `File` record: a scanned row plus the `Seen` flag computed at read time. */
  datatype File = File(id: nat, name: string, createdAt: nat, size: int, url: string, seen: bool)

  /** `rows.Scan(&f.ID, &f.CreatedAt, &f.Name, &f.Url, &f.Size)` into a fresh
      `File`, whose `Seen` keeps its zero value. */
  function FileOf(r: Row): (f: File)
    ensures !f.seen
  {
    File(r.id, r.name, r.createdAt, r.size, r.url, false)
  }

  // ---------------------------------------------------------------------
  // SELECT ... FROM files WHERE id=$1
  // ---------------------------------------------------------------------

  /** The row with the given id; `None` is the `Scan` error for no rows. */
  function FindRow(catalog: seq<Row>, id: nat): (r: Option<Row>)
    ensures r.Some? ==> r.value in catalog && r.value.id == id
    ensures r.None? <==> forall i :: 0 <= i < |catalog| ==> catalog[i].id != id
  {
    if catalog == [] then None
    else if catalog[0].id == id then Some(catalog[0])
    else FindRow(catalog[1..], id)
  }

  /** Appending a row with an id not yet in the catalog leaves every earlier
      lookup as it was and makes the new row the answer for its id. */
  lemma {:induction false} FindRowAfterAppend(catalog: seq<Row>, row: Row, id: nat)
    requires forall i :: 0 <= i < |catalog| ==> catalog[i].id != row.id
    ensures FindRow(catalog + [row], id) == if id == row.id then Some(row) else FindRow(catalog, id)
  {
    if catalog == [] {
    } else {
      assert (catalog + [row])[1..] == catalog[1..] + [row];
      FindRowAfterAppend(catalog[1..], row, id);
    }
  }

  // ---------------------------------------------------------------------
  // SELECT ... FROM files ORDER BY created_at DESC LIMIT 5
  // ---------------------------------------------------------------------

  const ListLimit: nat := 5

  predicate SortedByCreatedDesc(rows: seq<Row>) {
    forall i, j :: 0 <= i < j < |rows| ==> rows[i].createdAt >= rows[j].createdAt
  }

  /** Inserts `r` into rows already in descending `created_at` order, in front
      of the rows it ties with. */
  function InsertByCreated(r: Row, rows: seq<Row>): (out: seq<Row>)
    requires SortedByCreatedDesc(rows)
    ensures SortedByCreatedDesc(out)
    ensures multiset(out) == multiset(rows) + multiset{r}
  {
    if rows == [] || r.createdAt >= rows[0].createdAt then [r] + rows
    else
      var tail := InsertByCreated(r, rows[1..]);
      assert rows == [rows[0]] + rows[1..];
      NewestFirst(rows[0], r, rows[1..], tail);
      [rows[0]] + tail
  }

  /** A row at least as new as `r` and as every row of `rest` can stand in
      front of any arrangement of them. */
  lemma NewestFirst(head: Row, r: Row, rest: seq<Row>, tail: seq<Row>)
    requires SortedByCreatedDesc([head] + rest) && r.createdAt < head.createdAt
    requires SortedByCreatedDesc(tail) && multiset(tail) == multiset(rest) + multiset{r}
    ensures SortedByCreatedDesc([head] + tail)
  {
    forall j | 0 <= j < |tail|
      ensures head.createdAt >= tail[j].createdAt
    {
      var x := tail[j];
      assert x in multiset(tail);
      if x != r {
        assert x in multiset(rest);
        assert x in rest;
        var m :| 0 <= m < |rest| && rest[m] == x;
        var whole := [head] + rest;
        assert whole[0] == head && whole[m + 1] == x;
        assert whole[0].createdAt >= whole[m + 1].createdAt;
      }
    }
  }

  /** The catalog in descending `created_at` order; the database leaves the
      order of rows with equal times open, and this is one admissible order. */
  function SortByCreatedDesc(rows: seq<Row>): (out: seq<Row>)
    ensures SortedByCreatedDesc(out)
    ensures multiset(out) == multiset(rows)
  {
    if rows == [] then []
    else
      assert rows == [rows[0]] + rows[1..];
      InsertByCreated(rows[0], SortByCreatedDesc(rows[1..]))
  }

  /** The result of the listing query: at most five rows of the catalog, newest
      first, and no row left out is newer than a row returned. */
  function RecentRows(catalog: seq<Row>): (out: seq<Row>)
    ensures |out| == if |catalog| < ListLimit then |catalog| else ListLimit
    ensures SortedByCreatedDesc(out)
    ensures multiset(out) <= multiset(catalog)
    ensures forall x, j :: x in multiset(catalog) - multiset(out) && 0 <= j < |out| ==> x.createdAt <= out[j].createdAt
  {
    var sorted := SortByCreatedDesc(catalog);
    assert |sorted| == |multiset(sorted)| == |multiset(catalog)| == |catalog|;
    var k := if |sorted| < ListLimit then |sorted| else ListLimit;
    TakeNewest(sorted, k);
    sorted[..k]
  }

  /** Taking a prefix of a sorted sequence keeps the newest rows: what is left
      behind is never newer than what is taken. */
  lemma TakeNewest(sorted: seq<Row>, k: nat)
    requires SortedByCreatedDesc(sorted) && k <= |sorted|
    ensures SortedByCreatedDesc(sorted[..k])
    ensures multiset(sorted[..k]) <= multiset(sorted)
    ensures forall x, j :: x in multiset(sorted) - multiset(sorted[..k]) && 0 <= j < k ==> x.createdAt <= sorted[..k][j].createdAt
  {
    var taken, left := sorted[..k], sorted[k..];
    assert sorted == taken + left;
    assert multiset(sorted) - multiset(taken) == multiset(left);
    forall x, j | x in multiset(sorted) - multiset(taken) && 0 <= j < k
      ensures x.createdAt <= taken[j].createdAt
    {
      assert x in left;
      var m :| 0 <= m < |left| && left[m] == x;
      assert sorted[k + m] == x && sorted[j] == taken[j];
    }
  }

  /** The first row of the listing is at least as new as every catalog row. */
  lemma ListingHeadIsNewest(catalog: seq<Row>, x: Row)
    requires x in catalog
    ensures |RecentRows(catalog)| >= 1 && x.createdAt <= RecentRows(catalog)[0].createdAt
  {
    var out := RecentRows(catalog);
    assert |out| >= 1;
    if x in multiset(out) {
      assert x in out;
      var k :| 0 <= k < |out| && out[k] == x;
    } else {
      assert x in multiset(catalog) - multiset(out);
    }
  }

  /** A row newer than every row of the catalog heads the listing once it is
      added, whatever the catalog held. */
  lemma NewestRowListedFirst(catalog: seq<Row>, row: Row)
    requires forall i :: 0 <= i < |catalog| ==> catalog[i].createdAt < row.createdAt
    ensures |RecentRows(catalog + [row])| >= 1 && RecentRows(catalog + [row])[0] == row
  {
    var all := catalog + [row];
    ListingHeadIsNewest(all, row);
    assert RecentRows(all)[0] in multiset(all);
  }
}
