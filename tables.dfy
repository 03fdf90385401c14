/** The queries the controller sends to the database, over the rows of the
    two tables kept as sequences in insertion order. */
module Tables {
  import opened Js
  import opened Records

  /** The two columns of `urls` that a `WHERE column = $1` clause tests. */
  datatype Column = CodeColumn | LongUrlColumn

  function Field(l: Link, col: Column): string
  {
    match col
    case CodeColumn => l.code
    case LongUrlColumn => l.longUrl
  }

  /** `SELECT ... FROM urls WHERE col = value` followed by `rows[0]`: the
      first matching row, or none when nothing matches. */
  function Select(urls: seq<Link>, col: Column, value: string): (r: Option<Link>)
    ensures r.None? <==> forall i :: 0 <= i < |urls| ==> Field(urls[i], col) != value
    ensures r.Some? ==> exists i :: 0 <= i < |urls| && urls[i] == r.value && Field(r.value, col) == value &&
                                   forall j :: 0 <= j < i ==> Field(urls[j], col) != value
  {
    if urls == [] then None
    else if Field(urls[0], col) == value then Some(urls[0])
    else
      var r := Select(urls[1..], col, value);
      assert forall j :: 1 <= j < |urls| ==> urls[j] == urls[1..][j - 1];
      r
  }

  /** No two rows agree on `col`. */
  predicate Unique(urls: seq<Link>, col: Column)
  {
    forall i, j :: 0 <= i < j < |urls| ==> Field(urls[i], col) != Field(urls[j], col)
  }

  /** The table state the controller means to keep: one row per code, one
      row per long URL, codes that the last-path-segment extraction of
      decode can recover, and no empty long URL. */
  predicate WellFormed(urls: seq<Link>)
  {
    Unique(urls, CodeColumn) && Unique(urls, LongUrlColumn) &&
    forall i :: 0 <= i < |urls| ==> '/' !in urls[i].code && urls[i].longUrl != ""
  }

  /** Every visit row names a code that is in `urls`. */
  predicate VisitsResolve(urls: seq<Link>, visits: seq<Visit>)
  {
    forall i :: 0 <= i < |visits| ==> Select(urls, CodeColumn, visits[i].code).Some?
  }

  /** When a column is unique, the lookup finds the one row holding the
      value. */
  lemma SelectUnique(urls: seq<Link>, col: Column, l: Link)
    requires Unique(urls, col)
    requires l in urls
    ensures Select(urls, col, Field(l, col)) == Some(l)
  {
    var k :| 0 <= k < |urls| && urls[k] == l;
    var r := Select(urls, col, Field(l, col));
    var i :| 0 <= i < |urls| && urls[i] == r.value && Field(r.value, col) == Field(l, col) &&
             forall j :: 0 <= j < i ==> Field(urls[j], col) != Field(l, col);
    assert i == k;
  }

  /** Appending a row never changes what an earlier lookup found; it can
      only answer a lookup that found nothing before. */
  lemma {:induction false} SelectAfterAppend(urls: seq<Link>, l: Link, col: Column, value: string)
    ensures Select(urls + [l], col, value) ==
            if Select(urls, col, value).Some? then Select(urls, col, value)
            else if Field(l, col) == value then Some(l) else None
  {
    if urls != [] {
      assert (urls + [l])[1..] == urls[1..] + [l];
      SelectAfterAppend(urls[1..], l, col, value);
    }
  }

  /** Appending a row whose value does not occur yet keeps the column
      unique. */
  lemma AppendKeepsUnique(urls: seq<Link>, l: Link, col: Column)
    requires Unique(urls, col)
    requires Select(urls, col, Field(l, col)).None?
    ensures Unique(urls + [l], col)
  {
  }

  /** Adding rows to `urls` keeps every visit row resolvable. */
  lemma AppendKeepsVisitsResolved(urls: seq<Link>, l: Link, visits: seq<Visit>)
    requires VisitsResolve(urls, visits)
    ensures VisitsResolve(urls + [l], visits)
  {
    forall i | 0 <= i < |visits|
      ensures Select(urls + [l], CodeColumn, visits[i].code).Some?
    {
      SelectAfterAppend(urls, l, CodeColumn, visits[i].code);
    }
  }

  /** A visit row for a stored code keeps every visit row resolvable. */
  lemma AppendVisitKeepsVisitsResolved(urls: seq<Link>, visits: seq<Visit>, v: Visit)
    requires VisitsResolve(urls, visits)
    requires Select(urls, CodeColumn, v.code).Some?
    ensures VisitsResolve(urls, visits + [v])
  {
    var vs := visits + [v];
    forall i | 0 <= i < |vs| ensures Select(urls, CodeColumn, vs[i].code).Some? {
      if i < |visits| {
        assert vs[i] == visits[i];
      }
    }
  }

  /** The number of visit rows recorded for `code`. */
  function VisitCount(visits: seq<Visit>, code: string): nat
  {
    if visits == [] then 0
    else
      VisitCount(visits[1..], code) + (if visits[0].code == code then 1 else 0)
  }

  /** A code has no visits counted exactly when no visit row names it. */
  lemma {:induction false} VisitCountZero(visits: seq<Visit>, code: string)
    ensures VisitCount(visits, code) == 0 <==> forall i :: 0 <= i < |visits| ==> visits[i].code != code
  {
    if visits != [] {
      VisitCountZero(visits[1..], code);
      assert forall i :: 1 <= i < |visits| ==> visits[i] == visits[1..][i - 1];
    }
  }

  /** One more visit row adds one to the count of its own code and nothing
      to any other. */
  lemma {:induction false} VisitCountAppend(visits: seq<Visit>, v: Visit, code: string)
    ensures VisitCount(visits + [v], code) == VisitCount(visits, code) + (if v.code == code then 1 else 0)
  {
    if visits != [] {
      assert (visits + [v])[1..] == visits[1..] + [v];
      VisitCountAppend(visits[1..], v, code);
    }
  }

  /** `ORDER BY created_at DESC`. */
  predicate NewestFirst(rows: seq<Link>)
  {
    forall i, j :: 0 <= i < j < |rows| ==> rows[i].createdAt >= rows[j].createdAt
  }

  /** Puts `l` into a newest-first sequence in front of the first row that
      is not newer than it. */
  function InsertNewest(l: Link, rows: seq<Link>): (r: seq<Link>)
    requires NewestFirst(rows)
    ensures NewestFirst(r)
    ensures multiset(r) == multiset(rows) + multiset{l}
  {
    if rows == [] || l.createdAt >= rows[0].createdAt then [l] + rows
    else
      var tail := InsertNewest(l, rows[1..]);
      assert rows == [rows[0]] + rows[1..];
      assert multiset(rows) == multiset{rows[0]} + multiset(rows[1..]);
      BoundedByHead(l, rows, tail);
      HeadOnTop(rows[0], tail);
      [rows[0]] + tail
  }

  /** A row at least as new as every row of a newest-first sequence can go
      in front of it. */
  lemma HeadOnTop(h: Link, rows: seq<Link>)
    requires NewestFirst(rows)
    requires forall k :: 0 <= k < |rows| ==> rows[k].createdAt <= h.createdAt
    ensures NewestFirst([h] + rows)
  {
    var r := [h] + rows;
    forall i, j | 0 <= i < j < |r| ensures r[i].createdAt >= r[j].createdAt {
      assert r[j] == rows[j - 1];
      if i > 0 {
        assert r[i] == rows[i - 1];
      }
    }
  }

  /** The step of `InsertNewest` that keeps the head newest. */
  lemma BoundedByHead(l: Link, rows: seq<Link>, tail: seq<Link>)
    requires NewestFirst(rows) && |rows| >= 1
    requires l.createdAt < rows[0].createdAt
    requires multiset(tail) == multiset(rows[1..]) + multiset{l}
    ensures forall k :: 0 <= k < |tail| ==> tail[k].createdAt <= rows[0].createdAt
  {
    forall k | 0 <= k < |tail| ensures tail[k].createdAt <= rows[0].createdAt {
      assert tail[k] in multiset(tail);
      if tail[k] != l {
        assert tail[k] in multiset(rows[1..]);
        assert tail[k] in rows[1..];
        var m :| 0 <= m < |rows[1..]| && rows[1..][m] == tail[k];
        assert rows[m + 1] == tail[k];
      }
    }
  }

  /** The rows of `urls` in the order `ORDER BY created_at DESC` gives them.
      The database leaves the order of rows with equal `created_at` open;
      this definition fixes one. */
  function SortNewestFirst(urls: seq<Link>): (r: seq<Link>)
    ensures NewestFirst(r)
    ensures multiset(r) == multiset(urls)
  {
    if urls == [] then []
    else
      assert urls == [urls[0]] + urls[1..];
      InsertNewest(urls[0], SortNewestFirst(urls[1..]))
  }
}
