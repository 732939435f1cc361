/** Sequences of report rows: the order a table scan yields them in, and the
    `ORDER BY date DESC` sort applied to a listing.

    SQLite leaves the relative order of rows with equal dates unspecified, so
    the sort is specified by what any correct answer satisfies: the result is
    a permutation of its input and is non-increasing by date. The insertion
    sort below is one such answer. */
module Rows {
  import opened Store
  import opened TextOrder

  /** Every integer set that is not empty has a least element. */
  lemma {:induction false} MinExists(ks: set<int>)
    requires ks != {}
    ensures exists m :: m in ks && forall k :: k in ks ==> m <= k
    decreases |ks|
  {
    var x := PickOne(ks);
    var rest := ks - {x};
    if rest != {} {
      MinExists(rest);
      var m :| m in rest && forall k :: k in rest ==> m <= k;
      var least := if x < m then x else m;
      forall k | k in ks
        ensures least <= k
      {
        if k != x {
          assert k in rest;
        }
      }
      assert least in ks;
    } else {
      forall k | k in ks
        ensures x <= k
      {
        assert k !in rest;
      }
    }
  }

  /** Some element of a set that is not empty. */
  lemma PickOne(ks: set<int>) returns (x: int)
    requires ks != {}
    ensures x in ks
  {
    if forall k :: k !in ks {
      assert false;
    }
    x :| x in ks;
  }

  /** The least element of a set that is not empty. */
  function MinKey(ks: set<int>): (m: int)
    requires ks != {}
    ensures m in ks
    ensures forall k :: k in ks ==> m <= k
  {
    MinExists(ks);
    var m :| m in ks && forall k :: k in ks ==> m <= k;
    m
  }

  /** The keys of a table in ascending order: rowid order, the order a full
      scan of an SQLite table visits them in. */
  function KeysAscending(ks: set<int>): (r: seq<int>)
    ensures forall k :: k in r <==> k in ks
    ensures forall i, j :: 0 <= i < j < |r| ==> r[i] < r[j]
    decreases |ks|
  {
    if ks == {} then []
    else
      var m := MinKey(ks);
      var rest := KeysAscending(ks - {m});
      assert forall i :: 0 <= i < |rest| ==> m < rest[i] by {
        forall i | 0 <= i < |rest| ensures m < rest[i] {
          assert rest[i] in ks - {m};
        }
      }
      [m] + rest
  }

  /** All rows of the reports table, in rowid order. */
  function Scan(reports: map<int, Report>): (r: seq<Report>)
    requires forall k :: k in reports ==> reports[k].id == k
    ensures forall x :: x in r <==> x in reports.Values
    ensures forall i, j :: 0 <= i < j < |r| ==> r[i].id < r[j].id
  {
    var ks := KeysAscending(reports.Keys);
    var r := seq(|ks|, i requires 0 <= i < |ks| => reports[ks[i]]);
    assert forall x :: x in reports.Values ==> x in r by {
      forall x | x in reports.Values ensures x in r {
        var k :| k in reports && reports[k] == x;
        var i :| 0 <= i < |ks| && ks[i] == k;
        assert r[i] == x;
      }
    }
    r
  }

  /** No row occurs twice. */
  predicate Distinct(rows: seq<Report>)
  {
    forall i, j :: 0 <= i < j < |rows| ==> rows[i] != rows[j]
  }

  /** Putting a new row in front keeps a sequence free of repeats. */
  lemma DistinctCons(a: Report, rows: seq<Report>)
    requires Distinct(rows) && a !in rows
    ensures Distinct([a] + rows)
  {
    var r := [a] + rows;
    forall i, j | 0 <= i < j < |r| ensures r[i] != r[j] {
      assert r[j] == rows[j - 1];
      if i > 0 {
        assert r[i] == rows[i - 1];
      }
    }
  }

  /** The tail of a sequence free of repeats is free of them and lacks the head. */
  lemma DistinctTail(rows: seq<Report>)
    requires Distinct(rows) && rows != []
    ensures Distinct(rows[1..]) && rows[0] !in rows[1..]
  {
    var tail := rows[1..];
    forall i, j | 0 <= i < j < |tail| ensures tail[i] != tail[j] {
      assert tail[i] == rows[i + 1] && tail[j] == rows[j + 1];
    }
    forall j | 0 <= j < |tail| ensures tail[j] != rows[0] {
      assert tail[j] == rows[j + 1];
    }
  }

  /** A sequence is free of repeats exactly when no element is counted
      twice in its multiset. */
  lemma {:induction false} DistinctIffSingleCounts(rows: seq<Report>)
    ensures Distinct(rows) <==> forall x :: multiset(rows)[x] <= 1
  {
    if rows == [] {
    } else {
      var a, rest := rows[0], rows[1..];
      assert rows == [a] + rest;
      DistinctIffSingleCounts(rest);
      if Distinct(rows) {
        assert Distinct(rest) by {
          forall i, j | 0 <= i < j < |rest| ensures rest[i] != rest[j] {
            assert rest[i] == rows[i + 1] && rest[j] == rows[j + 1];
          }
        }
        forall j | 0 <= j < |rest| ensures rest[j] != a {
          assert rest[j] == rows[j + 1];
        }
        assert multiset(rest)[a] == 0;
        forall x ensures multiset(rows)[x] <= 1 {
          assert multiset(rows)[x] == multiset([a])[x] + multiset(rest)[x];
        }
      } else {
        var i, j :| 0 <= i < j < |rows| && rows[i] == rows[j];
        if i == 0 {
          assert rows[j] == rest[j - 1];
          assert multiset(rest)[a] >= 1;
          assert multiset(rows)[a] == 1 + multiset(rest)[a];
        } else {
          assert rest[i - 1] == rest[j - 1];
          assert !Distinct(rest);
          var x :| multiset(rest)[x] > 1;
          assert multiset(rows)[x] == multiset([a])[x] + multiset(rest)[x];
        }
      }
    }
  }

  /** Reordering a sequence without repeats cannot create one. */
  lemma DistinctPermutation(a: seq<Report>, b: seq<Report>)
    requires multiset(a) == multiset(b)
    requires Distinct(a)
    ensures Distinct(b)
  {
    DistinctIffSingleCounts(a);
    DistinctIffSingleCounts(b);
  }

  /** Non-increasing by date: what `ORDER BY date DESC` guarantees. */
  predicate SortedByDateDesc(rows: seq<Report>)
  {
    forall i, j :: 0 <= i < j < |rows| ==> LexLe(rows[j].date, rows[i].date)
  }

  /** Every row is dated at or before `d`. */
  predicate AtMost(rows: seq<Report>, d: string)
  {
    forall j :: 0 <= j < |rows| ==> LexLe(rows[j].date, d)
  }

  /** A sorted sequence stays sorted behind a row at least as new as all of it. */
  lemma PrependSorted(x: Report, rows: seq<Report>)
    requires SortedByDateDesc(rows) && AtMost(rows, x.date)
    ensures SortedByDateDesc([x] + rows)
  {
    var r := [x] + rows;
    forall i, j | 0 <= i < j < |r| ensures LexLe(r[j].date, r[i].date) {
      assert r[j] == rows[j - 1];
      if i > 0 {
        assert r[i] == rows[i - 1];
      }
    }
  }

  /** The tail of a sorted sequence is sorted and dated at or before its head. */
  lemma SortedTail(rows: seq<Report>)
    requires SortedByDateDesc(rows) && rows != []
    ensures SortedByDateDesc(rows[1..]) && AtMost(rows[1..], rows[0].date)
  {
    var tail := rows[1..];
    forall i, j | 0 <= i < j < |tail| ensures LexLe(tail[j].date, tail[i].date) {
      assert tail[i] == rows[i + 1] && tail[j] == rows[j + 1];
    }
    forall j | 0 <= j < |tail| ensures LexLe(tail[j].date, rows[0].date) {
      assert tail[j] == rows[j + 1];
    }
  }

  /** A date bound depends only on which rows there are, not their order. */
  lemma AtMostPermutation(a: seq<Report>, b: seq<Report>, d: string)
    requires multiset(b) <= multiset(a) && AtMost(a, d)
    ensures AtMost(b, d)
  {
    forall j | 0 <= j < |b| ensures LexLe(b[j].date, d) {
      assert b[j] in multiset(b);
      assert b[j] in multiset(a);
      var k :| 0 <= k < |a| && a[k] == b[j];
    }
  }

  /** Places `x` before the first row whose date does not exceed its own. */
  function Insert(x: Report, rows: seq<Report>): (r: seq<Report>)
    requires SortedByDateDesc(rows)
    ensures SortedByDateDesc(r)
    ensures multiset(r) == multiset(rows) + multiset{x}
  {
    if rows == [] then [x]
    else if LexLe(rows[0].date, x.date) then
      SortedTail(rows);
      assert AtMost(rows, x.date) by {
        forall j | 0 <= j < |rows| ensures LexLe(rows[j].date, x.date) {
          if j > 0 {
            assert rows[j] == rows[1..][j - 1];
            LexLeTransitive(rows[j].date, rows[0].date, x.date);
          }
        }
      }
      PrependSorted(x, rows);
      [x] + rows
    else
      LexLeTotal(rows[0].date, x.date);
      var head, tail := rows[0], rows[1..];
      assert rows == [head] + tail;
      SortedTail(rows);
      var rest := Insert(x, tail);
      AtMostPermutation(tail + [x], rest, head.date);
      PrependSorted(head, rest);
      [head] + rest
  }

  /** Sorts rows newest first: a permutation that is non-increasing by date. */
  function SortByDateDesc(rows: seq<Report>): (r: seq<Report>)
    ensures SortedByDateDesc(r)
    ensures multiset(r) == multiset(rows)
  {
    if rows == [] then []
    else
      assert rows == [rows[0]] + rows[1..];
      Insert(rows[0], SortByDateDesc(rows[1..]))
  }
}
