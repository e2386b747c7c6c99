/** The tables of the HTTP console and the queries on them,
    src-tauri/src/services/http_workspace_store.rs. */
module HttpTables {
  import opened Utf8Text

  // ----- Rows -----

  /** A row in the order of insertion; `scope` holds the foreign keys. */
  datatype Row<S, T> = Row(id: string, scope: S, name: string, sortOrder: int, content: T)

  function Ids<S, T>(rows: seq<Row<S, T>>): set<string> {
    set k | 0 <= k < |rows| :: rows[k].id
  }

  /** The primary key. */
  predicate Distinct<S, T>(rows: seq<Row<S, T>>) {
    forall i, j :: 0 <= i < j < |rows| ==> rows[i].id != rows[j].id
  }

  lemma DistinctMore<S, T>(rows: seq<Row<S, T>>, row: Row<S, T>)
    ensures Distinct(rows + [row]) <==> Distinct(rows) && row.id !in Ids(rows)
  {
    var more := rows + [row];
    if Distinct(more) {
      assert forall i :: 0 <= i < |rows| ==> more[i] == rows[i];
      assert more[|rows|] == row;
    }
  }

  lemma DistinctPrefix<S, T>(rows: seq<Row<S, T>>, all: seq<Row<S, T>>)
    requires rows <= all && Distinct(all)
    ensures Distinct(rows)
  {
  }

  // ----- Queries -----

  predicate NotAfter<S, T>(a: Row<S, T>, b: Row<S, T>) {
    a.sortOrder < b.sortOrder || (a.sortOrder == b.sortOrder && AtMost(a.name, b.name))
  }

  function Where<S(==), T>(rows: seq<Row<S, T>>, scope: S): seq<Row<S, T>> {
    if rows == [] then []
    else (if rows[0].scope == scope then [rows[0]] else []) + Where(rows[1..], scope)
  }

  function PutInOrder<S, T>(row: Row<S, T>, rows: seq<Row<S, T>>): seq<Row<S, T>> {
    if rows == [] || NotAfter(row, rows[0]) then [row] + rows else [rows[0]] + PutInOrder(row, rows[1..])
  }

  function OrderBy<S, T>(rows: seq<Row<S, T>>): seq<Row<S, T>> {
    if rows == [] then [] else PutInOrder(rows[0], OrderBy(rows[1..]))
  }

  /** `ORDER BY sort_order, name`, with rows that tie in the order of insertion. */
  function Select<S(==), T>(rows: seq<Row<S, T>>, scope: S): seq<Row<S, T>> {
    OrderBy(Where(rows, scope))
  }

  predicate Ranked<S, T>(rows: seq<Row<S, T>>) {
    forall i, j :: 0 <= i < j < |rows| ==> rows[i].sortOrder < rows[j].sortOrder
  }

  lemma {:induction false} RankedIsOrdered<S, T>(rows: seq<Row<S, T>>)
    requires Ranked(rows)
    ensures OrderBy(rows) == rows
  {
    if rows != [] {
      RankedIsOrdered(rows[1..]);
      assert rows == [rows[0]] + rows[1..];
    }
  }

  lemma Regroup<A>(a: seq<A>, b: seq<A>, c: seq<A>)
    ensures a + b + c == a + (b + c)
  {
  }

  lemma {:induction false} WhereConcat<S, T>(a: seq<Row<S, T>>, b: seq<Row<S, T>>, scope: S)
    ensures Where(a + b, scope) == Where(a, scope) + Where(b, scope)
  {
    if a == [] {
      assert a + b == b;
    } else {
      var first := if a[0].scope == scope then [a[0]] else [];
      assert (a + b)[1..] == a[1..] + b && (a + b)[0] == a[0];
      WhereConcat(a[1..], b, scope);
      Regroup(first, Where(a[1..], scope), Where(b, scope));
    }
  }

  lemma {:induction false} WhereAll<S, T>(rows: seq<Row<S, T>>, scope: S)
    requires forall i :: 0 <= i < |rows| ==> rows[i].scope == scope
    ensures Where(rows, scope) == rows
  {
    if rows != [] {
      WhereAll(rows[1..], scope);
    }
  }

  lemma {:induction false} WhereNone<S, T>(rows: seq<Row<S, T>>, scope: S)
    requires forall i :: 0 <= i < |rows| ==> rows[i].scope != scope
    ensures Where(rows, scope) == []
  {
    if rows != [] {
      WhereNone(rows[1..], scope);
    }
  }

  // ----- Deleting -----

  function Keep<S, T>(rows: seq<Row<S, T>>, keep: Row<S, T> -> bool): (r: seq<Row<S, T>>)
    ensures |r| <= |rows|
  {
    if rows == [] then [] else (if keep(rows[0]) then [rows[0]] else []) + Keep(rows[1..], keep)
  }

  lemma {:induction false} KeepConcat<S, T>(a: seq<Row<S, T>>, b: seq<Row<S, T>>, keep: Row<S, T> -> bool)
    ensures Keep(a + b, keep) == Keep(a, keep) + Keep(b, keep)
  {
    if a == [] {
      assert a + b == b;
    } else {
      var first := if keep(a[0]) then [a[0]] else [];
      assert (a + b)[1..] == a[1..] + b && (a + b)[0] == a[0];
      KeepConcat(a[1..], b, keep);
      Regroup(first, Keep(a[1..], keep), Keep(b, keep));
    }
  }

  lemma {:induction false} KeepMembers<S, T>(rows: seq<Row<S, T>>, keep: Row<S, T> -> bool, row: Row<S, T>)
    ensures row in Keep(rows, keep) <==> row in rows && keep(row)
  {
    if rows != [] {
      KeepMembers(rows[1..], keep, row);
      assert rows == [rows[0]] + rows[1..];
    }
  }

  lemma {:induction false} KeepAll<S, T>(rows: seq<Row<S, T>>, keep: Row<S, T> -> bool)
    requires forall row :: row in rows ==> keep(row)
    ensures Keep(rows, keep) == rows
  {
    if rows != [] {
      KeepAll(rows[1..], keep);
    }
  }

  lemma KeepTwice<S, T>(rows: seq<Row<S, T>>, keep: Row<S, T> -> bool)
    ensures Keep(Keep(rows, keep), keep) == Keep(rows, keep)
  {
    forall row | row in Keep(rows, keep)
      ensures keep(row)
    {
      KeepMembers(rows, keep, row);
    }
    KeepAll(Keep(rows, keep), keep);
  }

  /** Deleting commutes with choosing. */
  lemma {:induction false} KeepWhere<S, T>(rows: seq<Row<S, T>>, keep: Row<S, T> -> bool, scope: S)
    ensures Where(Keep(rows, keep), scope) == Keep(Where(rows, scope), keep)
  {
    if rows != [] {
      KeepWhere(rows[1..], keep, scope);
      var first := if keep(rows[0]) then [rows[0]] else [];
      WhereConcat(first, Keep(rows[1..], keep), scope);
      var chosen := if rows[0].scope == scope then [rows[0]] else [];
      KeepConcat(chosen, Where(rows[1..], scope), keep);
      assert Where(first, scope) == Keep(chosen, keep);
    }
  }

  lemma {:induction false} KeepRanked<S, T>(rows: seq<Row<S, T>>, keep: Row<S, T> -> bool)
    requires Ranked(rows)
    ensures Ranked(Keep(rows, keep))
  {
    if rows != [] {
      KeepRanked(rows[1..], keep);
      var rest := Keep(rows[1..], keep);
      forall i | 0 <= i < |rest|
        ensures rows[0].sortOrder < rest[i].sortOrder
      {
        KeepMembers(rows[1..], keep, rest[i]);
      }
    }
  }

  // ----- Ordering -----

  predicate InOrder<S, T>(rows: seq<Row<S, T>>) {
    forall i, j :: 0 <= i < j < |rows| ==> NotAfter(rows[i], rows[j])
  }

  lemma NotAfterIsTotal<S, T>(a: Row<S, T>, b: Row<S, T>, c: Row<S, T>)
    ensures NotAfter(a, b) || NotAfter(b, a)
    ensures NotAfter(a, b) && NotAfter(b, c) ==> NotAfter(a, c)
  {
    AtMostIsTotal(a.name, b.name);
    if AtMost(a.name, b.name) && AtMost(b.name, c.name) {
      AtMostIsTransitive(a.name, b.name, c.name);
    }
  }

  lemma {:induction false} PutKeepsOrder<S, T>(row: Row<S, T>, rows: seq<Row<S, T>>)
    requires InOrder(rows)
    ensures InOrder(PutInOrder(row, rows)) && multiset(PutInOrder(row, rows)) == multiset(rows) + multiset{row}
  {
    hide NotAfter;
    if rows == [] || NotAfter(row, rows[0]) {
      forall j | 0 <= j < |rows|
        ensures NotAfter(row, rows[j])
      {
        NotAfterIsTotal(row, rows[0], rows[j]);
      }
      assert multiset([row] + rows) == multiset{row} + multiset(rows);
    } else {
      var rest := PutInOrder(row, rows[1..]);
      PutKeepsOrder(row, rows[1..]);
      NotAfterIsTotal(row, rows[0], row);
      assert rows == [rows[0]] + rows[1..];
      forall j | 0 <= j < |rest|
        ensures NotAfter(rows[0], rest[j])
      {
        assert rest[j] in multiset(rest);
        if rest[j] != row {
          assert rest[j] in rows[1..];
        }
      }
    }
  }

  /** A query gives the rows of its scope, each once, by sort order and then by name. */
  lemma {:induction false} OrderBySorts<S, T>(rows: seq<Row<S, T>>)
    ensures InOrder(OrderBy(rows)) && multiset(OrderBy(rows)) == multiset(rows)
  {
    if rows != [] {
      OrderBySorts(rows[1..]);
      PutKeepsOrder(rows[0], OrderBy(rows[1..]));
      assert rows == [rows[0]] + rows[1..];
    }
  }
}
