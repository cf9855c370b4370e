/** The presence toggle behind `like` and `follow`: try to INSERT the pair; when the
    primary key refuses it, DELETE every row equal to it instead. */
module Presence {
  import opened Tables

  /** `DELETE FROM t WHERE <row equals x>`: every copy of `x` goes, the rest keep their order. */
  function Delete<T(==)>(rows: seq<T>, x: T): (r: seq<T>)
    ensures multiset(r) == multiset(rows)[x := 0]
  {
    if rows == [] then []
    else
      assert rows == [rows[0]] + rows[1..];
      if rows[0] == x then Delete(rows[1..], x) else [rows[0]] + Delete(rows[1..], x)
  }

  /** Deleting rows never creates a duplicate. */
  lemma {:induction false} DeleteKeepsNoDuplicates<T>(rows: seq<T>, x: T)
    requires NoDuplicates(rows)
    ensures NoDuplicates(Delete(rows, x))
  {
    if rows != [] {
      NoDuplicatesTail(rows);
      DeleteKeepsNoDuplicates(rows[1..], x);
      var rest := Delete(rows[1..], x);
      if rows[0] != x {
        var r := [rows[0]] + rest;
        assert rows[0] !in multiset(rest);
        forall i, j | 0 <= i < j < |r| ensures r[i] != r[j] {
          if i == 0 { assert r[j] in multiset(rest); }
          else { assert r[i] == rest[i - 1] && r[j] == rest[j - 1]; }
        }
      }
    }
  }

  /** A table with a primary key holds each row at most once. */
  lemma {:induction false} DistinctCount<T>(rows: seq<T>, x: T)
    requires NoDuplicates(rows)
    ensures multiset(rows)[x] == if x in rows then 1 else 0
  {
    if rows != [] {
      assert rows == [rows[0]] + rows[1..];
      NoDuplicatesTail(rows);
      DistinctCount(rows[1..], x);
    }
  }

  /** Two equal rows at different positions make the row count at least twice. */
  lemma RepeatedCount<T>(rows: seq<T>, i: nat, j: nat)
    requires i < j < |rows|
    ensures rows[i] == rows[j] ==> multiset(rows)[rows[i]] >= 2
  {
    assert rows == rows[..j] + [rows[j]] + rows[j + 1..];
    assert rows[i] == rows[..j][i];
  }

  /** The rows of a table without duplicates stay distinct in any order a query returns them. */
  lemma NoDuplicatesReordered<T>(rows: seq<T>, reordered: seq<T>)
    requires NoDuplicates(rows) && multiset(rows) == multiset(reordered)
    ensures NoDuplicates(reordered)
  {
    forall i, j | 0 <= i < j < |reordered| ensures reordered[i] != reordered[j] {
      DistinctCount(rows, reordered[i]);
      RepeatedCount(reordered, i, j);
    }
  }

  /** One toggle: insert `x` when absent, otherwise delete it. */
  function Toggle<T(==,!new)>(rows: seq<T>, x: T): (r: seq<T>)
    ensures x in r <==> x !in rows
    ensures forall y | y != x :: multiset(r)[y] == multiset(rows)[y]
    ensures NoDuplicates(rows) ==> NoDuplicates(r)
  {
    if x in rows then
      var r := Delete(rows, x);
      assert x !in multiset(r);
      assert NoDuplicates(rows) ==> NoDuplicates(r) by {
        if NoDuplicates(rows) { DeleteKeepsNoDuplicates(rows, x); }
      }
      r
    else
      var r := rows + [x];
      assert NoDuplicates(rows) ==> NoDuplicates(r) by {
        if NoDuplicates(rows) {
          forall i, j | 0 <= i < j < |r| ensures r[i] != r[j] {
            if j == |rows| { assert r[i] in rows; }
          }
        }
      }
      r
  }

  /** Toggling the same pair twice gives back the table it started from. */
  lemma {:induction false} ToggleTwice<T(!new)>(rows: seq<T>, x: T)
    requires NoDuplicates(rows)
    ensures multiset(Toggle(Toggle(rows, x), x)) == multiset(rows)
  {
    var once := Toggle(rows, x);
    var twice := Toggle(once, x);
    if x in rows {
      DistinctCount(rows, x);
      assert once == Delete(rows, x);
      assert twice == once + [x];
      assert multiset(twice) == multiset(rows)[x := 0] + multiset{x};
    } else {
      assert once == rows + [x];
      assert multiset(twice) == multiset(once)[x := 0];
    }
  }

  /** A toggle moves exactly one row: the table gains or loses `x` and nothing else. */
  lemma {:induction false} ToggleSize<T(!new)>(rows: seq<T>, x: T)
    requires NoDuplicates(rows)
    ensures |Toggle(rows, x)| == if x in rows then |rows| - 1 else |rows| + 1
  {
    if x in rows {
      DistinctCount(rows, x);
      var r := Toggle(rows, x);
      assert multiset(rows) == multiset(r) + multiset{x};
      assert |multiset(rows)| == |multiset(r)| + 1;
    }
  }
}
