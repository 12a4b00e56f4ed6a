/** Operations on the loaded table that the dashboard builds on: equality
    masks on a column, the distinct values of a column, and the
    "subsequence of" relation between a table and a part of it. */
module Tables {
  import opened CreditData

  /** No element occurs twice. */
  predicate Distinct<T(==)>(xs: seq<T>)
  {
    forall i, j :: 0 <= i < j < |xs| ==> xs[i] != xs[j]
  }

  /** `s` is `t` with some elements dropped: only elements of `t`, in their
      relative order. */
  predicate IsSubsequence<T(==)>(s: seq<T>, t: seq<T>)
    decreases |t|
  {
    if s == [] then true
    else if t == [] then false
    else if s[0] == t[0] then IsSubsequence(s[1..], t[1..])
    else IsSubsequence(s, t[1..])
  }

  lemma {:induction false} SubsequenceBounds<T>(s: seq<T>, t: seq<T>)
    requires IsSubsequence(s, t)
    ensures |s| <= |t|
    ensures forall x :: x in s ==> x in t
    decreases |t|
  {
    if s == [] {
    } else if s[0] == t[0] {
      SubsequenceBounds(s[1..], t[1..]);
      assert s == [s[0]] + s[1..];
    } else {
      SubsequenceBounds(s, t[1..]);
    }
  }

  /** The column `c` of `rows`, one entry per row. */
  function ColumnValues(rows: seq<Record>, c: Column): seq<string>
  {
    seq(|rows|, i requires 0 <= i < |rows| => Field(rows[i], c))
  }

  lemma ColumnValuesMembership(rows: seq<Record>, c: Column, x: string)
    ensures x in ColumnValues(rows, c) <==> exists r :: r in rows && Field(r, c) == x
  {
    var col := ColumnValues(rows, c);
    if x in col {
      var i :| 0 <= i < |col| && col[i] == x;
      assert rows[i] in rows;
    }
    if r :| r in rows && Field(r, c) == x {
      var i :| 0 <= i < |rows| && rows[i] == r;
      assert col[i] == x;
    }
  }

  /** The rows whose column `c` equals `v`, in table order: the boolean mask
      `df[df[c] == v]`. */
  function Where(rows: seq<Record>, c: Column, v: string): (kept: seq<Record>)
    ensures |kept| <= |rows|
    ensures forall r :: r in kept <==> r in rows && Field(r, c) == v
  {
    if rows == [] then []
    else (if Field(rows[0], c) == v then [rows[0]] else []) + Where(rows[1..], c, v)
  }

  lemma {:induction false} WhereAppend(a: seq<Record>, b: seq<Record>, c: Column, v: string)
    ensures Where(a + b, c, v) == Where(a, c, v) + Where(b, c, v)
  {
    if a == [] {
      assert a + b == b;
    } else {
      assert (a + b)[0] == a[0];
      assert (a + b)[1..] == a[1..] + b;
      WhereAppend(a[1..], b, c, v);
    }
  }

  lemma {:induction false} WhereIsSubsequence(rows: seq<Record>, c: Column, v: string)
    ensures IsSubsequence(Where(rows, c, v), rows)
  {
    if rows != [] {
      WhereIsSubsequence(rows[1..], c, v);
      var rest := Where(rows[1..], c, v);
      if Field(rows[0], c) == v {
        assert Where(rows, c, v) == [rows[0]] + rest;
        assert ([rows[0]] + rest)[1..] == rest;
      } else {
        assert Where(rows, c, v) == rest;
        assert rest != [] ==> rest[0] in rest;
      }
    }
  }

  /** Applying the same mask again keeps every row. */
  lemma {:induction false} WhereIdempotent(rows: seq<Record>, c: Column, v: string)
    ensures Where(Where(rows, c, v), c, v) == Where(rows, c, v)
  {
    if rows != [] {
      WhereIdempotent(rows[1..], c, v);
      var head := if Field(rows[0], c) == v then [rows[0]] else [];
      WhereAppend(head, Where(rows[1..], c, v), c, v);
      if head != [] {
        assert Where(head, c, v) == head by {
          assert head[1..] == [];
        }
      }
    }
  }

  /** Two masks, on any columns, can be applied in either order. */
  lemma {:induction false} WhereCommutes(rows: seq<Record>, c1: Column, v1: string, c2: Column, v2: string)
    ensures Where(Where(rows, c1, v1), c2, v2) == Where(Where(rows, c2, v2), c1, v1)
  {
    if rows != [] {
      var r := rows[0];
      WhereCommutes(rows[1..], c1, v1, c2, v2);
      var h1 := if Field(r, c1) == v1 then [r] else [];
      var h2 := if Field(r, c2) == v2 then [r] else [];
      WhereAppend(h1, Where(rows[1..], c1, v1), c2, v2);
      WhereAppend(h2, Where(rows[1..], c2, v2), c1, v1);
      assert Where(h1, c2, v2) == Where(h2, c1, v1) by {
        if h1 != [] { assert h1[1..] == []; }
        if h2 != [] { assert h2[1..] == []; }
      }
    }
  }

  /** The distinct values of `xs` in order of first occurrence (`unique()`). */
  function Unique(xs: seq<string>): (u: seq<string>)
    ensures Distinct(u)
    ensures forall x :: x in u <==> x in xs
    decreases |xs|
  {
    if xs == [] then []
    else
      var front := Unique(xs[..|xs| - 1]);
      assert xs == xs[..|xs| - 1] + [xs[|xs| - 1]];
      if xs[|xs| - 1] in front then front else front + [xs[|xs| - 1]]
  }
}
