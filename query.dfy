/**
 * The three shapes of query the handlers issue through the ORM, over a table
 * kept in insertion order: `filter(p).first()`, `filter(p).all()` and
 * `distinct()`.
 */
module Query {
  import opened Wrappers

  /** Position of the first row that satisfies `p`, or None when no row does. */
  function First<T>(rows: seq<T>, p: T -> bool): (r: Option<nat>)
    ensures r.Some? ==> r.value < |rows| && p(rows[r.value])
    ensures r.Some? ==> forall j :: 0 <= j < r.value ==> !p(rows[j])
    ensures r.None? <==> forall j :: 0 <= j < |rows| ==> !p(rows[j])
  {
    if rows == [] then None
    else if p(rows[0]) then Some(0)
    else match First(rows[1..], p)
      case None => None
      case Some(k) => Some(k + 1)
  }

  /** The rows that satisfy `p`, in table order. */
  function Where<T>(rows: seq<T>, p: T -> bool): (r: seq<T>)
    ensures |r| <= |rows|
    ensures forall i :: 0 <= i < |r| ==> r[i] in rows && p(r[i])
    ensures forall i :: 0 <= i < |rows| && p(rows[i]) ==> rows[i] in r
  {
    if rows == [] then []
    else (if p(rows[0]) then [rows[0]] else []) + Where(rows[1..], p)
  }

  /** Dropping the first row of a prefix gives a prefix of the rows after the first. */
  lemma PrefixTail<T>(rows: seq<T>, n: nat)
    requires 0 < n <= |rows|
    ensures rows[..n][0] == rows[0] && rows[..n][1..] == rows[1..][..n - 1]
  {
  }

  /** Filtering a table that grew by appending rows filters the old rows, then the new ones. */
  lemma {:induction false} WhereAppend<T>(a: seq<T>, b: seq<T>, p: T -> bool)
    ensures Where(a + b, p) == Where(a, p) + Where(b, p)
  {
    if a == [] {
      assert a + b == b;
    } else {
      assert (a + b)[1..] == a[1..] + b;
      WhereAppend(a[1..], b, p);
    }
  }

  /** Every value of `s` once, at the place it first occurs. */
  function Distinct<T(==)>(s: seq<T>): (r: seq<T>)
    ensures forall i :: 0 <= i < |r| ==> r[i] in s
    ensures forall i :: 0 <= i < |s| ==> s[i] in r
    ensures forall i, j :: 0 <= i < j < |r| ==> r[i] != r[j]
  {
    if s == [] then []
    else
      var init, last := s[..|s| - 1], s[|s| - 1];
      assert s == init + [last];
      var rest := Distinct(init);
      if last in rest then rest else rest + [last]
  }
}
