/** Small shared vocabulary: optional values and maxima. */
module Prelude {

  datatype Option<+T> = None | Some(value: T) {
    function GetOr(default: T): T {
      if Some? then value else default
    }
  }

  function Max(a: int, b: int): int {
    if a >= b then a else b
  }

  /** True iff no value occurs twice in s. */
  ghost predicate Distinct<T>(s: seq<T>) {
    forall i, j | 0 <= i < j < |s| :: s[i] != s[j]
  }

  /** The values occurring in s. */
  function Elements<T>(s: seq<T>): set<T> {
    set x | x in s
  }

  /** Subset cardinality, which the verifier does not know by itself. */
  lemma SubsetSize<T>(a: set<T>, b: set<T>)
    requires a <= b
    ensures |a| <= |b|
  {
    assert b == a + (b - a);
    assert |b| == |a| + |b - a|;
  }

  /** Moving one element from what is left to do to what is done. */
  lemma TakenOne<T>(all: set<T>, rest: set<T>, x: T)
    requires rest <= all && x in rest
    ensures all - (rest - {x}) == all - rest + {x}
    ensures x !in all - rest && rest - {x} <= all
  {
  }

  /** A sequence without repeats has as many positions as distinct values. */
  lemma {:induction false} DistinctSize<T>(s: seq<T>)
    requires Distinct(s)
    ensures |Elements(s)| == |s|
  {
    if s != [] {
      var last := s[|s| - 1];
      var front := s[..|s| - 1];
      DistinctSize(front);
      assert Elements(s) == Elements(front) + {last};
    }
  }

  /** The rows of a query, in whatever order the database returns them. */
  method Rows<T(==)>(found: set<T>) returns (rows: seq<T>)
    ensures Distinct(rows)
    ensures forall x :: x in rows <==> x in found
  {
    rows := [];
    var rest := found;
    while rest != {}
      invariant Distinct(rows)
      invariant rest <= found
      invariant forall x :: x in rows <==> x in found - rest
      decreases |rest|
    {
      var x :| x in rest;
      assert x !in rows;
      rows := rows + [x];
      rest := rest - {x};
    }
  }

  /** The one stands before the other somewhere in the list. */
  ghost predicate Before<T>(all: seq<T>, x: T, y: T) {
    exists p, q :: 0 <= p < q < |all| && all[p] == x && all[q] == y
  }

  /** The items stand in the order in which they stand in the list. */
  ghost predicate InOrderOf<T>(items: seq<T>, all: seq<T>) {
    forall i, j | 0 <= i < j < |items| :: Before(all, items[i], items[j])
  }

  lemma BeforeGrows<T>(all: seq<T>, x: T, y: T, last: T)
    ensures Before(all, x, y) ==> Before(all + [last], x, y)
    ensures x in all ==> Before(all + [last], x, last)
  {
    var longer := all + [last];
    if Before(all, x, y) {
      var p, q :| 0 <= p < q < |all| && all[p] == x && all[q] == y;
      assert longer[p] == x && longer[q] == y;
    }
    if x in all {
      var p :| 0 <= p < |all| && all[p] == x;
      assert longer[p] == x && longer[|all|] == last;
    }
  }

  lemma OrderGrows<T>(items: seq<T>, all: seq<T>, last: T)
    requires InOrderOf(items, all) && forall x | x in items :: x in all
    ensures InOrderOf(items, all + [last]) && InOrderOf(items + [last], all + [last])
  {
    forall i, j | 0 <= i < j < |items| ensures Before(all + [last], items[i], items[j]) {
      BeforeGrows(all, items[i], items[j], last);
    }
    forall i | 0 <= i < |items| ensures Before(all + [last], items[i], last) {
      BeforeGrows(all, items[i], last, last);
    }
  }

  /** The requested items that were not found, in order. */
  method Missing(wanted: seq<string>, existing: set<string>) returns (missing: seq<string>)
    requires Distinct(wanted)
    ensures Distinct(missing) && Elements(missing) == Elements(wanted) - existing
    ensures |missing| + |Elements(wanted) * existing| == |wanted|
    ensures InOrderOf(missing, wanted)
  {
    missing := [];
    for i := 0 to |wanted|
      invariant Distinct(missing) && InOrderOf(missing, wanted[..i])
      invariant forall x :: x in missing <==> x in wanted[..i] && x !in existing
    {
      assert wanted[..i + 1] == wanted[..i] + [wanted[i]];
      OrderGrows(missing, wanted[..i], wanted[i]);
      if wanted[i] !in existing {
        missing := missing + [wanted[i]];
      }
    }
    assert wanted[..|wanted|] == wanted;
    DistinctSize(missing);
    DistinctSize(wanted);
    assert Elements(missing) == Elements(wanted) - existing;
    assert Elements(wanted) == Elements(missing) + Elements(wanted) * existing;
  }
}
