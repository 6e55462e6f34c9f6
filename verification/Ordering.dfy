/** The order in which text identifiers are sorted. */
module Ordering {

  /** Lexicographic order of strings. */
  predicate Before(a: string, b: string) {
    if b == "" then false
    else if a == "" then true
    else if a[0] != b[0] then a[0] < b[0]
    else Before(a[1..], b[1..])
  }

  /** `a` is a proper prefix of `b`, or smaller at the first place where they differ. */
  ghost predicate FirstDifference(a: string, b: string, k: nat) {
    && k <= |a| && k < |b| && a[..k] == b[..k]
    && (k == |a| || a[k] < b[k])
  }

  lemma {:induction false} BeforeIff(a: string, b: string)
    ensures Before(a, b) <==> exists k: nat :: FirstDifference(a, b, k)
    decreases |a|
  {
    forall k: nat | 0 < k && FirstDifference(a, b, k) ensures a[0] == b[0] {
      assert a[..k][0] == b[..k][0];
    }
    if a != "" && b != "" && a[0] == b[0] {
      BeforeIff(a[1..], b[1..]);
      forall k: nat ensures FirstDifference(a[1..], b[1..], k) <==> FirstDifference(a, b, k + 1) {
        DifferenceLater(a, b, k);
      }
      if FirstDifference(a, b, 0) { assert false; }
      if exists k: nat :: FirstDifference(a, b, k) {
        var k: nat :| FirstDifference(a, b, k);
        assert FirstDifference(a[1..], b[1..], k - 1);
      }
    } else {
      assert Before(a, b) <==> FirstDifference(a, b, 0);
    }
  }

  lemma DifferenceLater(a: string, b: string, k: nat)
    requires a != "" && b != "" && a[0] == b[0]
    ensures FirstDifference(a[1..], b[1..], k) <==> FirstDifference(a, b, k + 1)
  {
    if k < |a| && k < |b| {
      assert a[..k + 1] == [a[0]] + a[1..][..k] && b[..k + 1] == [b[0]] + b[1..][..k];
    }
  }

  lemma {:induction false} BeforeTotal(a: string, b: string)
    ensures a == b || Before(a, b) || Before(b, a)
    ensures !(Before(a, b) && (a == b || Before(b, a)))
  {
    if a != "" && b != "" && a[0] == b[0] {
      BeforeTotal(a[1..], b[1..]);
      assert a == [a[0]] + a[1..] && b == [b[0]] + b[1..];
    }
  }

  lemma {:induction false} BeforeTransitive(a: string, b: string, c: string)
    requires Before(a, b) && Before(b, c)
    ensures Before(a, c)
  {
    if a != "" && a[0] == b[0] == c[0] {
      BeforeTransitive(a[1..], b[1..], c[1..]);
    }
  }

  /** Strictly increasing, hence free of duplicates. */
  predicate Sorted(ids: seq<string>) {
    forall i, j :: 0 <= i < j < |ids| ==> Before(ids[i], ids[j])
  }

  /** Inserts an identifier in its place, or nothing if it is there already. */
  function Insert(ids: seq<string>, id: string): seq<string> {
    if ids == [] then [id]
    else if ids[0] == id then ids
    else if Before(id, ids[0]) then [id] + ids
    else [ids[0]] + Insert(ids[1..], id)
  }

  lemma {:induction false} InsertSorts(ids: seq<string>, id: string)
    requires Sorted(ids)
    ensures Sorted(Insert(ids, id))
    ensures forall x :: x in Insert(ids, id) <==> x == id || x in ids
    decreases |ids|
  {
    if ids != [] {
      BeforeTotal(id, ids[0]);
      var rest := ids[1..];
      assert ids == [ids[0]] + rest;
      if Before(id, ids[0]) {
        forall j | 0 <= j < |ids| ensures Before(id, ids[j]) {
          if j > 0 { BeforeTransitive(id, ids[0], ids[j]); }
        }
      } else if ids[0] != id {
        InsertSorts(rest, id);
        var tail := Insert(rest, id);
        forall j | 0 <= j < |tail| ensures Before(ids[0], tail[j]) {
          assert tail[j] == id || tail[j] in rest;
        }
      }
    }
  }

  /** Sorting and then dropping equal neighbours. */
  method SortDedup(ids: seq<string>) returns (sorted: seq<string>)
    ensures Sorted(sorted) && forall x :: x in sorted <==> x in ids
  {
    sorted := [];
    for i := 0 to |ids|
      invariant Sorted(sorted) && forall x :: x in sorted <==> x in ids[..i]
    {
      InsertSorts(sorted, ids[i]);
      sorted := Insert(sorted, ids[i]);
      assert ids[..i + 1] == ids[..i] + [ids[i]];
    }
    assert ids[..|ids|] == ids;
  }

  /** The elements of a set as a sorted list. */
  method SortedElements(elements: set<string>) returns (sorted: seq<string>)
    ensures Sorted(sorted) && forall x :: x in sorted <==> x in elements
  {
    sorted := [];
    var rest := elements;
    while rest != {}
      invariant rest <= elements
      invariant Sorted(sorted) && forall x :: x in sorted <==> x in elements - rest
    {
      var x :| x in rest;
      InsertSorts(sorted, x);
      sorted := Insert(sorted, x);
      rest := rest - {x};
    }
  }
}
