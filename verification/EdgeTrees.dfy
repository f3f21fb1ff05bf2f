/** Trees of edges as the sequences they keep in order: what splay_insert, splay_delete and
    splay_search do to them (see SplayTrees). */
module EdgeTrees {
  import opened Common
  import opened Names
  import opened Edges
  import SplayTrees

  ghost predicate SortedBy(cmp: (Edge, Edge) -> int, s: seq<Edge>) {
    forall i, j | 0 <= i < j < |s| :: cmp(s[i], s[j]) < 0
  }

  ghost function Items(s: seq<Edge>): set<Edge> {
    set e | e in s
  }

  ghost predicate Within(s: seq<Edge>, domain: iset<Edge>) {
    forall e <- s :: e in domain
  }

  /** The edges with weights in a range in which they can be compared. */
  ghost function SafeEdges(base: int): iset<Edge> {
    iset e: Edge | InRange(base, e.weight)
  }

  ghost function AnyEdges(): iset<Edge> {
    iset e: Edge | EdgeCompare(e, e) == 0
  }

  /** The order of the weight tree. */
  lemma WeightOrder(base: int)
    ensures SplayTrees.Lawful(EdgeWeightCompare, SafeEdges(base))
  {
    forall x, y | x in SafeEdges(base) && y in SafeEdges(base)
      ensures EdgeWeightCompare(x, y) < 0 <==> EdgeWeightCompare(y, x) > 0
    {
      EdgeWeightCompareAntisymmetric(x, y);
    }
    forall x, y, z | x in SafeEdges(base) && y in SafeEdges(base) && z in SafeEdges(base)
        && EdgeWeightCompare(x, y) <= 0 && EdgeWeightCompare(y, z) < 0
      ensures EdgeWeightCompare(x, z) < 0
    {
      if EdgeWeightCompare(x, y) == 0 {
        EdgeWeightCompareZero(x, y);
      } else {
        EdgeWeightCompareTransitive(x, y, z);
      }
    }
  }

  /** The order of a node's edge tree. */
  lemma ToOrder()
    ensures SplayTrees.Lawful(EdgeCompare, AnyEdges())
  {
    forall x: Edge, y: Edge
      ensures EdgeCompare(x, y) < 0 <==> EdgeCompare(y, x) > 0
    {
      StrCmpAntisymmetric(x.to.text, y.to.text);
    }
    forall x: Edge, y: Edge, z: Edge | EdgeCompare(x, y) <= 0 && EdgeCompare(y, z) < 0
      ensures EdgeCompare(x, z) < 0
    {
      if EdgeCompare(x, y) < 0 {
        StrCmpTransitive(x.to.text, y.to.text, z.to.text);
      }
    }
  }

  /** A set of elements is kept in one order only. */
  lemma {:induction false} SortedUnique(cmp: (Edge, Edge) -> int, s: seq<Edge>, t: seq<Edge>, domain: iset<Edge>)
    requires SplayTrees.Lawful(cmp, domain) && Within(s, domain)
    requires SortedBy(cmp, s) && SortedBy(cmp, t) && Items(s) == Items(t)
    ensures s == t
    decreases |s|
  {
    SameLength(s, t);
    if s != [] {
      SameHead(cmp, s, t, domain);
      TailItems(cmp, s, domain);
      TailItems(cmp, t, domain);
      SortedUnique(cmp, s[1..], t[1..], domain);
      assert s == [s[0]] + s[1..] && t == [t[0]] + t[1..];
    }
  }

  lemma SameLength(s: seq<Edge>, t: seq<Edge>)
    requires Items(s) == Items(t)
    ensures s == [] <==> t == []
  {
    assert s != [] ==> s[0] in Items(s);
    assert t != [] ==> t[0] in Items(t);
  }

  lemma SameHead(cmp: (Edge, Edge) -> int, s: seq<Edge>, t: seq<Edge>, domain: iset<Edge>)
    requires SplayTrees.Lawful(cmp, domain) && Within(s, domain) && s != [] && t != []
    requires SortedBy(cmp, s) && SortedBy(cmp, t) && Items(s) == Items(t)
    ensures s[0] == t[0] && Within(t, domain)
  {
    hide SplayTrees.Lawful;
    assert forall x <- t :: x in Items(t);
    assert s[0] in Items(s) && t[0] in Items(t);
    var k :| 0 <= k < |t| && t[k] == s[0];
    var j :| 0 <= j < |s| && s[j] == t[0];
    NotBoth(cmp, s[0], t[0], domain);
  }

  lemma NotBoth(cmp: (Edge, Edge) -> int, x: Edge, y: Edge, domain: iset<Edge>)
    requires SplayTrees.Lawful(cmp, domain) && x in domain && y in domain
    ensures !(cmp(x, y) < 0 && cmp(y, x) < 0)
  {
  }

  lemma TailItems(cmp: (Edge, Edge) -> int, s: seq<Edge>, domain: iset<Edge>)
    requires SplayTrees.Lawful(cmp, domain) && Within(s, domain) && SortedBy(cmp, s) && s != []
    ensures SortedBy(cmp, s[1..]) && Within(s[1..], domain) && Items(s[1..]) == Items(s) - {s[0]}
  {
    hide SplayTrees.Lawful;
    NotBoth(cmp, s[0], s[0], domain);
    NotInTail(cmp, s);
    hide SortedBy;
    assert s == [s[0]] + s[1..];
  }

  lemma NotInTail(cmp: (Edge, Edge) -> int, s: seq<Edge>)
    requires SortedBy(cmp, s) && s != [] && cmp(s[0], s[0]) >= 0
    ensures SortedBy(cmp, s[1..]) && s[0] !in s[1..]
  {
  }

  /** Everything before position i is before e, everything from there on after it. */
  ghost predicate FitsAt(cmp: (Edge, Edge) -> int, s: seq<Edge>, e: Edge, i: nat) {
    && i <= |s|
    && (forall k | 0 <= k < i :: cmp(s[k], e) < 0)
    && (forall k | i <= k < |s| :: cmp(e, s[k]) < 0)
  }

  lemma FoundPlace(cmp: (Edge, Edge) -> int, s: seq<Edge>, e: Edge, i: nat, domain: iset<Edge>)
    requires SplayTrees.Lawful(cmp, domain) && e in domain && Within(s, domain) && SortedBy(cmp, s)
    requires i <= |s| && (forall k | 0 <= k < i :: cmp(e, s[k]) > 0) && (i < |s| ==> cmp(e, s[i]) < 0)
    ensures FitsAt(cmp, s, e, i) && forall x <- s :: cmp(e, x) != 0
  {
    forall k | 0 <= k < |s|
      ensures k < i ==> cmp(s[k], e) < 0
      ensures i <= k ==> cmp(e, s[k]) < 0
    {
      assert s[k] in s;
      if i < k {
        assert s[i] in s && cmp(s[i], s[k]) < 0;
      }
    }
  }

  lemma InsertedOk(cmp: (Edge, Edge) -> int, s: seq<Edge>, e: Edge, i: nat, domain: iset<Edge>)
    requires e in domain && Within(s, domain) && SortedBy(cmp, s) && FitsAt(cmp, s, e, i)
    ensures var t := s[..i] + [e] + s[i..];
            SortedBy(cmp, t) && Within(t, domain) && Items(t) == Items(s) + {e}
  {
    InsertedSorted(cmp, s, e, i);
    hide SortedBy, FitsAt;
    InsertedItems(s, e, i);
    var t := s[..i] + [e] + s[i..];
    assert forall x <- t :: x in Items(t);
    assert forall x <- Items(s) :: x in s;
  }

  lemma InsertedSorted(cmp: (Edge, Edge) -> int, s: seq<Edge>, e: Edge, i: nat)
    requires SortedBy(cmp, s) && FitsAt(cmp, s, e, i)
    ensures SortedBy(cmp, s[..i] + [e] + s[i..])
  {
    var t := s[..i] + [e] + s[i..];
    forall j, k | 0 <= j < k < |t|
      ensures cmp(t[j], t[k]) < 0
    {
      assert t[j] == (if j < i then s[j] else if j == i then e else s[j - 1]);
      assert t[k] == (if k < i then s[k] else if k == i then e else s[k - 1]);
    }
  }

  lemma InsertedItems(s: seq<Edge>, e: Edge, i: nat)
    requires i <= |s|
    ensures Items(s[..i] + [e] + s[i..]) == Items(s) + {e}
  {
    var t := s[..i] + [e] + s[i..];
    assert s == s[..i] + s[i..];
    forall x
      ensures x in Items(t) <==> x in Items(s) + {e}
    {
      assert x in t <==> x in s[..i] || x == e || x in s[i..];
    }
  }

  /** Only one element is equal to e. */
  lemma OthersDiffer(cmp: (Edge, Edge) -> int, s: seq<Edge>, e: Edge, i: nat, k: nat, domain: iset<Edge>)
    requires SplayTrees.Lawful(cmp, domain) && e in domain && Within(s, domain) && SortedBy(cmp, s)
    requires i < k < |s| && cmp(e, s[i]) == 0
    ensures cmp(e, s[k]) < 0
  {
    assert s[i] in s && s[k] in s;
  }

  lemma RemovedSorted(cmp: (Edge, Edge) -> int, s: seq<Edge>, i: nat, domain: iset<Edge>)
    requires Within(s, domain) && SortedBy(cmp, s) && i < |s|
    ensures SortedBy(cmp, s[..i] + s[i + 1..]) && Within(s[..i] + s[i + 1..], domain)
  {
  }

  lemma RemovedItems(cmp: (Edge, Edge) -> int, s: seq<Edge>, e: Edge, i: nat)
    requires i < |s| && cmp(e, s[i]) == 0 && forall k | 0 <= k < |s| && k != i :: cmp(e, s[k]) != 0
    ensures Items(s[..i] + s[i + 1..]) == Unequal(cmp, s, e)
  {
    var t := s[..i] + s[i + 1..];
    forall x
      ensures x in Items(t) <==> x in Unequal(cmp, s, e)
    {
      if x in t {
        var j :| 0 <= j < |t| && t[j] == x;
        assert x == s[if j < i then j else j + 1];
      }
      if x in Unequal(cmp, s, e) {
        var k :| 0 <= k < |s| && s[k] == x;
        assert x == t[if k < i then k else k - 1];
      }
    }
  }

  /** The elements that are not equal to e in the order. */
  ghost function Unequal(cmp: (Edge, Edge) -> int, s: seq<Edge>, e: Edge): set<Edge> {
    set x | x in s && cmp(e, x) != 0
  }

  /** splay_insert. */
  method Insert(cmp: (Edge, Edge) -> int, s: seq<Edge>, e: Edge, ghost domain: iset<Edge>)
    returns (t: seq<Edge>, ok: bool)
    requires SplayTrees.Lawful(cmp, domain) && e in domain && Within(s, domain) && SortedBy(cmp, s)
    ensures SortedBy(cmp, t) && Within(t, domain)
    ensures ok <==> forall x <- s :: cmp(e, x) != 0
    ensures ok ==> Items(t) == Items(s) + {e}
    ensures !ok ==> t == s
  {
    hide SplayTrees.Lawful, SortedBy, Within, Items, FitsAt;
    var i := 0;
    while i < |s| && cmp(e, s[i]) > 0
      invariant 0 <= i <= |s| && forall k | 0 <= k < i :: cmp(e, s[k]) > 0
    {
      i := i + 1;
    }
    if i < |s| && cmp(e, s[i]) == 0 {
      return s, false;
    }
    FoundPlace(cmp, s, e, i, domain);
    InsertedOk(cmp, s, e, i, domain);
    t, ok := s[..i] + [e] + s[i..], true;
  }

  /** splay_delete. */
  method Delete(cmp: (Edge, Edge) -> int, s: seq<Edge>, e: Edge, ghost domain: iset<Edge>) returns (t: seq<Edge>)
    requires SplayTrees.Lawful(cmp, domain) && e in domain && Within(s, domain) && SortedBy(cmp, s)
    ensures SortedBy(cmp, t) && Within(t, domain) && Items(t) == Unequal(cmp, s, e)
  {
    hide SplayTrees.Lawful, SortedBy, Within;
    var i := 0;
    while i < |s| && cmp(e, s[i]) != 0
      invariant 0 <= i <= |s| && forall k | 0 <= k < i :: cmp(e, s[k]) != 0
    {
      i := i + 1;
    }
    if i == |s| {
      return s;
    }
    forall k | i < k < |s| {
      OthersDiffer(cmp, s, e, i, k, domain);
    }
    RemovedSorted(cmp, s, i, domain);
    RemovedItems(cmp, s, e, i);
    t := s[..i] + s[i + 1..];
  }

  /** splay_search. */
  method Find(cmp: (Edge, Edge) -> int, s: seq<Edge>, e: Edge) returns (r: Option<Edge>)
    ensures r.Some? ==> r.value in s && cmp(e, r.value) == 0
    ensures r.None? ==> forall x <- s :: cmp(e, x) != 0
  {
    for i := 0 to |s|
      invariant forall k | 0 <= k < i :: cmp(e, s[k]) != 0
    {
      if cmp(e, s[i]) == 0 {
        return Some(s[i]);
      }
    }
    return None;
  }

  /** Changing an element in place, in a way its order does not depend on. */
  method Overwrite(ghost cmp: (Edge, Edge) -> int, s: seq<Edge>, e: Edge, f: Edge, ghost domain: iset<Edge>)
    returns (t: seq<Edge>)
    requires SortedBy(cmp, s) && Within(s, domain) && e in s && f in domain && f !in s && cmp(e, e) == 0
    requires forall x <- s :: cmp(e, x) == cmp(f, x) && cmp(x, e) == cmp(x, f)
    ensures SortedBy(cmp, t) && Within(t, domain) && Items(t) == Items(s) - {e} + {f}
  {
    hide SortedBy, Within, Items;
    var i := 0;
    while i < |s| && s[i] != e
      invariant 0 <= i <= |s| && e !in s[..i]
    {
      i := i + 1;
    }
    OverwriteOk(cmp, s, i, f, domain);
    t := s[i := f];
  }

  lemma OverwriteOk(cmp: (Edge, Edge) -> int, s: seq<Edge>, i: nat, f: Edge, domain: iset<Edge>)
    requires SortedBy(cmp, s) && Within(s, domain) && i < |s| && f in domain
    requires forall x <- s :: cmp(s[i], x) == cmp(f, x) && cmp(x, s[i]) == cmp(x, f)
    requires f !in s && cmp(s[i], s[i]) == 0
    ensures var t := s[i := f];
            SortedBy(cmp, t) && Within(t, domain) && Items(t) == Items(s) - {s[i]} + {f}
  {
    var t := s[i := f];
    forall j, k | 0 <= j < k < |t|
      ensures cmp(t[j], t[k]) < 0
    {
      assert s[j] in s && s[k] in s;
    }
    OverwriteItems(cmp, s, i, f);
  }

  lemma OverwriteItems(cmp: (Edge, Edge) -> int, s: seq<Edge>, i: nat, f: Edge)
    requires SortedBy(cmp, s) && i < |s| && f !in s && cmp(s[i], s[i]) == 0
    ensures Items(s[i := f]) == Items(s) - {s[i]} + {f}
  {
    var t := s[i := f];
    assert t[i] == f;
    forall x
      ensures x in Items(t) <==> x in Items(s) - {s[i]} + {f}
    {
      if x in s && x != s[i] {
        var k :| 0 <= k < |s| && s[k] == x;
        assert t[k] == x;
      }
      if x in t && x != f {
        var k :| 0 <= k < |t| && t[k] == x;
        assert s[k] == x && k != i;
        assert k < i ==> cmp(s[k], s[i]) < 0;
        assert i < k ==> cmp(s[i], s[k]) < 0;
      }
    }
  }
}
