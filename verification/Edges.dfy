/** Edges of the meta graph and the two orders their trees are sorted by (src/edge.c). */
module Edges {
  import opened Names

  /** Bit 0 of an edge's option word. */
  const OPTION_INDIRECT := 1

  /** A socket address: family 0, family AF_UNKNOWN, or something usable. */
  datatype SockAddr = Unspecified | Unknown | Addr(text: string)

  datatype Edge = Edge(from: Name, to: Name, weight: int, options: nat, address: SockAddr, local: SockAddr)
  {
    predicate Indirect() {
      options % 2 == OPTION_INDIRECT
    }
  }

  /** An edge is identified by its two ends. */
  type Key = (Name, Name)

  function KeyOf(e: Edge): Key {
    (e.from, e.to)
  }

  function Flip(k: Key): Key {
    (k.1, k.0)
  }

  /** The 32-bit two's complement value of an int. */
  function Int32(x: int): int {
    (x + 0x8000_0000) % 0x1_0000_0000 - 0x8000_0000
  }

  /** What an int can hold. */
  predicate IsInt(w: int) {
    -0x8000_0000 <= w < 0x8000_0000
  }

  /** The difference of the weights, either way, fits in an int. */
  predicate Comparable(a: int, b: int) {
    -0x8000_0000 < a - b < 0x8000_0000
  }

  /** Any two weights of such a range are comparable. */
  predicate InRange(base: int, w: int) {
    base <= w < base + 0x8000_0000
  }

  function EdgeWeightCompare(a: Edge, b: Edge): (r: int) {
    if Int32(a.weight - b.weight) != 0 then Int32(a.weight - b.weight)
    else if StrCmp(a.from.text, b.from.text) != 0 then StrCmp(a.from.text, b.from.text)
    else StrCmp(a.to.text, b.to.text)
  }

  function EdgeCompare(a: Edge, b: Edge): (r: int) {
    StrCmp(a.to.text, b.to.text)
  }

  /** Two ints differ by less than 2^32. */
  lemma EdgeWeightCompareZero(a: Edge, b: Edge)
    requires -0x1_0000_0000 < a.weight - b.weight < 0x1_0000_0000
    ensures EdgeWeightCompare(a, b) == 0 <==> a.weight == b.weight && KeyOf(a) == KeyOf(b)
  {
  }

  /** The lighter edge comes first, seen from either side, exactly if the difference fits. */
  lemma LighterFirst(a: Edge, b: Edge)
    requires IsInt(a.weight) && IsInt(b.weight) && a.weight < b.weight
    ensures EdgeWeightCompare(a, b) < 0 && EdgeWeightCompare(b, a) > 0 <==> Comparable(a.weight, b.weight)
  {
  }

  /** The order is the order by weight on a set of edges exactly if all its weights are comparable. */
  lemma OrderedByWeight(es: set<Edge>)
    requires forall e <- es :: IsInt(e.weight)
    ensures (forall a, b | a in es && b in es && a.weight < b.weight ::
               EdgeWeightCompare(a, b) < 0 && EdgeWeightCompare(b, a) > 0)
            <==> (forall a, b | a in es && b in es :: Comparable(a.weight, b.weight))
  {
    forall a, b | a in es && b in es && a.weight < b.weight
      ensures EdgeWeightCompare(a, b) < 0 && EdgeWeightCompare(b, a) > 0 <==> Comparable(a.weight, b.weight)
    {
      LighterFirst(a, b);
    }
    hide EdgeWeightCompare;
  }

  /** Among edges of the same weight the name of the near end decides, then that of the far end. */
  lemma TiesByName(a: Edge, b: Edge)
    requires a.weight == b.weight
    ensures StrCmp(a.from.text, b.from.text) < 0 ==> EdgeWeightCompare(a, b) < 0
    ensures a.from == b.from && StrCmp(a.to.text, b.to.text) < 0 ==> EdgeWeightCompare(a, b) < 0
  {
  }

  lemma ComparableOrder(a: Edge, b: Edge)
    requires Comparable(a.weight, b.weight) && EdgeWeightCompare(a, b) <= 0
    ensures a.weight <= b.weight
  {
  }

  /** Swapping the edges negates the result exactly if the weights are not 2^31 apart. */
  lemma EdgeWeightCompareAntisymmetric(a: Edge, b: Edge)
    requires -0x1_0000_0000 < a.weight - b.weight < 0x1_0000_0000
    ensures EdgeWeightCompare(a, b) == -EdgeWeightCompare(b, a)
            <==> a.weight - b.weight != 0x8000_0000 && b.weight - a.weight != 0x8000_0000
  {
    StrCmpAntisymmetric(a.from.text, b.from.text);
    StrCmpAntisymmetric(a.to.text, b.to.text);
  }

  lemma EdgeWeightCompareTransitive(a: Edge, b: Edge, c: Edge)
    requires Comparable(a.weight, b.weight) && Comparable(b.weight, c.weight) && Comparable(a.weight, c.weight)
    requires EdgeWeightCompare(a, b) < 0 && EdgeWeightCompare(b, c) < 0
    ensures EdgeWeightCompare(a, c) < 0
  {
    if a.weight == b.weight && b.weight == c.weight {
      if a.from != b.from && b.from != c.from {
        StrCmpTransitive(a.from.text, b.from.text, c.from.text);
      } else if a.from == b.from && b.from == c.from {
        StrCmpTransitive(a.to.text, b.to.text, c.to.text);
      }
    }
  }

  /** With weights that are not comparable the subtraction wraps and the order has a cycle. */
  lemma WrappedWeightsCycle()
    ensures exists a: Edge, b: Edge, c: Edge ::
              IsInt(a.weight) && IsInt(b.weight) && IsInt(c.weight) && EdgeWeightCompare(a, b) < 0
                && EdgeWeightCompare(b, c) < 0 && EdgeWeightCompare(c, a) < 0
  {
    var a := Edge(Name("a"), Name("b"), -0x8000_0000, 0, Unspecified, Unspecified);
    var b := a.(weight := -1);
    var c := a.(weight := 0x7fff_fffe);
    assert Int32(a.weight - b.weight) < 0;
    assert Int32(b.weight - c.weight) < 0;
    assert Int32(c.weight - a.weight) < 0;
    assert EdgeWeightCompare(a, b) < 0 && EdgeWeightCompare(b, c) < 0 && EdgeWeightCompare(c, a) < 0;
  }
}
