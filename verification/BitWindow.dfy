/** A circular bitmap over sequence numbers: number i lives in bit i % 8 of byte (i / 8) % w. */
module BitWindow {

  /** Sequence numbers are 32 bits wide. */
  const WRAP := 0x1_0000_0000

  function Max(a: nat, b: nat): nat {
    if a < b then b else a
  }

  /** The numbers in `acc` differ from each other and are not in `seen`. */
  ghost predicate Fresh(acc: seq<nat>, seen: set<nat>) {
    && (forall i | 0 <= i < |acc| :: acc[i] !in seen)
    && (forall i, j | 0 <= i < j < |acc| :: acc[i] != acc[j])
  }

  lemma FreshCons(x: nat, rest: seq<nat>, seen: set<nat>)
    requires x !in seen && Fresh(rest, seen + {x})
    ensures Fresh([x] + rest, seen)
  {
    var acc := [x] + rest;
    assert forall i | 0 < i < |acc| :: acc[i] == rest[i - 1];
  }

  /** 1 << k */
  function Mask(k: nat): bv8
    requires k < 8
  {
    if k == 0 then 1 else if k == 1 then 2 else if k == 2 then 4 else if k == 3 then 8
    else if k == 4 then 16 else if k == 5 then 32 else if k == 6 then 64 else 128
  }

  predicate Test(b: bv8, k: nat)
    requires k < 8
  {
    b & Mask(k) != 0
  }

  function On(b: bv8, k: nat): bv8
    requires k < 8
  {
    b | Mask(k)
  }

  function Off(b: bv8, k: nat): bv8
    requires k < 8
  {
    b & !Mask(k)
  }

  lemma OnBits(b: bv8, k: nat, j: nat)
    requires k < 8 && j < 8
    ensures Test(On(b, k), j) == (j == k || Test(b, j))
  {
  }

  lemma OffBits(b: bv8, k: nat, j: nat)
    requires k < 8 && j < 8
    ensures Test(Off(b, k), j) == (j != k && Test(b, j))
  {
  }

  lemma FilledBytes(j: nat)
    requires j < 8
    ensures Test(255, j) && !Test(0, j)
  {
  }

  function Slot(w: nat, i: nat): (k: nat)
    requires w > 0
    ensures k < w
  {
    (i / 8) % w
  }

  /** The bit of number i. */
  predicate Bit(late: seq<bv8>, i: nat)
    requires |late| > 0
  {
    Test(late[Slot(|late|, i)], i % 8)
  }

  function SetBit(late: seq<bv8>, i: nat): (r: seq<bv8>)
    requires |late| > 0
    ensures |r| == |late|
  {
    late[Slot(|late|, i) := On(late[Slot(|late|, i)], i % 8)]
  }

  function ClearBit(late: seq<bv8>, i: nat): (r: seq<bv8>)
    requires |late| > 0
    ensures |r| == |late|
  {
    late[Slot(|late|, i) := Off(late[Slot(|late|, i)], i % 8)]
  }

  lemma SmallMultiple(w: int, d: int, q: int)
    requires w > 0 && d == w * q && -w < d < w
    ensures d == 0
  {
    assert q >= 1 ==> w * q >= w;
    assert q <= -1 ==> w * q <= -w;
  }

  lemma SameResidue(w: int, a: nat, b: nat)
    requires w > 0 && a % w == b % w && -w < a - b < w
    ensures a == b
  {
    assert a == w * (a / w) + a % w && b == w * (b / w) + b % w;
    assert a - b == w * (a / w) - w * (b / w) == w * (a / w - b / w);
    SmallMultiple(w, a - b, a / w - b / w);
  }

  /** Two numbers less than a window apart share a bit only if they are equal. */
  lemma DistinctBits(w: nat, i: nat, j: nat)
    requires w > 0 && -8 * w < i - j < 8 * w && i != j
    ensures Slot(w, i) != Slot(w, j) || i % 8 != j % 8
  {
    if i % 8 == j % 8 && Slot(w, i) == Slot(w, j) {
      SameResidue(w, i / 8, j / 8);
    }
  }

  /** Setting or clearing the bit of i leaves the bits of the other numbers of the window alone. */
  lemma OtherBits(late: seq<bv8>, i: nat, j: nat)
    requires |late| > 0 && -8 * |late| < i - j < 8 * |late|
    ensures Bit(SetBit(late, i), j) == (j == i || Bit(late, j))
    ensures Bit(ClearBit(late, i), j) == (j != i && Bit(late, j))
  {
    hide Test, On, Off, Slot;
    OnBits(late[Slot(|late|, i)], i % 8, j % 8);
    OffBits(late[Slot(|late|, i)], i % 8, j % 8);
    if i != j {
      DistinctBits(|late|, i, j);
    }
  }

  /** Clearing a bit sets none, however far away. */
  lemma ClearedBits(late: seq<bv8>, i: nat, j: nat)
    requires |late| > 0
    ensures Bit(ClearBit(late, i), j) ==> Bit(late, j) && j != i
  {
    hide Test, Off, Slot;
    OffBits(late[Slot(|late|, i)], i % 8, j % 8);
  }
}
