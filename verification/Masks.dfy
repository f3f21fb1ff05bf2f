/** Network masks: the byte loops of src/subnet_parse.c and what they mean for the bits of an
    address. */
module Masks {

  type Address = seq<bv8>

  function Weight(j: nat): bv8 {
    if j == 0 then 0x80 else if j == 1 then 0x40 else if j == 2 then 0x20 else if j == 3 then 0x10
    else if j == 4 then 0x08 else if j == 5 then 0x04 else if j == 6 then 0x02 else 0x01
  }

  /** Bit j of a byte, the most significant first. */
  predicate BitOf(x: bv8, j: nat) {
    x & Weight(j) != 0
  }

  /** Bit i of an address. */
  predicate Bit(a: Address, i: nat)
    requires i < 8 * |a|
  {
    BitOf(a[i / 8], i % 8)
  }

  /** The first n bits are the same. */
  ghost predicate SameBits(a: Address, b: Address, n: nat)
    requires n <= 8 * |a| && n <= 8 * |b|
  {
    forall i | 0 <= i < n :: Bit(a, i) == Bit(b, i)
  }

  /** The bits from n on are zero. */
  ghost predicate Clean(a: Address, n: nat) {
    forall i | n <= i < 8 * |a| :: !Bit(a, i)
  }

  /** The first m bits of a byte. */
  function High(m: nat): bv8
    requires 0 < m < 8
  {
    0 - (1 << (8 - m))
  }

  /** The other bits. */
  function Low(m: nat): bv8
    requires 0 < m < 8
  {
    0xff >> m
  }

  lemma HighLow(m: nat)
    requires 0 < m < 8
    ensures High(m) == if m == 1 then 0x80 else if m == 2 then 0xc0 else if m == 3 then 0xe0 else if m == 4 then 0xf0
                       else if m == 5 then 0xf8 else if m == 6 then 0xfc else 0xfe
    ensures Low(m) == if m == 1 then 0x7f else if m == 2 then 0x3f else if m == 3 then 0x1f else if m == 4 then 0x0f
                      else if m == 5 then 0x07 else if m == 6 then 0x03 else 0x01
  {
    assert m == 1 || m == 2 || m == 3 || m == 4 || m == 5 || m == 6 || m == 7;
  }

  lemma MaskWeight(m: nat, j: nat)
    requires 0 < m < 8 && j < 8
    ensures High(m) & Weight(j) == if j < m then Weight(j) else 0
    ensures Low(m) & Weight(j) == if j < m then 0 else Weight(j)
  {
    HighLow(m);
    hide High, Low;
    assert j == 0 || j == 1 || j == 2 || j == 3 || j == 4 || j == 5 || j == 6 || j == 7;
  }

  lemma AndAssoc(x: bv8, y: bv8, z: bv8)
    ensures (x & y) & z == x & (y & z) && x & 0 == 0
  {
  }

  /** What masking a byte does to bit j. */
  lemma MaskedBit(x: bv8, m: nat, j: nat)
    requires 0 < m < 8 && j < 8
    ensures BitOf(x & High(m), j) == (j < m && BitOf(x, j))
    ensures BitOf(x & Low(m), j) == (m <= j && BitOf(x, j))
  {
    MaskWeight(m, j);
    AndAssoc(x, High(m), Weight(j));
    AndAssoc(x, Low(m), Weight(j));
    hide High, Low, Weight;
  }

  /** A byte is its eight bits. */
  lemma ByteBits(x: bv8, y: bv8)
    requires forall j | 0 <= j < 8 :: BitOf(x, j) == BitOf(y, j)
    ensures x == y
  {
    assert BitOf(x, 0) == BitOf(y, 0) && BitOf(x, 1) == BitOf(y, 1) && BitOf(x, 2) == BitOf(y, 2)
           && BitOf(x, 3) == BitOf(y, 3);
    assert BitOf(x, 4) == BitOf(y, 4) && BitOf(x, 5) == BitOf(y, 5) && BitOf(x, 6) == BitOf(y, 6)
           && BitOf(x, 7) == BitOf(y, 7);
  }

  lemma NoBits(j: nat)
    ensures !BitOf(0, j)
  {
  }

  /** Bit i of an address is bit i % 8 of its byte. */
  lemma BitAt(a: Address, k: nat, j: nat)
    requires k < |a| && j < 8
    ensures 8 * k + j < 8 * |a| && Bit(a, 8 * k + j) == BitOf(a[k], j)
  {
    assert (8 * k + j) / 8 == k && (8 * k + j) % 8 == j;
  }

  /** An address is its bits. */
  lemma AddressBits(a: Address, b: Address)
    requires |a| == |b| && SameBits(a, b, 8 * |a|)
    ensures a == b
  {
    forall k | 0 <= k < |a|
      ensures a[k] == b[k]
    {
      forall j | 0 <= j < 8
        ensures BitOf(a[k], j) == BitOf(b[k], j)
      {
        BitAt(a, k, j);
        BitAt(b, k, j);
      }
      ByteBits(a[k], b[k]);
    }
  }

  /** Two clean addresses that agree on the prefix are the same. */
  lemma CleanEqual(a: Address, b: Address, n: nat)
    requires |a| == |b| && n <= 8 * |a| && SameBits(a, b, n) && Clean(a, n) && Clean(b, n)
    ensures a == b
  {
    AddressBits(a, b);
  }

  /** The first m bits of two bytes are the same. */
  ghost predicate SameHigh(x: bv8, y: bv8, m: nat) {
    forall j | 0 <= j < m :: BitOf(x, j) == BitOf(y, j)
  }

  lemma MaskedEqual(x: bv8, y: bv8, m: nat)
    requires 0 < m < 8
    ensures x & High(m) == y & High(m) <==> SameHigh(x, y, m)
  {
    var u, v := x & High(m), y & High(m);
    forall j | 0 <= j < 8
      ensures BitOf(u, j) == (j < m && BitOf(x, j)) && BitOf(v, j) == (j < m && BitOf(y, j))
    {
      MaskedBit(x, m, j);
      MaskedBit(y, m, j);
    }
    hide BitOf, High;
    if SameHigh(x, y, m) {
      ByteBits(u, v);
    }
  }

  lemma SameBitsMeans(a: Address, b: Address, k: nat, m: nat)
    requires |a| == |b| && k <= |a| && m < 8 && (m > 0 ==> k < |a|) && SameBits(a, b, 8 * k + m)
    ensures a[..k] == b[..k] && (m > 0 ==> SameHigh(a[k], b[k], m))
  {
    hide BitOf;
    forall c | 0 <= c < k
      ensures a[c] == b[c]
    {
      forall j | 0 <= j < 8
        ensures BitOf(a[c], j) == BitOf(b[c], j)
      {
        BitAt(a, c, j);
        BitAt(b, c, j);
      }
      ByteBits(a[c], b[c]);
    }
    if m > 0 {
      forall j | 0 <= j < m
        ensures BitOf(a[k], j) == BitOf(b[k], j)
      {
        BitAt(a, k, j);
        BitAt(b, k, j);
      }
    }
  }

  /** The first k bytes, and m bits of the next one, are the same. */
  lemma BytesThenBits(a: Address, b: Address, k: nat, m: nat)
    requires |a| == |b| && k <= |a| && m < 8 && (m > 0 ==> k < |a|)
    ensures SameBits(a, b, 8 * k + m) <==> a[..k] == b[..k] && (m > 0 ==> a[k] & High(m) == b[k] & High(m))
  {
    if m > 0 {
      MaskedEqual(a[k], b[k], m);
    }
    hide BitOf, High;
    if a[..k] == b[..k] && (m > 0 ==> SameHigh(a[k], b[k], m)) {
      forall i | 0 <= i < 8 * k + m
        ensures Bit(a, i) == Bit(b, i)
      {
        if i < 8 * k {
          assert a[i / 8] == a[..k][i / 8] == b[..k][i / 8] == b[i / 8];
        } else {
          assert i / 8 == k && i % 8 < m;
        }
      }
    }
    if SameBits(a, b, 8 * k + m) {
      SameBitsMeans(a, b, k, m);
    }
  }

  function Difference(x: bv8, y: bv8): (d: int)
    ensures d == 0 <==> x == y
  {
    x as int - y as int
  }

  /** maskcmp: zero exactly if the addresses agree on the prefix. */
  method MaskCmp(a: Address, b: Address, masklen: nat) returns (result: int)
    requires |a| == |b| && masklen <= 8 * |a|
    ensures result == 0 <==> SameBits(a, b, masklen)
  {
    hide SameBits, High;
    var m, i := masklen, 0;
    while m >= 8
      invariant 0 <= m && 0 <= i <= |a| && masklen == 8 * i + m && a[..i] == b[..i]
      decreases m
    {
      result := Difference(a[i], b[i]);
      if result != 0 {
        BytesThenBits(a, b, masklen / 8, masklen % 8);
        assert a[..masklen / 8][i] != b[..masklen / 8][i];
        return;
      }
      m, i := m - 8, i + 1;
    }
    assert i == masklen / 8 && m == masklen % 8;
    BytesThenBits(a, b, i, m);
    if m != 0 {
      return Difference(a[i] & High(m), b[i] & High(m));
    }
    return 0;
  }

  /** maskcheck: whether nothing is set beyond the prefix. */
  method MaskCheck(a: Address, masklen: nat) returns (ok: bool)
    requires masklen <= 8 * |a|
    ensures ok <==> Clean(a, masklen)
  {
    hide Clean, Low;
    var i, m := masklen / 8, masklen % 8;
    CleanParts(a, i, m);
    if m != 0 {
      if a[i] & Low(m) != 0 {
        return false;
      }
      i := i + 1;
    }
    ghost var from := i;
    while i < |a|
      invariant from <= i <= |a| && forall c | from <= c < i :: a[c] == 0
    {
      if a[i] != 0 {
        return false;
      }
      i := i + 1;
    }
    return true;
  }

  lemma CleanParts(a: Address, k: nat, m: nat)
    requires k <= |a| && m < 8 && (m > 0 ==> k < |a|)
    ensures Clean(a, 8 * k + m) <==>
              (m > 0 ==> a[k] & Low(m) == 0) && forall c | (if m > 0 then k + 1 else k) <= c < |a| :: a[c] == 0
  {
    if m > 0 {
      LowZero(a[k], m);
    }
    forall c | 0 <= c < |a| {
      ZeroByte(a[c]);
    }
    hide BitOf, Low;
    if Clean(a, 8 * k + m) {
      forall c, j | 0 <= c < |a| && 0 <= j < 8 && 8 * k + m <= 8 * c + j
        ensures !BitOf(a[c], j)
      {
        BitAt(a, c, j);
      }
    }
  }

  ghost predicate NoBitFrom(x: bv8, m: nat) {
    forall j | m <= j < 8 :: !BitOf(x, j)
  }

  lemma LowZero(x: bv8, m: nat)
    requires 0 < m < 8
    ensures x & Low(m) == 0 <==> NoBitFrom(x, m)
  {
    var u := x & Low(m);
    forall j | 0 <= j < 8
      ensures BitOf(u, j) == (m <= j && BitOf(x, j)) && !BitOf(0, j)
    {
      MaskedBit(x, m, j);
      NoBits(j);
    }
    hide BitOf, Low;
    if NoBitFrom(x, m) {
      ByteBits(u, 0);
    }
  }

  lemma ZeroByte(x: bv8)
    ensures x == 0 <==> NoBitFrom(x, 0)
  {
    forall j | 0 <= j < 8
      ensures !BitOf(0, j)
    {
      NoBits(j);
    }
    hide BitOf;
    if NoBitFrom(x, 0) {
      ByteBits(x, 0);
    }
  }

  /** The address `b` with everything beyond the first n bits cleared. */
  ghost predicate IsMasked(a: Address, b: Address, n: nat) {
    |a| == |b| && n <= 8 * |a| && SameBits(a, b, n) && Clean(a, n)
  }

  lemma MaskedParts(a: Address, b: Address, k: nat, m: nat)
    requires |a| == |b| && k <= |a| && m < 8 && (m > 0 ==> k < |a|) && a[..k] == b[..k]
    requires m > 0 ==> a[k] == b[k] & High(m)
    requires forall c | (if m > 0 then k + 1 else k) <= c < |a| :: a[c] == 0
    ensures IsMasked(a, b, 8 * k + m)
  {
    BytesThenBits(a, b, k, m);
    CleanParts(a, k, m);
    if m > 0 {
      HighTwice(b[k], m);
    }
  }

  lemma HighTwice(x: bv8, m: nat)
    requires 0 < m < 8
    ensures (x & High(m)) & High(m) == x & High(m) && (x & High(m)) & Low(m) == 0
  {
    HighLow(m);
  }

  /** mask: clear everything beyond the prefix, in place. */
  method Mask(a: array<bv8>, masklen: nat)
    requires masklen <= 8 * a.Length
    modifies a
    ensures IsMasked(a[..], old(a[..]), masklen)
  {
    hide IsMasked, High;
    var i, m := masklen / 8, masklen % 8;
    ghost var k := i;
    if m != 0 {
      a[i] := a[i] & High(m);
      i := i + 1;
    }
    ghost var from := i;
    while i < a.Length
      invariant from <= i <= a.Length
      invariant a[..k] == old(a[..k]) && (m > 0 ==> a[k] == old(a[k]) & High(m))
      invariant forall c | from <= c < i :: a[c] == 0
    {
      a[i] := 0;
      i := i + 1;
    }
    assert a[..][..k] == a[..k] && old(a[..])[..k] == old(a[..k]);
    MaskedParts(a[..], old(a[..]), k, m);
  }

  /** maskcpy: copy the prefix and clear the rest. */
  method MaskCpy(a: array<bv8>, b: Address, masklen: nat)
    requires a.Length == |b| && masklen <= 8 * a.Length
    modifies a
    ensures IsMasked(a[..], b, masklen)
  {
    hide IsMasked, High;
    var m, i := masklen, 0;
    while m >= 8
      invariant 0 <= m && 0 <= i <= a.Length && masklen == 8 * i + m && a[..i] == b[..i]
      decreases m
    {
      a[i] := b[i];
      m, i := m - 8, i + 1;
    }
    ghost var k := i;
    if m != 0 {
      a[i] := b[i] & High(m);
      i := i + 1;
    }
    ghost var from := i;
    while i < a.Length
      invariant from <= i <= a.Length
      invariant a[..k] == b[..k] && (m > 0 ==> a[k] == b[k] & High(m))
      invariant forall c | from <= c < i :: a[c] == 0
    {
      a[i] := 0;
      i := i + 1;
    }
    assert a[..][..k] == a[..k];
    MaskedParts(a[..], b, k, m);
  }
}
