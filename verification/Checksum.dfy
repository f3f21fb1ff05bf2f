/** The Internet checksum of src/route.c and its incremental update. */
module Checksum {
  import opened Common

  /** Ones' complement arithmetic on 16 bits: zero only for zero, otherwise in 1..0xffff. */
  function Norm(x: nat): (r: nat)
    ensures r <= 0xffff && (r == 0 <==> x == 0) && r % 0xffff == x % 0xffff
  {
    if x == 0 then 0 else 1 + (x - 1) % 0xffff
  }

  /** Equal as far as a ones' complement sum can tell. */
  ghost predicate Congruent(a: int, b: int) {
    a % 0xffff == b % 0xffff
  }

  lemma NormUnique(x: nat, r: nat)
    requires r <= 0xffff && (r == 0 <==> x == 0) && r % 0xffff == x % 0xffff
    ensures r == Norm(x)
  {
  }

  /** Normalising a part of a sum does not change the normalised sum. */
  lemma NormAdd(x: nat, y: nat)
    ensures Norm(Norm(x) + y) == Norm(x + y)
  {
    ModAdd(Norm(x), x, y);
    NormUnique(x + y, Norm(Norm(x) + y));
  }

  lemma ModAdd(a: int, b: int, y: int)
    requires a % 0xffff == b % 0xffff
    ensures (a + y) % 0xffff == (b + y) % 0xffff
  {
    var k := a / 0xffff - b / 0xffff;
    assert a == b + k * 0xffff;
    ModTimes(b + y, k);
  }

  lemma ModTimes(a: int, k: int)
    ensures (a + k * 0xffff) % 0xffff == a % 0xffff
  {
  }

  /** Adding the carry back in until there is none. */
  method FoldAll(start: nat) returns (r: nat)
    ensures r == Norm(start)
  {
    var checksum := start;
    while checksum / 0x10000 > 0
      invariant Norm(checksum) == Norm(start)
      decreases checksum
    {
      FoldOnce(checksum);
      checksum := checksum % 0x10000 + checksum / 0x10000;
    }
    NormUnique(checksum, checksum);
    r := checksum;
  }

  lemma FoldOnce(x: nat)
    ensures Norm(x % 0x10000 + x / 0x10000) == Norm(x)
  {
    ModTimes(x % 0x10000 + x / 0x10000, x / 0x10000);
    NormUnique(x, Norm(x % 0x10000 + x / 0x10000));
  }

  /** The sum of the 16-bit words of a buffer, low byte first, an odd byte counting as a low one. */
  ghost function WordSum(d: Bytes): nat {
    if |d| == 0 then 0
    else if |d| == 1 then d[0] as nat
    else d[0] as nat + 256 * d[1] as nat + WordSum(d[2..])
  }

  /** A zero byte at the end makes no difference, so an odd one is padded with one (RFC 1071). */
  lemma {:induction false} Padded(d: Bytes)
    ensures WordSum(d + [0]) == WordSum(d)
    decreases |d|
  {
    if |d| >= 2 {
      Padded(d[2..]);
      assert (d + [0])[2..] == d[2..] + [0];
    }
  }

  /** inet_checksum as a formula. */
  ghost function Sum16(d: Bytes, prevsum: nat): nat
    requires prevsum <= 0xffff
  {
    0xffff - Norm(0xffff - prevsum + WordSum(d))
  }

  /** inet_checksum. */
  method InetChecksum(data: Bytes, prevsum: nat) returns (r: nat)
    requires prevsum <= 0xffff && |data| <= 0x2_0000
    ensures r == Sum16(data, prevsum)
  {
    var checksum := 0xffff - prevsum;
    var i, len := 0, |data|;
    assert data[0..] == data;
    while len >= 2
      invariant 0 <= i && 0 <= len && i + len == |data|
      invariant checksum + WordSum(data[i..]) == 0xffff - prevsum + WordSum(data)
      invariant checksum <= 0xffff - prevsum + i / 2 * 0xffff && i % 2 == 0
    {
      var word := data[i] as nat + 256 * data[i + 1] as nat;
      assert data[i..][2..] == data[i + 2..];
      checksum := checksum + word;
      i := i + 2;
      len := len - 2;
    }
    if len > 0 {
      checksum := checksum + data[i] as nat;
    }
    assert checksum < 0x1_0000_0000;
    checksum := FoldAll(checksum);
    r := 0xffff - checksum;
  }

  lemma {:induction false} WordSumConcat(a: Bytes, b: Bytes)
    requires |a| % 2 == 0
    ensures WordSum(a + b) == WordSum(a) + WordSum(b)
  {
    if a == [] {
      assert a + b == b;
    } else {
      assert (a + b)[2..] == a[2..] + b;
      WordSumConcat(a[2..], b);
    }
  }

  /** The checksum of a part carried on to the next one is the checksum of the whole. */
  lemma Chaining(a: Bytes, b: Bytes, prevsum: nat)
    requires |a| % 2 == 0 && prevsum <= 0xffff
    ensures Sum16(b, Sum16(a, prevsum)) == Sum16(a + b, prevsum)
  {
    WordSumConcat(a, b);
    NormAdd(0xffff - prevsum + WordSum(a), WordSum(b));
  }

  /** A buffer that carries a correct checksum of itself. */
  ghost predicate Correct(d: Bytes) {
    Norm(WordSum(d)) == 0xffff
  }

  lemma CorrectMeans(d: Bytes)
    ensures Correct(d) <==> WordSum(d) > 0 && Congruent(WordSum(d), 0)
  {
  }

  /** Storing the checksum of a buffer whose checksum field is zero makes it correct. */
  lemma StoredIsCorrect(d: Bytes, k: nat, c: nat)
    requires k + 1 < |d| && k % 2 == 0 && d[k] == 0 && d[k + 1] == 0 && c == Sum16(d, 0xffff) && c <= 0xffff
    ensures Correct(d[k := (c % 256) as byte][k + 1 := (c / 256) as byte])
  {
    var d1 := d[k := (c % 256) as byte];
    SetByte(d, k, (c % 256) as byte);
    SetByte(d1, k + 1, (c / 256) as byte);
    NormAdd(WordSum(d), c);
  }

  /** What one byte contributes. */
  lemma {:induction false} SetByte(d: Bytes, i: nat, x: byte)
    requires i < |d|
    ensures WordSum(d[i := x]) == WordSum(d) + (if i % 2 == 0 then 1 else 256) * (x as int - d[i] as int)
  {
    var e := d[i := x];
    if i < 2 {
      if |d| > 1 {
        assert e[2..] == d[2..];
      }
    } else {
      assert e[2..] == d[2..][i - 2 := x];
      SetByte(d[2..], i - 2, x);
    }
  }

  /** A 16-bit field, high byte first. */
  function Field(d: Bytes, k: nat): nat
    requires k + 1 < |d|
  {
    256 * d[k] as nat + d[k + 1] as nat
  }

  function SetField(d: Bytes, k: nat, v: nat): Bytes
    requires k + 1 < |d| && v <= 0xffff
  {
    d[k := (v / 256) as byte][k + 1 := (v % 256) as byte]
  }

  lemma SetFieldSum(d: Bytes, k: nat, v: nat)
    requires k + 1 < |d| && v <= 0xffff
    ensures |SetField(d, k, v)| == |d| && Field(SetField(d, k, v), k) == v
    ensures k % 2 == 0 ==> Congruent(WordSum(SetField(d, k, v)), WordSum(d) + 256 * (v - Field(d, k)))
    ensures k % 2 == 1 ==> Congruent(WordSum(SetField(d, k, v)), WordSum(d) + (v - Field(d, k)))
  {
    var hi, lo := (v / 256) as byte, (v % 256) as byte;
    var d1 := d[k := hi];
    SetByte(d, k, hi);
    SetByte(d1, k + 1, lo);
    var dh, dl := hi as int - d[k] as int, lo as int - d[k + 1] as int;
    var s' := WordSum(SetField(d, k, v));
    if k % 2 == 0 {
      assert s' == WordSum(d) + dh + 256 * dl;
      ModTimes(s', dh);
      assert s' + dh * 0xffff == WordSum(d) + 256 * (256 * dh + dl);
    } else {
      assert s' == WordSum(d) + 256 * dh + dl;
    }
  }

  /** Changing a field and the checksum field by what cancels it keeps a checksum as right or
      wrong as it was. */
  lemma Incremental(d: Bytes, k: nat, v: nat, c: nat, c': nat)
    requires k + 1 < |d| && c + 1 < |d| && k % 2 == 0 && c % 2 == 0 && k != c && v <= 0xffff && c' <= 0xffff
    requires Congruent(c' - Field(d, c), Field(d, k) - v)
    ensures |SetField(d, k, v)| == |d|
    ensures Congruent(WordSum(SetField(SetField(d, k, v), c, c')), WordSum(d))
  {
    var d1 := SetField(d, k, v);
    assert |d1| == |d| && Field(d1, c) == Field(d, c);
    hide WordSum, SetField, Field, Congruent;
    SetFieldSum(d, k, v);
    SetFieldSum(d1, c, c');
    Cancelling(WordSum(d), WordSum(d1), WordSum(SetField(d1, c, c')), v - Field(d, k), c' - Field(d, c));
  }

  lemma Cancelling(w: int, w1: int, w2: int, x: int, y: int)
    requires Congruent(w1, w + 256 * x) && Congruent(w2, w1 + 256 * y) && Congruent(y, -x)
    ensures Congruent(w2, w)
  {
    ModAdd(y, -x, x);
    ModMul(x + y);
    ModAdd(w1, w + 256 * x, 256 * y);
    assert w + 256 * x + 256 * y == w + 256 * (x + y);
    ModAdd(256 * (x + y), 0, w);
  }

  lemma ModMul(x: int)
    requires x % 0xffff == 0
    ensures (256 * x) % 0xffff == 0
  {
    ModTimes(0, 256 * (x / 0xffff));
  }
}
