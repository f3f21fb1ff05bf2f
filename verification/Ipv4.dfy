/** What src/route.c does to the headers of packets it forwards: the time to live and the TCP
    maximum segment size, with the checksums updated in place. */
module Ipv4 {
  import opened Common
  import opened Checksum

  const ETHER_SIZE: nat := 14
  const IP_SIZE: nat := 20
  const IP6_SIZE: nat := 40
  const ETH_P_IP := 0x0800
  const ETH_P_IPV6 := 0x86dd
  const ETH_P_8021Q := 0x8100

  /** The type of the payload, behind a VLAN tag if there is one. */
  function EtherType(d: Bytes): nat
    requires |d| >= 18
  {
    if Field(d, 12) == ETH_P_8021Q then Field(d, 16) else Field(d, 12)
  }

  function EtherLength(d: Bytes): nat
    requires |d| >= 18
  {
    if Field(d, 12) == ETH_P_8021Q then ETHER_SIZE + 4 else ETHER_SIZE
  }

  /** Write a 16-bit field of a buffer, high byte first. */
  method PutField(data: array<byte>, k: nat, v: nat)
    requires k + 1 < data.Length && v <= 0xffff
    modifies data
    ensures data[..] == SetField(old(data[..]), k, v)
  {
    data[k] := (v / 256) as byte;
    data[k + 1] := (v % 256) as byte;
  }

  /** The part of a packet from `e` on is as right or wrong as it was. */
  ghost predicate SameCorrectness(d: Bytes, d': Bytes, e: nat) {
    |d'| == |d| && forall m | e + IP_SIZE <= m <= |d| :: Correct(d'[e..m]) <==> Correct(d[e..m])
  }

  /** A time to live one less, and the checksum to match. */
  ghost function Aged(d: Bytes, e: nat): Bytes
    requires e + IP_SIZE <= |d| && d[e + 8] > 1
  {
    var older := Field(d, e + 8);
    var c := Norm(Field(d, e + 10) + older + (0xffff - (older - 256)));
    SetField(SetField(d, e + 8, older - 256), e + 10, c)
  }

  /** Nothing but the time to live and the checksum changes. */
  lemma AgedFields(d: Bytes, e: nat)
    requires e + IP_SIZE <= |d| && d[e + 8] > 1
    ensures var a := Aged(d, e);
            |a| == |d| && a[e + 8] == d[e + 8] - 1 && forall j | 0 <= j < |d| && j !in {e + 8, e + 10, e + 11} ::
                a[j] == d[j]
  {
    hide Norm;
  }

  lemma FieldRange(d: Bytes, k: nat)
    requires k + 1 < |d|
    ensures Field(d, k) <= 0xffff
  {
  }

  lemma SliceField(d: Bytes, e: nat, n: nat, k: nat, v: nat)
    requires e + n <= |d| && k + 1 < n && v <= 0xffff
    ensures SetField(d, e + k, v)[e..e + n] == SetField(d[e..e + n], k, v) && Field(d[e..e + n], k) == Field(d, e + k)
  {
  }

  /** The checksum of every header that starts at `e` is as right or wrong as before. */
  lemma AgedIsCorrect(d: Bytes, e: nat)
    requires e + IP_SIZE <= |d| && d[e + 8] > 1
    ensures SameCorrectness(d, Aged(d, e), e)
  {
    var d' := Aged(d, e);
    forall m | e + IP_SIZE <= m <= |d|
      ensures Correct(d'[e..m]) <==> Correct(d[e..m])
    {
      AgedHeader(d, e, m - e);
    }
  }

  lemma AgedHeader(d: Bytes, e: nat, n: nat)
    requires IP_SIZE <= n && e + n <= |d| && d[e + 8] > 1
    ensures Correct(Aged(d, e)[e..e + n]) <==> Correct(d[e..e + n])
  {
    var older := Field(d, e + 8);
    var csum: int := Field(d, e + 10);
    FieldRange(d, e + 8);
    FieldRange(d, e + 10);
    var sum := csum + older + (0xffff - (older - 256));
    var c := Norm(sum);
    var h := d[e..e + n];
    SliceField(d, e, n, 8, older - 256);
    SliceField(SetField(d, e + 8, older - 256), e, n, 10, c);
    SliceField(d, e, n, 10, c);
    var h' := SetField(SetField(h, 8, older - 256), 10, c);
    assert Aged(d, e)[e..e + n] == h';
    Positive(h, 8);
    AgedPositive(h, older - 256, c);
    hide SetField, Aged, Field, Norm, WordSum;
    ModAdd(c, sum, 0 - csum);
    ModTimes(older - (older - 256), 1);
    Incremental(h, 8, older - 256, 10, c);
    CorrectMeans(h);
    CorrectMeans(h');
  }

  lemma {:induction false} Positive(d: Bytes, i: nat)
    requires i < |d| && d[i] > 0
    ensures WordSum(d) > 0
  {
    if i >= 2 {
      Positive(d[2..], i - 2);
    }
  }

  lemma AgedPositive(h: Bytes, v: nat, c: nat)
    requires |h| >= IP_SIZE && 256 <= v <= 0xffff && c <= 0xffff
    ensures |SetField(h, 8, v)| == |h| && WordSum(SetField(SetField(h, 8, v), 10, c)) > 0
  {
    Positive(SetField(SetField(h, 8, v), 10, c), 8);
  }

  /** do_decrement_ttl.  The buffer of a packet that may not travel further is as it was found; the
      reply, which the source may then build in it, is not part of this. */
  method DecrementTtl(data: array<byte>, len: nat) returns (ok: bool)
    requires len <= data.Length && 64 <= data.Length
    modifies data
    ensures var d := old(data[..]);
            var e, kind := EtherLength(d), EtherType(d);
            && (kind == ETH_P_IP ==> (ok <==> e + IP_SIZE <= len && d[e + 8] > 1))
            && (kind == ETH_P_IPV6 ==> (ok <==> e + IP6_SIZE <= len && d[e + 7] > 1))
            && (kind != ETH_P_IP && kind != ETH_P_IPV6 ==> ok)
            && (!ok || (kind != ETH_P_IP && kind != ETH_P_IPV6) ==> data[..] == d)
            && (ok && kind == ETH_P_IP ==>
                  data[..] == Aged(d, e) && data[e + 8] == d[e + 8] - 1 && SameCorrectness(d, data[..], e))
            && (ok && kind == ETH_P_IPV6 ==> data[..] == d[e + 7 := d[e + 7] - 1])
  {
    hide SameCorrectness, Norm;
    ghost var d := data[..];
    var kind, ethlen := Field(data[..], 12), ETHER_SIZE;
    if kind == ETH_P_8021Q {
      kind := Field(data[..], 16);
      ethlen := ethlen + 4;
    }
    if kind == ETH_P_IP {
      if len < ethlen + IP_SIZE || data[ethlen + 8] <= 1 {
        return false;
      }
      AgedIsCorrect(d, ethlen);
      var older := Field(data[..], ethlen + 8);
      data[ethlen + 8] := data[ethlen + 8] - 1;
      var newer := Field(data[..], ethlen + 8);
      var checksum := Field(data[..], ethlen + 10);
      assert data[..] == SetField(d, ethlen + 8, newer);
      checksum := FoldAll(checksum + older + (0xffff - newer));
      NormRange(Field(d, ethlen + 10) + older + (0xffff - newer));
      PutField(data, ethlen + 10, checksum);
      return true;
    } else if kind == ETH_P_IPV6 {
      if len < ethlen + IP6_SIZE || data[ethlen + 7] <= 1 {
        return false;
      }
      data[ethlen + 7] := data[ethlen + 7] - 1;
      return true;
    }
    return true;
  }

  lemma NormRange(x: nat)
    ensures Norm(x) <= 0xffff
  {
  }

  /** The TCP checksum of a segment, `pseudo` being the sum over the pseudo header, is right. */
  ghost predicate SegmentCorrect(pseudo: nat, segment: Bytes) {
    Norm(pseudo + WordSum(segment)) == 0xffff
  }

  /** The checksum for a 16-bit field changed from `older` to `newer` (RFC 1624, equation 3). */
  function Updated(csum: nat, older: nat, newer: nat): (r: nat)
    requires csum <= 0xffff && older <= 0xffff && newer <= 0xffff
    ensures r <= 0xffff
  {
    0xffff - Norm(0xffff - csum + (0xffff - older) + newer)
  }

  lemma UpdatedSum(csum: nat, older: nat, newer: nat)
    requires csum <= 0xffff && older <= 0xffff && newer <= 0xffff
    ensures Congruent(Updated(csum, older, newer) - csum, older - newer)
  {
    var x := 0xffff - csum + (0xffff - older) + newer;
    var n: int := Norm(x);
    var z: int := 0xffff - csum;
    ModNeg(n, x);
    ModAdd(-n, -x, z);
    ModTimes(older - newer, -1);
    assert z - x == older - newer + -1 * 0xffff;
  }

  lemma ModNeg(a: int, b: int)
    requires a % 0xffff == b % 0xffff
    ensures (-a) % 0xffff == (-b) % 0xffff
  {
    var k := a / 0xffff - b / 0xffff;
    assert -a == -b + (-k) * 0xffff;
    ModTimes(-b, -k);
  }

  /** The segment with a new maximum segment size at `k`, and the checksum at 16 updated. */
  ghost function Clamped(g: Bytes, k: nat, v: nat): Bytes
    requires 18 <= k && k + 1 < |g| && v <= 0xffff
  {
    FieldRange(g, 16);
    FieldRange(g, k);
    SetField(SetField(g, k, v), 16, Updated(Field(g, 16), Field(g, k), v))
  }

  /** The new value is in its field, and nothing but that and the checksum has changed. */
  lemma ClampedFields(g: Bytes, k: nat, v: nat)
    requires 18 <= k && k + 1 < |g| && v <= 0xffff
    ensures var c := Clamped(g, k, v);
            |c| == |g| && Field(c, k) == v && forall j | 0 <= j < |g| && j !in {k, k + 1, 16, 17} :: c[j] == g[j]
  {
    hide Updated;
    FieldRange(g, 16);
    FieldRange(g, k);
  }

  /** Clamping keeps a right checksum right exactly if the field is at an even offset, or the two
      values agree modulo 257. */
  lemma ClampCorrect(pseudo: nat, g: Bytes, k: nat, v: nat)
    requires 18 <= k && k + 1 < |g| && v <= 0xffff && pseudo > 0 && SegmentCorrect(pseudo, g)
    ensures SegmentCorrect(pseudo, Clamped(g, k, v)) <==> k % 2 == 0 || v % 257 == Field(g, k) % 257
  {
    var older: int := Field(g, k);
    var csum: int := Field(g, 16);
    FieldRange(g, 16);
    FieldRange(g, k);
    hide WordSum, Norm, SegmentCorrect, Field, SetField, Updated, Congruent;
    var c := Updated(csum, older, v);
    var g' := Clamped(g, k, v);
    SegmentMeans(pseudo, g);
    SegmentMeans(pseudo, g');
    if k % 2 == 0 {
      UpdatedSum(csum, older, v);
      Incremental(g, k, v, 16, c);
      CongruentAdd(WordSum(g'), WordSum(g), pseudo);
    } else {
      OddClamp(g, k, v);
      OddEffect(pseudo, WordSum(g), WordSum(g'), v, older);
    }
  }

  /** The same for a segment that ends before the buffer does. */
  lemma ClampCorrectWithin(pseudo: nat, g: Bytes, n: nat, k: nat, v: nat)
    requires 18 <= k && k + 1 < n <= |g| && v <= 0xffff && pseudo > 0 && SegmentCorrect(pseudo, g[..n])
    ensures n <= |Clamped(g, k, v)|
    ensures SegmentCorrect(pseudo, Clamped(g, k, v)[..n]) <==> k % 2 == 0 || v % 257 == Field(g, k) % 257
  {
    hide SegmentCorrect, Updated;
    ClampCorrect(pseudo, g[..n], k, v);
    assert Field(g[..n], k) == Field(g, k) && Field(g[..n], 16) == Field(g, 16);
    assert Clamped(g, k, v)[..n] == Clamped(g[..n], k, v);
  }

  lemma OddEffect(pseudo: int, w: int, w': int, v: int, older: int)
    requires Congruent(pseudo + w, 0) && Congruent(w', w - 255 * (v - older))
    ensures Congruent(pseudo + w', 0) <==> v % 257 == older % 257
  {
    ModAdd(w', w - 255 * (v - older), pseudo);
    ModAdd(pseudo + w, 0, -255 * (v - older));
    Times255(v - older);
    Mod257(v, older);
  }

  lemma CongruentAdd(a: int, b: int, y: int)
    requires Congruent(a, b)
    ensures Congruent(y + a, 0) <==> Congruent(y + b, 0)
  {
    ModAdd(a, b, y);
  }

  lemma SegmentMeans(pseudo: nat, g: Bytes)
    requires pseudo > 0
    ensures SegmentCorrect(pseudo, g) <==> Congruent(pseudo + WordSum(g), 0)
  {
  }

  lemma OddClamp(g: Bytes, k: nat, v: nat)
    requires 18 <= k && k + 1 < |g| && v <= 0xffff && k % 2 == 1
    ensures Congruent(WordSum(Clamped(g, k, v)), WordSum(g) - 255 * (v - Field(g, k)))
  {
    hide WordSum, Norm, Field, SetField, Updated, Congruent;
    var older: int := Field(g, k);
    var csum: int := Field(g, 16);
    FieldRange(g, 16);
    FieldRange(g, k);
    var g1 := SetField(g, k, v);
    OtherField(g, k, v);
    var c := Updated(csum, older, v);
    SetFieldSum(g, k, v);
    SetFieldSum(g1, 16, c);
    UpdatedSum(csum, older, v);
    OddSums(WordSum(g), WordSum(g1), WordSum(SetField(g1, 16, c)), v - older, c - csum);
  }

  lemma OtherField(g: Bytes, k: nat, v: nat)
    requires 18 <= k && k + 1 < |g| && v <= 0xffff
    ensures |SetField(g, k, v)| == |g| && Field(SetField(g, k, v), 16) == Field(g, 16)
  {
  }

  lemma OddSums(w: int, w1: int, w2: int, x: int, y: int)
    requires Congruent(w1, w + x) && Congruent(w2, w1 + 256 * y) && Congruent(y, -x)
    ensures Congruent(w2, w - 255 * x)
  {
    ModAdd(w1, w + x, 256 * y);
    ModScale(y, -x);
    ModAdd(256 * y, 256 * -x, w + x);
  }

  lemma ModScale(a: int, b: int)
    requires a % 0xffff == b % 0xffff
    ensures (256 * a) % 0xffff == (256 * b) % 0xffff
  {
    var k := a / 0xffff - b / 0xffff;
    assert 256 * a == 256 * b + (256 * k) * 0xffff;
    ModTimes(256 * b, 256 * k);
  }

  lemma Times255(x: int)
    ensures (-255 * x) % 0xffff == 0 <==> x % 257 == 0
  {
    var q, r := x / 257, x % 257;
    assert -255 * x == -255 * r + (-q) * 0xffff;
    ModTimes(-255 * r, -q);
  }

  lemma Mod257(a: int, b: int)
    ensures (a - b) % 257 == 0 <==> a % 257 == b % 257
  {
  }

  /** The frame, of which `len` bytes count, has a TCP header at t: behind an IPv4 header, which may
      be inside another one of 20 bytes, or behind an IPv6 header. */
  predicate TcpAt(d: Bytes, len: nat, t: nat)
    requires len <= |d| && 64 <= |d|
  {
    var e, kind := EtherLength(d), EtherType(d);
    var h := if kind == ETH_P_IP && d[e + 9] == 4 then e + IP_SIZE else e;
    && h + 20 < len && t + 20 < len
    && ((kind == ETH_P_IP && d[h + 9] == 6 && t == h + 4 * (d[h] % 16) as nat)
        || (kind == ETH_P_IPV6 && d[h + 6] == 6 && t == h + IP6_SIZE))
  }

  /** Where the TCP header is, if the packet has one. */
  method FindTcp(data: array<byte>, len: nat) returns (r: Option<nat>)
    requires len <= data.Length && 64 <= data.Length
    ensures forall t: nat :: TcpAt(data[..], len, t) <==> r == Some(t)
    ensures r.Some? ==> r.value + 20 < len && r.value >= ETHER_SIZE
  {
    var start, kind := ETHER_SIZE, Field(data[..], 12);
    if kind == ETH_P_8021Q {
      start := start + 4;
      kind := Field(data[..], 16);
    }
    if kind == ETH_P_IP && data[start + 9] == 4 {
      start := start + 20;
    }
    if len <= start + 20 {
      return None;
    }
    if kind == ETH_P_IP && data[start + 9] == 6 {
      start := start + (data[start] % 16) as nat * 4;
    } else if kind == ETH_P_IPV6 && data[start + 6] == 6 {
      start := start + 40;
    } else {
      return None;
    }
    if len <= start + 20 {
      return None;
    }
    return Some(start);
  }

  /** The length of the TCP options, from the data offset field; it may come out negative. */
  function OptionsLength(d: Bytes, t: nat): int
    requires t + 12 < |d|
  {
    ((d[t + 12] / 16) as int - 5) * 4
  }

  /** The option at offset j, which may be 2 bytes or longer, ends within the `n` bytes of options. */
  predicate Fits(d: Bytes, base: nat, n: nat, j: nat)
    requires base + n <= |d|
  {
    j + 2 <= n && j + d[base + j + 1] as nat <= n
  }

  /** The option at offset j is one to skip: a NOP, or one of another kind. */
  predicate Skippable(d: Bytes, base: nat, n: nat, j: nat)
    requires base + n <= |d| && j < n
  {
    d[base + j] == 1 || (d[base + j] > 2 && Fits(d, base, n, j) && d[base + j + 1] >= 2)
  }

  function Following(d: Bytes, base: nat, n: nat, j: nat): (k: nat)
    requires base + n <= |d| && j < n && Skippable(d, base, n, j)
    ensures j < k <= n
  {
    if d[base + j] == 1 then j + 1 else j + d[base + j + 1] as nat
  }

  /** Walking over the TCP options at `base`, from offset j one gets to offset i. */
  ghost predicate Walks(d: Bytes, base: nat, n: nat, j: nat, i: nat)
    requires base + n <= |d|
    decreases n - j
  {
    j == i || (j < n && Skippable(d, base, n, j) && Walks(d, base, n, Following(d, base, n, j), i))
  }

  /** The option at offset i is taken for a maximum segment size; the length tested is that of the
      first option. */
  predicate MssAt(d: Bytes, base: nat, n: nat, i: nat)
    requires base + n <= |d|
  {
    Fits(d, base, n, i) && d[base + i] == 2 && d[base + 1] == 4
  }

  /** The option the walk from offset j stops at, if it is to be clamped. */
  ghost function MssOption(d: Bytes, base: nat, n: nat, j: nat): (r: Option<nat>)
    requires base + n <= |d|
    decreases n - j
  {
    if j < n && Skippable(d, base, n, j) then MssOption(d, base, n, Following(d, base, n, j))
    else if MssAt(d, base, n, j) then Some(j)
    else None
  }

  lemma {:induction false} MssOptionMeans(d: Bytes, base: nat, n: nat, j: nat, i: nat)
    requires base + n <= |d|
    ensures MssOption(d, base, n, j) == Some(i) <==> Walks(d, base, n, j, i) && MssAt(d, base, n, i)
    decreases n - j
  {
    if j < n && Skippable(d, base, n, j) {
      MssOptionMeans(d, base, n, Following(d, base, n, j), i);
    }
  }

  /** The option to clamp in a segment at t, as an offset from the end of the fixed TCP header. */
  ghost function MssIn(d: Bytes, len: nat, t: nat): Option<nat>
    requires len <= |d| && t + 20 < len
  {
    var n := OptionsLength(d, t);
    if n < 0 || len < t + 20 + n then None else MssOption(d, t + 20, n, 0)
  }

  /** The search for the option. */
  method FindMss(data: array<byte>, len: nat, start: nat) returns (r: Option<nat>)
    requires len <= data.Length && start + 20 < len
    ensures r == MssIn(data[..], len, start)
    ensures r.Some? ==> start + 22 + r.value <= len
  {
    var optlen := ((data[start + 12] / 16) as int - 5) * 4;
    if len < start + 20 + optlen {
      return None;
    }
    ghost var d, base := data[..], start + 20;
    var i := 0;
    while i < optlen
      invariant 0 <= i && (optlen >= 0 ==> i <= optlen && MssIn(d, len, start) == MssOption(d, base, optlen, i))
      decreases optlen - i
    {
      var kind := data[start + 20 + i];
      if kind == 0 {
        break;
      }
      if kind == 1 {
        i := i + 1;
        continue;
      }
      if i > optlen - 2 || i > optlen - data[start + 21 + i] as int {
        break;
      }
      if kind != 2 {
        var size := data[start + 21 + i];
        if size < 2 {
          break;
        }
        i := i + size as int;
        continue;
      }
      if data[start + 21] != 4 {
        break;
      }
      return Some(i);
    }
    return None;
  }

  lemma TwoFolds(x: nat)
    requires x <= 3 * 0xffff
    ensures var y := x % 0x10000 + x / 0x10000;
            (y + y / 0x10000) % 0x10000 == Norm(x)
  {
    var y := x % 0x10000 + x / 0x10000;
    var z := (y + y / 0x10000) % 0x10000;
    FoldOnce(x);
    if y >= 0x10000 {
      FoldOnce(y);
    }
    NormUnique(y, z);
  }

  /** The new checksum; only its low 16 bits are stored. */
  method UpdateChecksum(old16: nat, oldmss: nat, newmss: nat) returns (csum: nat)
    requires old16 <= 0xffff && oldmss <= 0xffff && newmss <= 0xffff
    ensures csum == Updated(old16, oldmss, newmss)
  {
    csum := 0xffff - old16;
    csum := csum + (0xffff - oldmss);
    csum := csum + newmss;
    TwoFolds(csum);
    csum := csum % 0x10000 + csum / 0x10000;
    csum := csum + csum / 0x10000;
    csum := 0xffff - csum % 0x10000;
  }

  /** The new maximum segment size, as an unsigned 16-bit number. */
  function NewMss(mtu: nat, t: nat): nat {
    (mtu - t - 20) % 0x10000
  }

  /** A segment of the new size, with its headers, just fits the path MTU, exactly if the headers do. */
  lemma NewMssFits(mtu: nat, t: nat)
    requires mtu <= 0xffff && t <= 0xffff
    ensures t + 20 + NewMss(mtu, t) <= mtu <==> t + 20 <= mtu
    ensures t + 20 <= mtu ==> t + 20 + NewMss(mtu, t) + 1 > mtu
  {
  }

  /** The field at k of the segment at t is clamped. */
  ghost predicate Hits(d: Bytes, len: nat, mtu: nat, t: nat, k: nat)
    requires len + 2 <= |d| && 64 <= |d|
  {
    && TcpAt(d, len, t) && t + 22 <= k && k + 1 < |d| && MssIn(d, len, t) == Some(k - t - 22)
    && NewMss(mtu, t) < Field(d, k)
  }

  /** A segment from t on, through the field at k, that is right stays right. */
  ghost predicate StaysRight(d: Bytes, d': Bytes, t: nat, k: nat)
    requires t <= k && |d'| == |d|
  {
    forall pseudo: nat, m: nat | pseudo > 0 && k + 1 < m <= |d| && SegmentCorrect(pseudo, d[t..m]) ::
        SegmentCorrect(pseudo, d'[t..m])
  }

  /** Store the new maximum segment size and the checksum to match. */
  method StoreMss(data: array<byte>, t: nat, k: nat, newmss: nat)
    requires t + 18 <= k && k + 1 < data.Length && newmss <= 0xffff
    modifies data
    ensures data[..t] == old(data[..])[..t] && data[t..] == Clamped(old(data[..])[t..], k - t, newmss)
    ensures (k - t) % 2 == 0 ==> StaysRight(old(data[..]), data[..], t, k)
  {
    hide Updated, StaysRight, Field, SetField;
    var oldmss, csum := Field(data[..], k), Field(data[..], t + 16);
    FieldRange(data[..], k);
    FieldRange(data[..], t + 16);
    ghost var d := data[..];
    PutField(data, k, newmss);
    csum := UpdateChecksum(csum, oldmss, newmss);
    PutField(data, t + 16, csum);
    ClampedSlice(d, t, k, newmss);
    if (k - t) % 2 == 0 {
      EvenClampRight(d, data[..], t, k, newmss);
    }
  }

  /** clamp_mss, once it is known to apply: `mtu` is the smaller path MTU of the two nodes. */
  method ClampMss(data: array<byte>, len: nat, mtu: nat) returns (ghost at: Option<(nat, nat)>)
    requires len + 2 <= data.Length && 64 <= data.Length && mtu <= 0xffff
    modifies data
    ensures forall t: nat, k: nat :: Hits(old(data[..]), len, mtu, t, k) <==> at == Some((t, k))
    ensures at.None? ==> data[..] == old(data[..])
    ensures at.Some? ==>
              var (t, k) := at.value;
              && t + 22 <= k && k + 1 < data.Length
              && data[..t] == old(data[..])[..t] && data[t..] == Clamped(old(data[..])[t..], k - t, NewMss(mtu, t))
              && ((k - t) % 2 == 0 ==> StaysRight(old(data[..]), data[..], t, k))
              && (forall j | 0 <= j < data.Length && j !in {k, k + 1, t + 16, t + 17} :: data[j] == old(data[j]))
              && (t + 20 <= mtu ==> t + 20 + Field(data[..], k) == mtu)
  {
    hide MssIn, TcpAt, StaysRight, Clamped, Field;
    at := None;
    var tcp := FindTcp(data, len);
    if tcp.None? {
      return;
    }
    var option := FindMss(data, len, tcp.value);
    if option.None? {
      return;
    }
    var k := tcp.value + 22 + option.value;
    var newmss := (mtu - tcp.value - 20) % 0x10000;
    if Field(data[..], k) <= newmss {
      return;
    }
    at := Some((tcp.value, k));
    ghost var d := data[..];
    StoreMss(data, tcp.value, k, newmss);
    ClampedPacket(d, data[..], tcp.value, k, newmss);
  }

  lemma ClampedPacket(d: Bytes, d': Bytes, t: nat, k: nat, v: nat)
    requires t + 18 <= k && k + 1 < |d| == |d'| && v <= 0xffff
    requires d'[..t] == d[..t] && d'[t..] == Clamped(d[t..], k - t, v)
    ensures Field(d', k) == v && forall j | 0 <= j < |d| && j !in {k, k + 1, t + 16, t + 17} :: d'[j] == d[j]
  {
    hide Clamped;
    ClampedFields(d[t..], k - t, v);
    assert d'[t..][k - t] == d'[k] && d'[t..][k - t + 1] == d'[k + 1];
    forall j | 0 <= j < |d| && j !in {k, k + 1, t + 16, t + 17}
      ensures d'[j] == d[j]
    {
      if j < t {
        assert d'[..t][j] == d[..t][j];
      } else {
        assert d'[t..][j - t] == d[t..][j - t];
      }
    }
  }

  lemma EvenClampRight(d: Bytes, d': Bytes, t: nat, k: nat, v: nat)
    requires t + 18 <= k && k + 1 < |d| == |d'| && v <= 0xffff && (k - t) % 2 == 0
    requires d'[t..] == Clamped(d[t..], k - t, v)
    ensures StaysRight(d, d', t, k)
  {
    hide SegmentCorrect, Clamped;
    forall pseudo: nat, m: nat | pseudo > 0 && k + 1 < m <= |d| && SegmentCorrect(pseudo, d[t..m])
      ensures SegmentCorrect(pseudo, d'[t..m])
    {
      assert d[t..][..m - t] == d[t..m] && d'[t..][..m - t] == d'[t..m];
      ClampCorrectWithin(pseudo, d[t..], m - t, k - t, v);
    }
  }

  lemma ClampedSlice(d: Bytes, start: nat, k: nat, v: nat)
    requires start + 18 <= k && k + 1 < |d| && v <= 0xffff
    ensures |SetField(d, k, v)| == |d|
    ensures Field(d, start + 16) <= 0xffff && Field(d, k) <= 0xffff
    ensures var d' := SetField(SetField(d, k, v), start + 16, Updated(Field(d, start + 16), Field(d, k), v));
            d'[start..] == Clamped(d[start..], k - start, v) && d'[..start] == d[..start]
  {
    hide Updated;
    var g := d[start..];
    FieldRange(d, start + 16);
    FieldRange(d, k);
    assert Field(g, 16) == Field(d, start + 16) && Field(g, k - start) == Field(d, k);
  }

  /** An IPv4 frame of 66 bytes whose TCP options are one of kind 30, a NOP and a maximum segment
      size of 1460. */
  predicate OddOptions(d: Bytes) {
    && |d| == 68 && d[12] == 8 && d[13] == 0 && d[14] == 0x45 && d[23] == 6 && d[46] == 0x80
    && d[54] == 30 && d[55] == 4 && d[58] == 1 && d[59] == 2 && d[60] == 4 && d[61] == 5 && d[62] == 180
  }

  lemma OddPacket() returns (d: Bytes)
    ensures OddOptions(d)
  {
    d := seq(68, _ => 0);
    d := d[12 := 8][14 := 0x45][23 := 6][46 := 0x80];
    d := d[54 := 30][55 := 4][58 := 1][59 := 2][60 := 4][61 := 5][62 := 180];
  }

  /** The walk over such options ends at an odd offset, and with a path MTU of 1001 the clamped
      segment is wrong, whatever the pseudo header that made it right. */
  lemma OddOptionsClamped(d: Bytes, pseudo: nat)
    requires OddOptions(d) && pseudo > 0 && SegmentCorrect(pseudo, d[34..66])
    ensures Hits(d, 66, 1001, 34, 61)
    ensures !SegmentCorrect(pseudo, Clamped(d[34..], 27, NewMss(1001, 34))[..32])
  {
    hide SegmentCorrect, Clamped;
    OddWalk(d);
    assert TcpAt(d, 66, 34);
    assert Field(d, 61) == 1460 && NewMss(1001, 34) == 947;
    assert d[34..][..32] == d[34..66] && Field(d[34..], 27) == Field(d, 61);
    ClampCorrectWithin(pseudo, d[34..], 32, 27, 947);
  }

  lemma OddWalk(d: Bytes)
    requires OddOptions(d)
    ensures MssIn(d, 66, 34) == Some(5)
  {
    assert OptionsLength(d, 34) == 12;
    assert Skippable(d, 54, 12, 0) && Following(d, 54, 12, 0) == 4;
    assert Skippable(d, 54, 12, 4) && Following(d, 54, 12, 4) == 5;
    assert MssOption(d, 54, 12, 5) == Some(5);
  }

  /** There is such a pseudo header. */
  lemma PseudoHeader(g: Bytes) returns (pseudo: nat)
    ensures 0 < pseudo <= 0xffff && SegmentCorrect(pseudo, g)
  {
    var w: int := WordSum(g);
    pseudo := 0xffff - w % 0xffff;
    ModTimes(0, w / 0xffff + 1);
    assert pseudo + w == 0 + (w / 0xffff + 1) * 0xffff;
    SegmentMeans(pseudo, g);
  }
}
