/** Subnets, the order of the subnet tree and the scan that looks an address up
    (src/subnet_parse.c, src/subnet.c). */
module Subnets {
  import opened Common
  import opened Names
  import opened Edges
  import opened Masks

  datatype Kind = Mac | Ipv4 | Ipv6

  function Rank(k: Kind): int {
    match k
    case Mac => 0
    case Ipv4 => 1
    case Ipv6 => 2
  }

  /** The bytes of an address of this kind. */
  function Length(k: Kind): nat {
    match k
    case Mac => 6
    case Ipv4 => 4
    case Ipv6 => 16
  }

  /** `prefix` is not used for MAC addresses. */
  datatype Subnet = Subnet(kind: Kind, address: Address, prefix: nat, weight: int, owner: Option<Name>)
  {
    predicate WellFormed() {
      |address| == Length(kind) && prefix <= 8 * Length(kind) && (kind == Mac ==> prefix == 0) && IsInt(weight)
    }
  }

  function MemCmp(a: Address, b: Address): (r: int)
    requires |a| == |b|
    ensures r == 0 <==> a == b
  {
    if a == [] then 0
    else if a[0] != b[0] then Difference(a[0], b[0])
    else
      assert a == [a[0]] + a[1..] && b == [b[0]] + b[1..];
      MemCmp(a[1..], b[1..])
  }

  /** The first byte in which two addresses differ decides. */
  lemma {:induction false} MemCmpFirst(a: Address, b: Address, i: nat)
    requires |a| == |b| && i < |a| && a[..i] == b[..i] && a[i] < b[i]
    ensures MemCmp(a, b) < 0
    decreases i
  {
    if i > 0 {
      assert a[0] == a[..i][0] == b[0];
      assert a[1..][..i - 1] == a[..i][1..] == b[..i][1..] == b[1..][..i - 1];
      MemCmpFirst(a[1..], b[1..], i - 1);
    }
  }

  lemma {:induction false} MemCmpAntisymmetric(a: Address, b: Address)
    requires |a| == |b|
    ensures MemCmp(a, b) == -MemCmp(b, a)
  {
    if a != [] && a[0] == b[0] {
      MemCmpAntisymmetric(a[1..], b[1..]);
    }
  }

  lemma {:induction false} MemCmpTransitive(a: Address, b: Address, c: Address)
    requires |a| == |b| == |c| && MemCmp(a, b) < 0 && MemCmp(b, c) < 0
    ensures MemCmp(a, c) < 0
  {
    if a[0] == b[0] && b[0] == c[0] {
      MemCmpTransitive(a[1..], b[1..], c[1..]);
    }
  }

  /** Weight first, then the owners' names if both have one. */
  function TailCompare(a: Subnet, b: Subnet): int {
    if Int32(a.weight - b.weight) != 0 || a.owner.None? || b.owner.None? then Int32(a.weight - b.weight)
    else StrCmp(a.owner.value.text, b.owner.value.text)
  }

  /** subnet_compare. */
  function SubnetCompare(a: Subnet, b: Subnet): int
    requires a.WellFormed() && b.WellFormed()
  {
    if a.kind != b.kind then Rank(a.kind) - Rank(b.kind)
    else if a.kind != Mac && a.prefix != b.prefix then b.prefix - a.prefix
    else if a.address != b.address then MemCmp(a.address, b.address)
    else TailCompare(a, b)
  }

  /** An ownerless and an owned entry that differ in nothing else. */
  predicate Clash(a: Subnet, b: Subnet) {
    SameNet(a, b) && a.weight == b.weight && a.owner.None? != b.owner.None?
  }

  lemma SubnetCompareZero(a: Subnet, b: Subnet)
    requires a.WellFormed() && b.WellFormed()
    ensures SubnetCompare(a, b) == 0 <==> a == b || Clash(a, b)
  {
  }

  /** Same kind, prefix and address: only the weights and the owners decide. */
  predicate SameNet(a: Subnet, b: Subnet) {
    a.kind == b.kind && a.prefix == b.prefix && a.address == b.address
  }

  /** MAC addresses come before IPv4 and these before IPv6; then the longer prefix, then the smaller
      address comes first. */
  lemma FirstDifference(a: Subnet, b: Subnet, i: nat)
    requires a.WellFormed() && b.WellFormed()
    ensures (a.kind == Mac && b.kind != Mac) || (a.kind == Ipv4 && b.kind == Ipv6) ==> SubnetCompare(a, b) < 0
    ensures a.kind == b.kind && a.prefix > b.prefix ==> SubnetCompare(a, b) < 0
    ensures a.kind == b.kind && a.prefix == b.prefix && i < |a.address| && a.address[..i] == b.address[..i]
            && a.address[i] < b.address[i] ==>
              SubnetCompare(a, b) < 0
  {
    if a.kind == b.kind && i < |a.address| && a.address[..i] == b.address[..i] && a.address[i] < b.address[i] {
      MemCmpFirst(a.address, b.address, i);
    }
  }

  /** Swapping the entries negates the result exactly if no weights 2^31 apart are subtracted. */
  lemma SubnetCompareAntisymmetric(a: Subnet, b: Subnet)
    requires a.WellFormed() && b.WellFormed()
    ensures SubnetCompare(a, b) == -SubnetCompare(b, a) <==>
              !(SameNet(a, b) && (a.weight - b.weight == 0x8000_0000 || b.weight - a.weight == 0x8000_0000))
  {
    if a.kind == b.kind {
      MemCmpAntisymmetric(a.address, b.address);
      if a.owner.Some? && b.owner.Some? {
        StrCmpAntisymmetric(a.owner.value.text, b.owner.value.text);
      }
    }
  }

  /** The lighter of two entries for one net comes first, seen from either side, exactly if the
      difference fits. */
  lemma LighterFirst(a: Subnet, b: Subnet)
    requires a.WellFormed() && b.WellFormed() && SameNet(a, b) && a.weight < b.weight
    ensures SubnetCompare(a, b) < 0 && SubnetCompare(b, a) > 0 <==> Comparable(a.weight, b.weight)
  {
  }

  /** An ownerless entry is equal to two entries of different owners, one of which comes first. */
  lemma ClashIsNoOrder()
    ensures exists a: Subnet, b: Subnet, c: Subnet ::
              && a.WellFormed() && b.WellFormed() && c.WellFormed()
              && SubnetCompare(a, b) == 0 && SubnetCompare(b, c) == 0 && SubnetCompare(a, c) > 0
  {
    var b := Subnet(Ipv4, [10, 0, 0, 0], 8, 10, None);
    var a, c := b.(owner := Some(Name("c"))), b.(owner := Some(Name("a")));
    assert StrCmp("c", "a") > 0;
    assert a.WellFormed() && b.WellFormed() && c.WellFormed();
    assert SubnetCompare(a, b) == 0 && SubnetCompare(b, c) == 0 && SubnetCompare(a, c) > 0;
  }

  /** The ownerless entry `b` stands between owned ones in the wrong order. */
  ghost predicate Misplaced(a: Subnet, b: Subnet, c: Subnet) {
    && Clash(a, b) && Clash(b, c) && b.owner.None?
    && StrCmp(a.owner.value.text, c.owner.value.text) > 0
  }

  /** That is the only way in which entries whose weights can be compared are not in order. */
  lemma SubnetCompareExactly(a: Subnet, b: Subnet, c: Subnet)
    requires a.WellFormed() && b.WellFormed() && c.WellFormed()
    requires Comparable(a.weight, b.weight) && Comparable(b.weight, c.weight) && Comparable(a.weight, c.weight)
    requires SubnetCompare(a, b) <= 0 && SubnetCompare(b, c) <= 0
    ensures SubnetCompare(a, c) <= 0 <==> !Misplaced(a, b, c)
  {
    CompareSteps(a, b, c);
  }

  /** Strictly they always are. */
  lemma SubnetCompareTransitive(a: Subnet, b: Subnet, c: Subnet)
    requires a.WellFormed() && b.WellFormed() && c.WellFormed()
    requires Comparable(a.weight, b.weight) && Comparable(b.weight, c.weight) && Comparable(a.weight, c.weight)
    requires SubnetCompare(a, b) < 0 && SubnetCompare(b, c) < 0
    ensures SubnetCompare(a, c) < 0
  {
    CompareSteps(a, b, c);
  }

  /** The comparisons of addresses and owners that these need. */
  lemma CompareSteps(a: Subnet, b: Subnet, c: Subnet)
    requires a.WellFormed() && b.WellFormed() && c.WellFormed()
    ensures a.kind == b.kind == c.kind && MemCmp(a.address, b.address) < 0 && MemCmp(b.address, c.address) < 0 ==>
              MemCmp(a.address, c.address) < 0
    ensures a.owner.Some? && b.owner.Some? && c.owner.Some? && StrCmp(a.owner.value.text, b.owner.value.text) < 0
            && StrCmp(b.owner.value.text, c.owner.value.text) < 0 ==>
              StrCmp(a.owner.value.text, c.owner.value.text) < 0
  {
    if a.kind == b.kind == c.kind && MemCmp(a.address, b.address) < 0 && MemCmp(b.address, c.address) < 0 {
      MemCmpTransitive(a.address, b.address, c.address);
    }
    if a.owner.Some? && b.owner.Some? && c.owner.Some? {
      if StrCmp(a.owner.value.text, b.owner.value.text) < 0 && StrCmp(b.owner.value.text, c.owner.value.text) < 0 {
        StrCmpTransitive(a.owner.value.text, b.owner.value.text, c.owner.value.text);
      }
    }
  }

  ghost predicate AllWellFormed(s: seq<Subnet>) {
    forall i | 0 <= i < |s| :: s[i].WellFormed()
  }

  ghost predicate Sorted(s: seq<Subnet>)
    requires AllWellFormed(s)
  {
    forall i, j | 0 <= i < j < |s| :: SubnetCompare(s[i], s[j]) < 0
  }

  /** The subnet holds the address. */
  ghost predicate Matches(p: Subnet, kind: Kind, address: Address)
    requires p.WellFormed() && |address| == Length(kind)
  {
    p.kind == kind && SameBits(address, p.address, p.prefix)
  }

  /** The owner is reachable or there is none. */
  predicate Alive(p: Subnet, reachable: set<Name>) {
    p.owner.None? || p.owner.value in reachable
  }

  /** The first live match, or else the last match. */
  ghost function Scan(s: seq<Subnet>, kind: Kind, address: Address, reachable: set<Name>): Option<Subnet>
    requires AllWellFormed(s) && |address| == Length(kind)
  {
    if s == [] then None
    else if !Matches(s[0], kind, address) then Scan(s[1..], kind, address, reachable)
    else if Alive(s[0], reachable) then Some(s[0])
    else
      var r := Scan(s[1..], kind, address, reachable);
      if r.None? then Some(s[0]) else r
  }

  /** Where in the sequence the result is. */
  ghost predicate ScannedAt(s: seq<Subnet>, kind: Kind, address: Address, reachable: set<Name>, i: nat)
    requires AllWellFormed(s) && |address| == Length(kind)
  {
    && i < |s| && Matches(s[i], kind, address)
    && (forall j | 0 <= j < i && Matches(s[j], kind, address) :: !Alive(s[j], reachable))
    && (!Alive(s[i], reachable) ==> forall j | i < j < |s| :: !Matches(s[j], kind, address))
  }

  lemma {:induction false} ScanMeans(s: seq<Subnet>, kind: Kind, address: Address, reachable: set<Name>)
    returns (i: nat)
    requires AllWellFormed(s) && |address| == Length(kind)
    ensures Scan(s, kind, address, reachable).None? ==> forall j | 0 <= j < |s| :: !Matches(s[j], kind, address)
    ensures Scan(s, kind, address, reachable).Some? ==>
              ScannedAt(s, kind, address, reachable, i) && Scan(s, kind, address, reachable).value == s[i]
  {
    i := 0;
    if s != [] {
      var k := ScanMeans(s[1..], kind, address, reachable);
      assert forall j | 1 <= j < |s| :: s[j] == s[1..][j - 1];
      if !Matches(s[0], kind, address) || (!Alive(s[0], reachable) && Scan(s[1..], kind, address, reachable).Some?) {
        i := k + 1;
      }
    }
  }

  /** Longest prefix, then lowest weight, then least owner. */
  ghost predicate Better(a: Subnet, b: Subnet) {
    || a.prefix > b.prefix
    || (a.prefix == b.prefix && a.weight < b.weight)
    || (a.prefix == b.prefix && a.weight == b.weight && a.owner.Some? && b.owner.Some?
        && StrCmp(a.owner.value.text, b.owner.value.text) < 0)
  }

  /** Among the clean subnets that hold an address, the order of the tree is the order of preference. */
  lemma EarlierIsBetter(a: Subnet, b: Subnet, kind: Kind, address: Address)
    requires a.WellFormed() && b.WellFormed() && kind != Mac && |address| == Length(kind)
    requires Matches(a, kind, address) && Matches(b, kind, address) && Clean(a.address, a.prefix)
             && Clean(b.address, b.prefix)
    requires SubnetCompare(a, b) < 0 && Comparable(a.weight, b.weight)
    ensures Better(a, b)
  {
    if a.prefix == b.prefix {
      hide Bit;
      assert SameBits(a.address, b.address, a.prefix);
      CleanEqual(a.address, b.address, a.prefix);
    }
  }

  /** In order, clean, and without weights that cannot be compared. */
  ghost predicate Orderly(s: seq<Subnet>) {
    && AllWellFormed(s) && Sorted(s)
    && (forall p <- s :: Clean(p.address, p.prefix))
    && (forall p, q | p in s && q in s :: Comparable(p.weight, q.weight))
  }

  /** The entry is clean, and its weight can be compared with those of the others. */
  ghost predicate Fitting(s: seq<Subnet>, p: Subnet)
    requires p.WellFormed()
  {
    Clean(p.address, p.prefix) && forall q <- s :: Comparable(p.weight, q.weight)
  }

  lemma ComparableSwap(p: Subnet, q: Subnet)
    ensures Comparable(p.weight, q.weight) <==> Comparable(q.weight, p.weight)
  {
  }

  /** What a lookup should find: the best match whose owner is reachable or absent, otherwise the
      last match in order of preference, and nothing only if nothing matches. */
  ghost predicate BestMatch(s: seq<Subnet>, kind: Kind, address: Address, reachable: set<Name>, r: Option<Subnet>)
    requires AllWellFormed(s) && |address| == Length(kind)
  {
    && (r.None? <==> forall p <- s :: !Matches(p, kind, address))
    && (r.Some? ==> r.value in s && r.value.WellFormed() && Matches(r.value, kind, address))
    && (r.Some? && Alive(r.value, reachable) ==>
          forall p <- s | Matches(p, kind, address) && Alive(p, reachable) && p != r.value :: Better(r.value, p))
    && (r.Some? && !Alive(r.value, reachable) ==>
          forall p <- s | Matches(p, kind, address) :: !Alive(p, reachable) && (p != r.value ==> Better(p, r.value)))
  }

  /** The scan is longest-prefix match. */
  lemma LongestPrefixMatch(s: seq<Subnet>, kind: Kind, address: Address, reachable: set<Name>)
    requires AllWellFormed(s) && Orderly(s) && kind != Mac && |address| == Length(kind)
    ensures BestMatch(s, kind, address, reachable, Scan(s, kind, address, reachable))
  {
    hide Orderly, Scan, Matches, Alive, Better, Clean;
    var r := Scan(s, kind, address, reachable);
    var i := ScanMeans(s, kind, address, reachable);
    forall j, k | 0 <= j < k < |s| && Matches(s[j], kind, address) && Matches(s[k], kind, address)
      ensures Better(s[j], s[k])
    {
      Preferred(s, kind, address, j, k);
    }
  }

  lemma Preferred(s: seq<Subnet>, kind: Kind, address: Address, j: nat, k: nat)
    requires AllWellFormed(s) && Orderly(s) && kind != Mac && |address| == Length(kind) && j < k < |s|
    requires Matches(s[j], kind, address) && Matches(s[k], kind, address)
    ensures Better(s[j], s[k])
  {
    hide Matches, Better, Clean, SubnetCompare, Clash;
    assert s[j] in s && s[k] in s;
    assert s[j] in s && s[k] in s;
    EarlierIsBetter(s[j], s[k], kind, address);
  }

  /** subnetcheck. */
  method SubnetCheck(p: Subnet) returns (ok: bool)
    requires p.WellFormed()
    ensures ok <==> (p.kind != Mac ==> Clean(p.address, p.prefix))
  {
    ok := true;
    if p.kind != Mac {
      ok := MaskCheck(p.address, p.prefix);
    }
  }

  /** What is known after looking at the first i entries, r being the last match so far. */
  ghost predicate ScanSoFar(s: seq<Subnet>, kind: Kind, address: Address, reachable: set<Name>, i: nat,
                            r: Option<Subnet>)
    requires AllWellFormed(s) && |address| == Length(kind) && i <= |s|
  {
    var rest := Scan(s[i..], kind, address, reachable);
    Scan(s, kind, address, reachable) == if rest.None? then r else rest
  }

  lemma ScanStep(s: seq<Subnet>, kind: Kind, address: Address, reachable: set<Name>, i: nat, r: Option<Subnet>)
    requires AllWellFormed(s) && |address| == Length(kind) && i < |s| && ScanSoFar(s, kind, address, reachable, i, r)
    ensures !Matches(s[i], kind, address) ==> ScanSoFar(s, kind, address, reachable, i + 1, r)
    ensures Matches(s[i], kind, address) && !Alive(s[i], reachable) ==>
              ScanSoFar(s, kind, address, reachable, i + 1, Some(s[i]))
    ensures Matches(s[i], kind, address) && Alive(s[i], reachable) ==> Scan(s, kind, address, reachable) == Some(s[i])
  {
    assert s[i..][0] == s[i] && s[i..][1..] == s[i + 1..];
  }

  /** The loop of lookup_subnet_ipv4 and lookup_subnet_ipv6. */
  method ScanAll(s: seq<Subnet>, kind: Kind, address: Address, reachable: set<Name>) returns (r: Option<Subnet>)
    requires AllWellFormed(s) && kind != Mac && |address| == Length(kind)
    ensures r == Scan(s, kind, address, reachable)
  {
    hide Scan, ScanSoFar;
    r := None;
    ScanStart(s, kind, address, reachable);
    for i := 0 to |s|
      invariant ScanSoFar(s, kind, address, reachable, i, r)
    {
      var p := s[i];
      ScanStep(s, kind, address, reachable, i, r);
      if p.kind != kind {
        continue;
      }
      var c := MaskCmp(address, p.address, p.prefix);
      if c == 0 {
        r := Some(p);
        if Alive(p, reachable) {
          return;
        }
      }
    }
    ScanEnd(s, kind, address, reachable, r);
  }

  lemma ScanStart(s: seq<Subnet>, kind: Kind, address: Address, reachable: set<Name>)
    requires AllWellFormed(s) && |address| == Length(kind)
    ensures ScanSoFar(s, kind, address, reachable, 0, None)
  {
    assert s[0..] == s;
  }

  lemma ScanEnd(s: seq<Subnet>, kind: Kind, address: Address, reachable: set<Name>, r: Option<Subnet>)
    requires AllWellFormed(s) && |address| == Length(kind) && ScanSoFar(s, kind, address, reachable, |s|, r)
    ensures r == Scan(s, kind, address, reachable)
  {
  }

  /** An entry that does not hold the address does not change what is found. */
  lemma {:induction false} ScanWithout(s: seq<Subnet>, i: nat, p: Subnet, kind: Kind, address: Address,
                                       reachable: set<Name>)
    requires AllWellFormed(s) && p.WellFormed() && i <= |s| && |address| == Length(kind) && !Matches(p, kind, address)
    ensures AllWellFormed(s[..i] + [p] + s[i..])
    ensures Scan(s[..i] + [p] + s[i..], kind, address, reachable) == Scan(s, kind, address, reachable)
  {
    var t := s[..i] + [p] + s[i..];
    if i == 0 {
      assert t[1..] == s;
    } else {
      ScanWithout(s[1..], i - 1, p, kind, address, reachable);
      assert t[0] == s[0] && t[1..] == s[1..][..i - 1] + [p] + s[1..][i - 1..];
    }
  }

  /** A subnet of a single address holds no other. */
  lemma SingleAddress(p: Subnet, address: Address)
    requires p.WellFormed() && p.kind != Mac && p.prefix == 8 * Length(p.kind) && |address| == Length(p.kind)
    ensures Matches(p, p.kind, address) <==> address == p.address
  {
    if Matches(p, p.kind, address) {
      AddressBits(address, p.address);
    }
  }
}
