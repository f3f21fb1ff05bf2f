/** The subnet table of src/subnet.c: the tree of all subnets, and a cache of lookups for each
    kind of address. */
module SubnetTables {
  import opened Common
  import opened Names
  import opened Masks
  import opened Subnets
  import opened HashCaches

  /** Every answer the cache has is the answer of the scan. */
  ghost predicate Agrees(cache: HashCache<Address, Subnet>, s: seq<Subnet>, kind: Kind, reachable: set<Name>)
    requires cache.Valid() && AllWellFormed(s)
    reads cache.keys, cache.values
  {
    forall a: Address | cache.At(a).Some? :: |a| == Length(kind) && cache.At(a) == Scan(s, kind, a, reachable)
  }

  /** splay_insert on the tree, by the order of the entries: nothing happens if there is an equal one. */
  method TreeInsert(s: seq<Subnet>, p: Subnet) returns (t: seq<Subnet>, ghost i: nat)
    requires AllWellFormed(s) && p.WellFormed()
    ensures AllWellFormed(t) && i <= |s|
    ensures t == s || t == s[..i] + [p] + s[i..]
    ensures t == s ==> exists q <- s :: q == p || Clash(p, q)
    ensures Orderly(s) && Fitting(s, p) ==> Orderly(t) && (t == s <==> exists q <- s :: q == p || Clash(p, q))
  {
    hide Orderly, Fitting, SubnetCompare;
    i := 0;
    var j := 0;
    while j < |s| && SubnetCompare(p, s[j]) > 0
      invariant 0 <= j <= |s| && i == j
      invariant forall k | 0 <= k < j :: SubnetCompare(p, s[k]) > 0
    {
      j := j + 1;
      i := j;
    }
    if j < |s| && SubnetCompare(p, s[j]) == 0 {
      SubnetCompareZero(p, s[j]);
      assert s[j] in s;
      return s, j;
    }
    t := s[..j] + [p] + s[j..];
    if Orderly(s) && Fitting(s, p) {
      InsertOrderly(s, j, p);
      NoneEqual(s, j, p);
    }
  }

  /** Along an orderly table an entry comes after some, is equal to some and comes before the rest, so
      that any search tree over it finds an equal one if there is one. */
  lemma SignsFall(s: seq<Subnet>, p: Subnet, i: nat, k: nat)
    requires Orderly(s) && p.WellFormed() && Fitting(s, p) && i < k < |s|
    ensures SubnetCompare(p, s[i]) <= 0 ==> SubnetCompare(p, s[k]) <= 0
    ensures SubnetCompare(p, s[i]) < 0 ==> SubnetCompare(p, s[k]) < 0
  {
    hide SubnetCompare, Clean;
    assert s[i] in s && s[k] in s;
    if SubnetCompare(p, s[i]) < 0 {
      SubnetCompareTransitive(p, s[i], s[k]);
    } else if SubnetCompare(p, s[i]) == 0 {
      SubnetCompareZero(s[i], s[k]);
      SubnetCompareExactly(p, s[i], s[k]);
    }
  }

  lemma InsertOrderly(s: seq<Subnet>, i: nat, p: Subnet)
    requires Orderly(s) && p.WellFormed() && i <= |s| && Fitting(s, p)
    requires forall k | 0 <= k < i :: SubnetCompare(p, s[k]) > 0
    requires i < |s| ==> SubnetCompare(p, s[i]) < 0
    ensures Orderly(s[..i] + [p] + s[i..])
  {
    InsertSorted(s, i, p);
    InsertedMembers(s, i, p);
    hide SubnetCompare, Clean, Sorted, AllWellFormed;
    forall q <- s {
      ComparableSwap(p, q);
    }
    var t := s[..i] + [p] + s[i..];
    assert forall q <- t :: q == p || q in s;
  }

  lemma InsertedMembers(s: seq<Subnet>, i: nat, p: Subnet)
    requires i <= |s|
    ensures forall q <- s[..i] + [p] + s[i..] :: q == p || q in s
  {
  }

  lemma NoneEqual(s: seq<Subnet>, i: nat, p: Subnet)
    requires Orderly(s) && p.WellFormed() && Fitting(s, p) && i <= |s|
    requires forall k | 0 <= k < i :: SubnetCompare(p, s[k]) > 0
    requires i < |s| ==> SubnetCompare(p, s[i]) < 0
    ensures forall q <- s :: q != p && !Clash(p, q)
  {
    hide SubnetCompare, Clean, Clash, Fitting;
    forall k | 0 <= k < |s|
      ensures s[k] != p && !Clash(p, s[k])
    {
      SubnetCompareZero(p, s[k]);
      if i < k {
        SignsFall(s, p, i, k);
      }
    }
  }

  lemma InsertSorted(s: seq<Subnet>, i: nat, p: Subnet)
    requires Orderly(s) && p.WellFormed() && Fitting(s, p) && i <= |s|
    requires forall k | 0 <= k < i :: SubnetCompare(p, s[k]) > 0
    requires i < |s| ==> SubnetCompare(p, s[i]) < 0
    ensures AllWellFormed(s[..i] + [p] + s[i..]) && Sorted(s[..i] + [p] + s[i..])
  {
    hide SubnetCompare, Clean;
    forall k | 0 <= k < |s|
      ensures k < i ==> SubnetCompare(s[k], p) < 0
      ensures i <= k ==> SubnetCompare(p, s[k]) < 0
    {
      assert s[k] in s;
      SubnetCompareAntisymmetric(p, s[k]);
      if i < k {
        SignsFall(s, p, i, k);
      }
    }
  }

  /** splay_delete on the tree: remove the equal entry, if there is one. */
  method TreeDelete(s: seq<Subnet>, p: Subnet) returns (t: seq<Subnet>, ghost i: nat)
    requires AllWellFormed(s) && p.WellFormed()
    ensures AllWellFormed(t)
    ensures t == s ==> forall q <- s :: q != p && !Clash(p, q)
    ensures t != s ==> i < |s| && (s[i] == p || Clash(p, s[i])) && t == s[..i] + s[i + 1..]
    ensures Orderly(s) ==> Orderly(t)
  {
    i := 0;
    var j := 0;
    while j < |s| && SubnetCompare(p, s[j]) != 0
      invariant 0 <= j <= |s|
      invariant forall k | 0 <= k < j :: SubnetCompare(p, s[k]) != 0
    {
      j := j + 1;
    }
    forall q <- s {
      SubnetCompareZero(p, q);
    }
    if j == |s| {
      return s, 0;
    }
    assert s[j] in s;
    t, i := s[..j] + s[j + 1..], j;
  }

  /** A subnet of this kind holds one address only. */
  predicate Single(p: Subnet) {
    p.kind != Mac && p.prefix == 8 * Length(p.kind)
  }

  /** Adding or removing such a subnet changes no lookup of another address, nor of another kind. */
  lemma OtherLookups(s: seq<Subnet>, t: seq<Subnet>, i: nat, p: Subnet, kind: Kind, address: Address,
                     reachable: set<Name>)
    requires AllWellFormed(s) && AllWellFormed(t) && p.WellFormed() && |address| == Length(kind)
    requires t == s || (i <= |s| && t == s[..i] + [p] + s[i..]) || (i <= |t| && s == t[..i] + [p] + t[i..])
    requires p.kind != kind || (Single(p) && address != p.address)
    ensures Scan(t, kind, address, reachable) == Scan(s, kind, address, reachable)
  {
    if p.kind == kind {
      SingleAddress(p, address);
    }
    if i <= |s| && t == s[..i] + [p] + s[i..] {
      ScanWithout(s, i, p, kind, address, reachable);
    } else if i <= |t| && s == t[..i] + [p] + t[i..] {
      ScanWithout(t, i, p, kind, address, reachable);
    }
  }

  class SubnetTable {
    /** The subnet tree, in order. */
    var subnets: seq<Subnet>
    /** The nodes whose status.reachable is set. */
    var reachable: set<Name>
    const ipv4: HashCache<Address, Subnet>
    const ipv6: HashCache<Address, Subnet>

    ghost function Arrays(): set<object> {
      {ipv4.keys, ipv4.values, ipv6.keys, ipv6.values}
    }

    ghost predicate Apart() {
      ipv4.keys != ipv6.keys && ipv4.values != ipv6.values
    }

    ghost predicate Valid()
      reads this, Arrays()
    {
      && ipv4.Valid() && ipv6.Valid() && Apart()
      && AllWellFormed(subnets)
      && Agrees(ipv4, subnets, Ipv4, reachable) && Agrees(ipv6, subnets, Ipv6, reachable)
    }

    /** init_subnets: an empty table; the hash functions are the caller's. */
    constructor (n: nat, hash4: Address -> nat, hash6: Address -> nat)
      requires ITERATIONS <= n
      ensures Valid() && Orderly(subnets) && subnets == [] && reachable == {} && fresh(Arrays())
    {
      hide Scan, Clash, SubnetCompare, HashCache.Valid, HashCache.At, HashCache.View;
      var cache4 := new HashCache(n, hash4, [0, 0, 0, 0]);
      var cache6 := new HashCache(n, hash6, [0, 0, 0, 0, 0, 0, 0, 0, 0, 0, 0, 0, 0, 0, 0, 0]);
      subnets, reachable, ipv4, ipv6 := [], {}, cache4, cache6;
    }

    /** lookup_subnet_ipv4: the cached answer is the answer of the scan. */
    method LookupIpv4(address: Address) returns (r: Option<Subnet>)
      requires Valid() && |address| == Length(Ipv4)
      modifies ipv4.keys, ipv4.values
      ensures Valid() && r == Scan(subnets, Ipv4, address, reachable)
      ensures Orderly(subnets) ==> BestMatch(subnets, Ipv4, address, reachable, r)
      ensures ipv4.At(address) == r
    {
      hide Orderly, BestMatch, Scan, Clash, SubnetCompare, HashCache.Valid, HashCache.At, HashCache.View;
      if Orderly(subnets) {
        LongestPrefixMatch(subnets, Ipv4, address, reachable);
      }
      r := ipv4.Search(address);
      if r.Some? {
        return;
      }
      r := ScanAll(subnets, Ipv4, address, reachable);
      if r.Some? {
        ghost var gone, p := ipv4.Insert(address, r.value);
      }
    }

    /** lookup_subnet_ipv6. */
    method LookupIpv6(address: Address) returns (r: Option<Subnet>)
      requires Valid() && |address| == Length(Ipv6)
      modifies ipv6.keys, ipv6.values
      ensures Valid() && r == Scan(subnets, Ipv6, address, reachable)
      ensures Orderly(subnets) ==> BestMatch(subnets, Ipv6, address, reachable, r)
      ensures ipv6.At(address) == r
    {
      hide Orderly, BestMatch, Scan, Clash, SubnetCompare, HashCache.Valid, HashCache.At, HashCache.View;
      if Orderly(subnets) {
        LongestPrefixMatch(subnets, Ipv6, address, reachable);
      }
      r := ipv6.Search(address);
      if r.Some? {
        return;
      }
      r := ScanAll(subnets, Ipv6, address, reachable);
      if r.Some? {
        ghost var gone, p := ipv6.Insert(address, r.value);
      }
    }

    /** subnet_cache_flush_tables. */
    method FlushTables()
      requires ipv4.Valid() && ipv6.Valid() && Apart() && AllWellFormed(subnets)
      modifies Arrays()
      ensures Valid() && forall a :: ipv4.At(a) == None && ipv6.At(a) == None
    {
      hide Scan, Clash, SubnetCompare, HashCache.Valid, HashCache.At, HashCache.View;
      ipv4.Clear();
      ipv6.Clear();
    }

    /** What graph() does here: reachability changes after both caches are emptied. */
    method Graph(now: set<Name>)
      requires Valid()
      modifies this`reachable, Arrays()
      ensures Valid() && reachable == now
    {
      FlushTables();
      reachable := now;
    }

    /** subnet_cache_flush. */
    method Flush(p: Subnet, ghost s: seq<Subnet>, ghost i: nat, ghost q: Subnet)
      requires ipv4.Valid() && ipv6.Valid() && Apart() && AllWellFormed(subnets) && AllWellFormed(s)
      requires Agrees(ipv4, s, Ipv4, reachable) && Agrees(ipv6, s, Ipv6, reachable)
      requires p.WellFormed() && q.WellFormed() && q.kind == p.kind && q.prefix == p.prefix && q.address == p.address
      requires subnets == s || (i <= |s| && subnets == s[..i] + [q] + s[i..])
               || (i <= |subnets| && s == subnets[..i] + [q] + subnets[i..])
      modifies Arrays()
      ensures Valid()
      ensures p.kind != Ipv4 ==> forall a :: ipv4.At(a) == old(ipv4.At(a))
      ensures p.kind != Ipv6 ==> forall a :: ipv6.At(a) == old(ipv6.At(a))
      ensures Single(p) ==>
                forall a | a != p.address :: ipv4.At(a) == old(ipv4.At(a)) && ipv6.At(a) == old(ipv6.At(a))
    {
      hide Scan, Clash, SubnetCompare, HashCache.Valid, HashCache.At, HashCache.View;
      forall kind: Kind, a: Address | |a| == Length(kind) && (p.kind != kind || (Single(p) && a != p.address)) {
        OtherLookups(s, subnets, i, q, kind, a, reachable);
      }
      match p.kind {
        case Ipv4 =>
          if p.prefix == 32 {
            ipv4.Delete(p.address);
            return;
          }
        case Ipv6 =>
          if p.prefix == 128 {
            ipv6.Delete(p.address);
            return;
          }
        case Mac =>
          return;
      }
      if p.kind != Ipv6 {
        ipv4.Clear();
      }
      if p.kind != Ipv4 {
        ipv6.Clear();
      }
    }

    /** subnet_add. */
    method Add(owner: Option<Name>, subnet: Subnet)
      requires Valid() && subnet.WellFormed()
      modifies this`subnets, Arrays()
      ensures Valid()
      ensures var p := subnet.(owner := owner);
              && (subnets == old(subnets) ==> exists q <- subnets :: q == p || Clash(p, q))
              && (subnets != old(subnets) ==>
                    exists i | 0 <= i <= |old(subnets)| :: subnets == old(subnets)[..i] + [p] + old(subnets)[i..])
              && (old(Orderly(subnets)) && Fitting(old(subnets), p) ==>
                    Orderly(subnets)
                      && (subnets == old(subnets) <==> exists q <- old(subnets) :: q == p || Clash(p, q)))
    {
      hide Orderly, Fitting, Scan, Clash, SubnetCompare, Agrees, HashCache.Valid, HashCache.At, HashCache.View;
      var p := subnet.(owner := owner);
      ghost var i;
      ghost var s := subnets;
      subnets, i := TreeInsert(subnets, p);
      Flush(p, s, i, p);
    }

    /** subnet_del. */
    method Del(p: Subnet)
      requires Valid() && p.WellFormed()
      modifies this`subnets, Arrays()
      ensures Valid()
      ensures old(Orderly(subnets)) ==> Orderly(subnets)
      ensures subnets == old(subnets) ==> forall q <- subnets :: q != p && !Clash(p, q)
      ensures subnets != old(subnets) ==>
                exists i | 0 <= i < |old(subnets)| ::
                    (old(subnets)[i] == p || Clash(p, old(subnets)[i]))
                      && subnets == old(subnets)[..i] + old(subnets)[i + 1..]
    {
      hide Orderly, Scan, SubnetCompare, Agrees, HashCache.Valid, HashCache.At, HashCache.View;
      ghost var i;
      ghost var s := subnets;
      subnets, i := TreeDelete(subnets, p);
      ghost var q := if subnets == s then p else s[i];
      assert subnets == s || s == subnets[..i] + [q] + subnets[i..];
      Flush(p, s, i, q);
    }
  }
}
