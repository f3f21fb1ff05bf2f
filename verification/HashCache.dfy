/** The lossy hash table of src/hash.h: four probes, the last slot overwritten. */
module HashCaches {
  import opened Common

  const ITERATIONS: nat := 4

  /** For a table whose size is a power of two, masking the hash is taking its remainder. */
  lemma MaskIsModulo(h: bv32)
    ensures h & 0xffff == h % 0x10000 && h & 0xfff == h % 0x1000
  {
  }

  /** The slot `f` probes after slot `i`, wrapping at the end of the table. */
  function Nth(n: nat, i: nat, f: nat): (j: nat)
    requires i < n && f < ITERATIONS <= n
    ensures j < n
  {
    if i + f < n then i + f else i + f - n
  }

  lemma NthDistinct(n: nat, i: nat, f: nat, g: nat)
    requires i < n && f < g < ITERATIONS <= n
    ensures Nth(n, i, f) != Nth(n, i, g)
  {
  }

  /** A table: what each slot holds, and where each key starts probing. */
  datatype Table<!K, V> = Table(keys: seq<K>, values: seq<Option<V>>, home: K -> nat) {
    ghost predicate Sized() {
      ITERATIONS <= |keys| == |values|
    }

    /** Where key `k` starts. */
    ghost function Start(k: K): (i: nat)
      requires Sized()
      ensures i < |keys|
    {
      home(k) % |keys|
    }

    ghost function Slot(k: K, f: nat): (i: nat)
      requires Sized() && f < ITERATIONS
      ensures i < |keys|
    {
      Nth(|keys|, Start(k), f)
    }

    /** None of the first f probes finds the key. */
    ghost predicate Misses(k: K, f: nat)
      requires Sized() && f <= ITERATIONS
    {
      forall g | 0 <= g < f :: keys[Slot(k, g)] != k
    }

    /** The key is first found at probe f. */
    ghost predicate FirstAt(k: K, f: nat)
      requires Sized()
    {
      f < ITERATIONS && Misses(k, f) && keys[Slot(k, f)] == k
    }

    /** What the probes from f on find. */
    ghost function Probe(k: K, f: nat): Option<V>
      requires Sized() && f <= ITERATIONS
      decreases ITERATIONS - f
    {
      if f == ITERATIONS then None
      else if keys[Slot(k, f)] == k then values[Slot(k, f)]
      else Probe(k, f + 1)
    }

    /** What the table says about a key. */
    ghost function At(k: K): Option<V>
      requires Sized()
    {
      Probe(k, 0)
    }

    /** A slot that holds a value is where its key is first found. */
    ghost predicate Valid() {
      Sized() && forall i | 0 <= i < |keys| && values[i].Some? :: Found(i)
    }

    ghost predicate Found(i: nat)
      requires Sized() && i < |keys|
    {
      exists f: nat :: FirstAt(keys[i], f) && Slot(keys[i], f) == i
    }

    /** The key has a value, and a slot probed earlier has none. */
    ghost predicate Behind(k: K)
      requires Sized()
    {
      exists f: nat, g: nat :: f < g && FirstAt(k, g) && values[Slot(k, g)].Some? && values[Slot(k, f)] == None
    }

    /** Probe p is where a key is stored: the first of three whose slot has no value or holds the key,
        or else the fourth. */
    ghost predicate StoredAt(k: K, p: nat)
      requires Sized()
    {
      && p < ITERATIONS && Misses(k, p) && (forall f: nat | f < p :: values[Slot(k, f)].Some?)
      && (p == ITERATIONS - 1 || values[Slot(k, p)] == None || keys[Slot(k, p)] == k)
    }

    /** One of the first three probes finds a slot without a value, or the key. */
    ghost predicate Room(k: K)
      requires Sized()
    {
      exists f: nat :: f < 3 && (values[Slot(k, f)] == None || keys[Slot(k, f)] == k)
    }

    ghost function Put(i: nat, k: K, v: Option<V>): Table<K, V>
      requires Sized() && i < |keys|
    {
      this.(keys := keys[i := k], values := values[i := v])
    }
  }

  /** Changing one slot to hold something else than `k` does not make a probe find `k`. */
  lemma StillMisses<K, V>(t: Table<K, V>, i: nat, x: K, v: Option<V>, k: K, f: nat)
    requires t.Sized() && i < |t.keys| && x != k && f <= ITERATIONS && t.Misses(k, f)
    ensures t.Put(i, x, v).Sized() && t.Put(i, x, v).Misses(k, f)
  {
    forall g | 0 <= g < f
      ensures t.Put(i, x, v).keys[t.Put(i, x, v).Slot(k, g)] != k
    {
      SameSlot(t, i, x, v, k, g);
    }
  }

  lemma SameSlot<K, V>(t: Table<K, V>, i: nat, x: K, v: Option<V>, k: K, f: nat)
    requires t.Sized() && i < |t.keys| && f < ITERATIONS
    ensures t.Put(i, x, v).Sized() && t.Put(i, x, v).Slot(k, f) == t.Slot(k, f)
  {
  }

  /** A match elsewhere stays the first one. */
  lemma StillFirst<K, V>(t: Table<K, V>, i: nat, x: K, v: Option<V>, k: K, f: nat)
    requires t.Sized() && i < |t.keys| && x != k && t.FirstAt(k, f) && t.Slot(k, f) != i
    ensures var t' := t.Put(i, x, v);
            t'.Sized() && t'.FirstAt(k, f) && t'.Slot(k, f) == t.Slot(k, f)
            && t'.values[t'.Slot(k, f)] == t.values[t.Slot(k, f)]
  {
    StillMisses(t, i, x, v, k, f);
    SameSlot(t, i, x, v, k, f);
  }

  lemma {:induction false} MissesProbe<K, V>(t: Table<K, V>, k: K, f: nat, g: nat)
    requires t.Sized() && g <= f <= ITERATIONS && t.Misses(k, f)
    ensures t.Probe(k, g) == t.Probe(k, f)
    decreases f - g
  {
    if g < f {
      MissesProbe(t, k, f, g + 1);
    }
  }

  lemma FirstFound<K, V>(t: Table<K, V>, k: K, f: nat)
    requires t.Sized() && t.FirstAt(k, f)
    ensures t.At(k) == t.values[t.Slot(k, f)]
  {
    MissesProbe(t, k, f, 0);
  }

  lemma NotFound<K, V>(t: Table<K, V>, k: K)
    requires t.Sized() && t.Misses(k, ITERATIONS)
    ensures t.At(k) == None
  {
    MissesProbe(t, k, ITERATIONS, 0);
  }

  /** A key the table knows nothing about holds no value anywhere. */
  lemma NoValue<K, V>(t: Table<K, V>, k: K, i: nat)
    requires t.Valid() && t.At(k) == None && i < |t.keys| && t.keys[i] == k
    ensures t.values[i] == None
  {
    if t.values[i].Some? {
      assert t.Found(i);
      var f: nat :| t.FirstAt(t.keys[i], f) && t.Slot(t.keys[i], f) == i;
      FirstFound(t, k, f);
    }
  }

  /** Either no probe finds the key or there is a first one that does. */
  lemma FindFirst<K, V>(t: Table<K, V>, k: K) returns (f: nat)
    requires t.Sized()
    ensures f <= ITERATIONS && t.Misses(k, f) && (f < ITERATIONS ==> t.FirstAt(k, f))
  {
    f := 0;
    while f < ITERATIONS && t.keys[t.Slot(k, f)] != k
      invariant f <= ITERATIONS && t.Misses(k, f)
    {
      f := f + 1;
    }
  }

  /** Writing a slot for a key that no earlier probe finds. */
  lemma PutFound<K, V>(t: Table<K, V>, k: K, f: nat, v: V)
    requires t.Valid() && f < ITERATIONS && t.Misses(k, f)
    ensures var t' := t.Put(t.Slot(k, f), k, Some(v));
            t'.Sized() && t'.FirstAt(k, f) && t'.At(k) == Some(v)
  {
    var t' := t.Put(t.Slot(k, f), k, Some(v));
    assert forall x :: t'.Start(x) == t.Start(x);
    forall g | 0 <= g < f
      ensures t'.keys[t'.Slot(k, g)] != k
    {
      assert t.keys[t.Slot(k, g)] != k;
      NthDistinct(|t.keys|, t.Start(k), g, f);
    }
    FirstFound(t', k, f);
  }

  /** What storing a key does to another one: nothing, or it is forgotten. */
  lemma PutOther<K, V>(t: Table<K, V>, k: K, f: nat, v: V, other: K)
    requires t.Valid() && f < ITERATIONS && t.Misses(k, f) && other != k
    ensures var i := t.Slot(k, f);
            var t' := t.Put(i, k, Some(v));
            && t'.Sized() && (t'.At(other) == t.At(other) || (t'.At(other) == None && other == t.keys[i]))
  {
    var i := t.Slot(k, f);
    var t' := t.Put(i, k, Some(v));
    var g := FindFirst(t, other);
    StillMisses(t, i, k, Some(v), other, g);
    if g == ITERATIONS {
      NotFound(t, other);
      NotFound(t', other);
    } else if t.Slot(other, g) != i {
      FirstFound(t, other, g);
      StillFirst(t, i, k, Some(v), other, g);
      FirstFound(t', other, g);
    } else {
      var h := FindFirst(t', other);
      if h == ITERATIONS {
        NotFound(t', other);
      } else {
        FirstFound(t', other, h);
        SameSlot(t, i, k, Some(v), other, h);
        Shadowed(t, other, g, h);
      }
    }
  }

  /** Storing a key in a slot without a value, or in its own, does nothing to the others. */
  lemma PutFree<K, V>(t: Table<K, V>, k: K, f: nat, v: V, other: K)
    requires t.Valid() && f < ITERATIONS && t.Misses(k, f) && other != k
    requires t.values[t.Slot(k, f)] == None || t.keys[t.Slot(k, f)] == k
    ensures t.Put(t.Slot(k, f), k, Some(v)).Sized() && t.Put(t.Slot(k, f), k, Some(v)).At(other) == t.At(other)
  {
    var i := t.Slot(k, f);
    PutOther(t, k, f, v, other);
    var g := FindFirst(t, other);
    if g == ITERATIONS {
      NotFound(t, other);
    } else {
      FirstFound(t, other, g);
      if t.Slot(other, g) != i {
        StillFirst(t, i, k, Some(v), other, g);
        FirstFound(t.Put(i, k, Some(v)), other, g);
      }
    }
  }

  lemma OthersAfter<K(!new), V>(t: Table<K, V>, k: K, p: nat, v: V)
    requires t.Valid() && t.StoredAt(k, p)
    ensures var t' := t.Put(t.Slot(k, p), k, Some(v));
            && t'.Sized()
            && (forall other | other != k ::
                  t'.At(other) == t.At(other) || (t'.At(other) == None && other == t.keys[t.Slot(k, p)]))
            && (t.Room(k) ==> forall other | other != k :: t'.At(other) == t.At(other))
  {
    hide Table.At, Table.Put;
    var t' := t.Put(t.Slot(k, p), k, Some(v));
    assert t.Room(k) ==> t.values[t.Slot(k, p)] == None || t.keys[t.Slot(k, p)] == k;
    forall other | other != k
      ensures t'.Sized() && (t'.At(other) == t.At(other) || (t'.At(other) == None && other == t.keys[t.Slot(k, p)]))
      ensures t.Room(k) ==> t'.Sized() && t'.At(other) == t.At(other)
    {
      PutOther(t, k, p, v, other);
      if t.Room(k) {
        PutFree(t, k, p, v, other);
      }
    }
    PutFound(t, k, p, v);
  }

  /** Beyond the first match of a key there is no value for it. */
  lemma Shadowed<K, V>(t: Table<K, V>, k: K, g: nat, h: nat)
    requires t.Valid() && t.FirstAt(k, g) && h < ITERATIONS && t.keys[t.Slot(k, h)] == k && h != g
    ensures t.values[t.Slot(k, h)] == None
  {
    var i := t.Slot(k, h);
    if t.values[i].Some? {
      assert t.Found(i);
      var f: nat :| t.FirstAt(t.keys[i], f) && t.Slot(t.keys[i], f) == i;
      assert f == g < h;
      NthDistinct(|t.keys|, t.Start(k), g, h);
    }
  }

  lemma PutValid<K, V>(t: Table<K, V>, k: K, f: nat, v: V)
    requires t.Valid() && f < ITERATIONS && t.Misses(k, f) && (t.At(k) == None || t.FirstAt(k, f))
    ensures t.Put(t.Slot(k, f), k, Some(v)).Valid()
  {
    var i := t.Slot(k, f);
    var t' := t.Put(i, k, Some(v));
    PutFound(t, k, f, v);
    SameSlot(t, i, k, Some(v), k, f);
    forall j | 0 <= j < |t'.keys| && t'.values[j].Some?
      ensures t'.Found(j)
    {
      if j == i {
        assert t'.FirstAt(t'.keys[i], f);
      } else {
        StaysFound(t, i, k, Some(v), j);
      }
    }
  }

  /** Storing a key in front of a slot that has a value for it leaves that value behind. */
  lemma PutStale<K, V>(t: Table<K, V>, k: K, f: nat, g: nat, v: V)
    requires t.Sized() && f < g && t.FirstAt(k, g) && t.values[t.Slot(k, g)].Some?
    ensures !t.Put(t.Slot(k, f), k, Some(v)).Valid()
  {
    var i, j := t.Slot(k, f), t.Slot(k, g);
    var t' := t.Put(i, k, Some(v));
    NthDistinct(|t.keys|, t.Start(k), f, g);
    SameSlot(t, i, k, Some(v), k, f);
    SameSlot(t, i, k, Some(v), k, g);
    assert t'.keys[i] == k && t'.keys[j] == k && t'.values[j].Some?;
    forall h: nat | t'.FirstAt(k, h)
      ensures t'.Slot(k, h) != j
    {
      assert h <= f;
      SameSlot(t, i, k, Some(v), k, h);
      NthDistinct(|t.keys|, t.Start(k), h, g);
    }
    assert !t'.Found(j);
  }

  /** After storing a key the table is as good as before exactly if the key had no value behind an
      emptied slot. */
  lemma StoredRight<K, V>(t: Table<K, V>, k: K, p: nat, v: V)
    requires t.Valid() && t.StoredAt(k, p)
    ensures t.Put(t.Slot(k, p), k, Some(v)).Valid() <==> !t.Behind(k)
  {
    if t.FirstAt(k, p) || t.At(k) == None {
      PutValid(t, k, p, v);
      if t.Behind(k) {
        var f: nat, g: nat :| f < g && t.FirstAt(k, g) && t.values[t.Slot(k, g)].Some?
          && t.values[t.Slot(k, f)] == None;
        FirstFound(t, k, g);
        assert false;
      }
    } else {
      var g := FindFirst(t, k);
      if g == ITERATIONS {
        NotFound(t, k);
        assert false;
      }
      FirstFound(t, k, g);
      assert p < g;
      PutStale(t, k, p, g, v);
    }
  }

  lemma StaysFound<K, V>(t: Table<K, V>, i: nat, k: K, v: Option<V>, j: nat)
    requires t.Valid() && i < |t.keys| && (t.At(k) == None || t.keys[i] == k) && j < |t.keys| && j != i
             && t.values[j].Some?
    ensures t.Put(i, k, v).Sized() && t.Put(i, k, v).Found(j)
  {
    assert t.Found(j);
    var g: nat :| t.FirstAt(t.keys[j], g) && t.Slot(t.keys[j], g) == j;
    var t' := t.Put(i, k, v);
    if t.keys[i] == k {
      assert t'.keys == t.keys;
      SameSlots(t, t', t.keys[j], g);
    } else {
      if t.keys[j] == k {
        NoValue(t, k, j);
      }
      StillFirst(t, i, k, v, t.keys[j], g);
    }
    assert t'.FirstAt(t'.keys[j], g) && t'.Slot(t'.keys[j], g) == j;
  }

  /** With the same keys, the same probe finds a key first. */
  lemma SameSlots<K, V>(t: Table<K, V>, t': Table<K, V>, k: K, f: nat)
    requires t.Sized() && t'.Sized() && t'.keys == t.keys && t'.home == t.home && f <= ITERATIONS
    ensures t'.Misses(k, f) == t.Misses(k, f)
    ensures f < ITERATIONS ==> t'.Slot(k, f) == t.Slot(k, f) && t'.FirstAt(k, f) == t.FirstAt(k, f)
  {
    assert forall g | 0 <= g < ITERATIONS :: t'.Slot(k, g) == t.Slot(k, g);
  }

  /** Emptying the slot where a key is first found forgets that key and no other. */
  lemma Emptied<K, V>(t: Table<K, V>, k: K, f: nat, other: K)
    requires t.Valid() && t.FirstAt(k, f)
    ensures var t' := t.Put(t.Slot(k, f), k, None);
            t'.Valid() && t'.At(k) == None && (other != k ==> t'.At(other) == t.At(other))
  {
    var i := t.Slot(k, f);
    var t' := t.Put(i, k, None);
    assert t'.keys == t.keys;
    SameSlots(t, t', k, f);
    FirstFound(t', k, f);
    forall j | 0 <= j < |t'.keys| && t'.values[j].Some?
      ensures t'.Found(j)
    {
      StaysFound(t, i, k, None, j);
    }
    if other != k {
      EmptiedOther(t, t', i, other);
    }
  }

  lemma EmptiedOther<K, V>(t: Table<K, V>, t': Table<K, V>, i: nat, other: K)
    requires t.Sized() && t'.Sized() && t'.keys == t.keys && t'.home == t.home && i < |t.keys| && t.keys[i] != other
    requires forall j | 0 <= j < |t.keys| && j != i :: t'.values[j] == t.values[j]
    ensures t'.At(other) == t.At(other)
  {
    var g := FindFirst(t, other);
    SameSlots(t, t', other, g);
    if g == ITERATIONS {
      NotFound(t, other);
      NotFound(t', other);
    } else {
      FirstFound(t, other, g);
      FirstFound(t', other, g);
    }
  }

  lemma NotBehind<K, V>(t: Table<K, V>, k: K)
    requires t.Sized()
    ensures t.At(k) == None ==> !t.Behind(k)
  {
    if t.Behind(k) {
      var f: nat, g: nat :| f < g && t.FirstAt(k, g) && t.values[t.Slot(k, g)].Some? && t.values[t.Slot(k, f)] == None;
      FirstFound(t, k, g);
    }
  }

  /** A table without values knows no key. */
  lemma AllEmpty<K, V>(t: Table<K, V>, k: K)
    requires t.Sized() && forall i | 0 <= i < |t.values| :: t.values[i] == None
    ensures t.Valid() && t.At(k) == None
  {
    var f := FindFirst(t, k);
    if f == ITERATIONS {
      NotFound(t, k);
    } else {
      FirstFound(t, k, f);
    }
  }

  /** The table of src/hash.h for one key type. */
  class HashCache<!K(==, !new), V> {
    const keys: array<K>
    const values: array<Option<V>>
    const home: K -> nat
    const zero: K

    ghost function View(): Table<K, V>
      reads keys, values
    {
      Table(keys[..], values[..], home)
    }

    ghost predicate Valid()
      reads keys, values
    {
      keys as object != values as object && View().Valid()
    }

    /** What the cache says about a key. */
    ghost function At(k: K): Option<V>
      requires Valid()
      reads keys, values
    {
      View().At(k)
    }

    constructor (n: nat, home: K -> nat, zero: K)
      requires ITERATIONS <= n
      ensures Valid() && fresh(keys) && fresh(values) && forall k :: At(k) == None
      ensures View().home == home && |View().keys| == n && forall i | 0 <= i < n :: View().values[i] == None
    {
      this.home, this.zero := home, zero;
      keys := new K[n](_ => zero);
      values := new Option<V>[n](_ => None);
      new;
      forall k {
        AllEmpty(View(), k);
      }
    }

    /** hash_search. */
    method Search(k: K) returns (r: Option<V>)
      requires Valid()
      ensures r == At(k)
    {
      var i := home(k) % keys.Length;
      for f := 0 to ITERATIONS
        invariant f < ITERATIONS ==> i == View().Slot(k, f)
        invariant View().Misses(k, f)
      {
        if keys[i] == k {
          FirstFound(View(), k, f);
          return values[i];
        }
        i := i + 1;
        if i == keys.Length {
          i := 0;
        }
      }
      NotFound(View(), k);
      return None;
    }

    /** hash_insert: at most one other key is forgotten.  A key that was cached behind an emptied
        slot leaves its former value behind. */
    method Insert(k: K, v: V) returns (ghost gone: K, ghost p: nat)
      requires Valid()
      modifies keys, values
      ensures old(View()).StoredAt(k, p) && View() == old(View()).Put(old(View()).Slot(k, p), k, Some(v))
      ensures View().Sized() && View().At(k) == Some(v)
      ensures Valid() <==> !old(View().Behind(k))
      ensures gone == old(View()).keys[old(View()).Slot(k, p)]
      ensures old(View().Room(k)) ==> forall other | other != k :: View().At(other) == old(At(other))
      ensures forall other | other != k ::
                View().At(other) == old(At(other)) || (other == gone && View().At(other) == None)
      ensures old(At(k)) == None ==>
                && Valid() && At(k) == Some(v)
                && forall other | other != k :: At(other) == old(At(other)) || (other == gone && At(other) == None)
    {
      ghost var t := View();
      var i := home(k) % keys.Length;
      p := 0;
      for f := 0 to ITERATIONS - 1
        invariant i == t.Slot(k, f) && p == f
        invariant View() == t && t.Misses(k, f) && (forall g: nat | g < f :: t.values[t.Slot(k, g)].Some?)
      {
        if values[i] == None || keys[i] == k {
          break;
        }
        i := i + 1;
        if i == keys.Length {
          i := 0;
        }
        p := p + 1;
      }
      gone := keys[i];
      PutFound(t, k, p, v);
      StoredRight(t, k, p, v);
      NotBehind(t, k);
      OthersAfter(t, k, p, v);
      keys[i] := k;
      values[i] := Some(v);
      assert View() == t.Put(i, k, Some(v));
    }

    /** hash_delete. */
    method Delete(k: K)
      requires Valid()
      modifies values
      ensures Valid() && At(k) == None
      ensures forall other | other != k :: At(other) == old(At(other))
      ensures forall f: nat | old(View()).FirstAt(k, f) :: View() == old(View()).Put(old(View()).Slot(k, f), k, None)
    {
      ghost var t := View();
      var i := home(k) % keys.Length;
      for f := 0 to ITERATIONS
        invariant f < ITERATIONS ==> i == t.Slot(k, f)
        invariant View() == t && t.Misses(k, f)
      {
        if keys[i] == k {
          Emptied(t, k, f, k);
          forall other {
            Emptied(t, k, f, other);
          }
          values[i] := None;
          assert View() == t.Put(i, k, None);
          OnlyFirst(t, k, f);
          return;
        }
        i := i + 1;
        if i == keys.Length {
          i := 0;
        }
      }
      NotFound(t, k);
    }

    /** hash_clear. */
    method Clear()
      requires Valid()
      modifies keys, values
      ensures Valid() && forall k :: At(k) == None
    {
      for i := 0 to keys.Length
        invariant forall j | 0 <= j < i :: values[j] == None
      {
        values[i] := None;
        keys[i] := zero;
      }
      forall k {
        AllEmpty(View(), k);
      }
    }
  }

  lemma OnlyFirst<K, V>(t: Table<K, V>, k: K, f: nat)
    requires t.Sized() && t.FirstAt(k, f)
    ensures forall g: nat | t.FirstAt(k, g) :: g == f
  {
  }

  /** A run of a new cache that leaves a value behind: two keys with one home, of which the first is
      deleted before the second is inserted again. */
  method LeaveBehind<K(==, !new), V>(n: nat, home: K -> nat, zero: K, k1: K, k2: K, v: V) returns (c: HashCache<K, V>)
    requires ITERATIONS <= n && k1 != k2 && home(k1) % n == home(k2) % n
    ensures c.View().Sized() && c.View().At(k2) == Some(v) && !c.Valid()
  {
    hide HashCache.Valid, Table.Valid, Table.Probe, Table.Behind, Table.StoredAt, Table.FirstAt, Table.Misses,
         Table.Put;
    c := new HashCache(n, home, zero);
    ghost var t0 := c.View();
    ghost var gone, p1 := c.Insert(k1, v);
    ghost var t1, p2 := c.View(), 0;
    FirstSlot(t0, k1, p1, v);
    gone, p2 := c.Insert(k2, v);
    ghost var t2 := c.View();
    SecondSlot(t0, t1, k1, k2, p2, v);
    c.Delete(k1);
    EmptiedFirst(t0, t1, t2, k1, k2, v);
    gone, p1 := c.Insert(k2, v);
  }

  lemma FirstSlot<K, V>(t: Table<K, V>, k: K, p: nat, v: V)
    requires t.Sized() && t.StoredAt(k, p) && t.values[t.Slot(k, 0)] == None
    ensures p == 0
  {
  }

  lemma SecondSlot<K, V>(t: Table<K, V>, t1: Table<K, V>, k1: K, k2: K, p: nat, v: V)
    requires t.Sized() && t1 == t.Put(t.Slot(k1, 0), k1, Some(v)) && k1 != k2 && t.Start(k1) == t.Start(k2)
    requires t1.Sized() && t1.StoredAt(k2, p) && forall i | 0 <= i < |t.keys| :: t.values[i] == None
    ensures p == 1
  {
    SameSlot(t, t.Slot(k1, 0), k1, Some(v), k2, 0);
    SameSlot(t, t.Slot(k1, 0), k1, Some(v), k2, 1);
    NthDistinct(|t.keys|, t.Start(k1), 0, 1);
    assert t1.values[t1.Slot(k2, 1)] == None;
    assert t1.values[t1.Slot(k2, 0)].Some? && t1.keys[t1.Slot(k2, 0)] == k1;
  }

  lemma EmptiedFirst<K, V>(t: Table<K, V>, t1: Table<K, V>, t2: Table<K, V>, k1: K, k2: K, v: V)
    requires t.Sized() && t1 == t.Put(t.Slot(k1, 0), k1, Some(v)) && k1 != k2 && t.Start(k1) == t.Start(k2)
    requires t1.Sized() && t2 == t1.Put(t1.Slot(k2, 1), k2, Some(v))
    ensures t2.Sized() && t2.FirstAt(k1, 0)
    ensures t2.Put(t2.Slot(k1, 0), k1, None).Sized() && t2.Put(t2.Slot(k1, 0), k1, None).Behind(k2)
  {
    var i, j := t.Slot(k1, 0), t.Slot(k1, 1);
    NthDistinct(|t.keys|, t.Start(k1), 0, 1);
    var t3 := t2.Put(t2.Slot(k1, 0), k1, None);
    assert t2.Slot(k1, 0) == i && t1.Slot(k2, 1) == j && t3.Slot(k2, 0) == i && t3.Slot(k2, 1) == j;
    assert t2.keys[i] == k1 && t3.keys[i] == k1 && t3.keys[j] == k2;
    assert t3.FirstAt(k2, 1) && t3.values[t3.Slot(k2, 1)].Some? && t3.values[t3.Slot(k2, 0)] == None;
  }
}
