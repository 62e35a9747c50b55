/** The name and the package table of dpkg: make_hash, search_name_hashtable,
    search_package_hashtable, and the table update at the end of
    fill_package_struct. */
module PackageTables {
  import opened Arith
  import opened Version
  import opened Probing

  type Key = seq<Char>

  datatype Slot<T> = Free | Used(item: T)

  // ---------- make_hash ----------

  // The sum over the first `n` characters; `unsigned long` has `bits` bits.
  function HashSum(key: Key, n: nat, bits: nat): nat
    requires n <= |key|
  {
    if n == 0 then 0
    else if n == 1 then key[0]
    else (HashSum(key, n - 1, bits) + (key[n - 1] + key[n - 2]) * Pow2(key[n - 1] * (n - 1) % 24)) % Pow2(bits)
  }

  function StartOf(key: Key, prime: nat, bits: nat): nat
    requires prime >= 1
  {
    U32(HashSum(key, |key|, bits)) % prime
  }

  function DecrementOf(key: Key, prime: nat, bits: nat): nat
    requires prime >= 2
  {
    1 + HashSum(key, |key|, bits) % (prime - 1)
  }

  lemma HashRange(key: Key, prime: nat, bits: nat)
    requires prime >= 2
    ensures Hashed(prime, StartOf(key, prime, bits), DecrementOf(key, prime, bits))
  {
  }

  method MakeHash(key: Key, prime: nat, bits: nat) returns (start: nat, decrement: nat)
    requires prime >= 2
    ensures start == StartOf(key, prime, bits) && decrement == DecrementOf(key, prime, bits)
    ensures Hashed(prime, start, decrement)
  {
    hide Pow2;
    HashRange(key, prime, bits);
    var hashNum := if key == [] then 0 else key[0];
    var i := 1;
    while i < |key|
      invariant 1 <= i && (key == [] || i <= |key|)
      invariant hashNum == HashSum(key, if key == [] then 0 else i, bits)
    {
      hashNum := (hashNum + (key[i] + key[i - 1]) * Pow2(key[i] * i % 24)) % Pow2(bits);
      i := i + 1;
    }
    start := U32(hashNum) % prime;
    decrement := 1 + hashNum % (prime - 1);
  }

  // ---------- tables ----------

  ghost function Occupied<T>(t: seq<Slot<T>>, p: nat): set<nat>
    requires p <= |t|
  {
    set a: nat | a < p && t[a].Used?
  }

  ghost predicate Reached(key: Key, p: nat, bits: nat, occupied: set<nat>, a: nat)
    requires p >= 2
  {
    HashRange(key, p, bits);
    Reachable(p, StartOf(key, p, bits), DecrementOf(key, p, bits), occupied, a)
  }

  // Every item is where a search for its key can find it.
  ghost predicate Placed(p: nat, bits: nat, occupied: set<nat>, key: nat -> Key)
    requires p >= 2
  {
    forall a :: a in occupied ==> Reached(key(a), p, bits, occupied, a)
  }

  // A new item in the slot where its search ended.
  lemma PlacedMore(p: nat, bits: nat, occupied: set<nat>, key: nat -> Key, a: nat, key': nat -> Key)
    requires p >= 2 && Placed(p, bits, occupied, key) && Reached(key'(a), p, bits, occupied, a)
    requires forall b :: b in occupied && b != a ==> key'(b) == key(b)
    ensures Placed(p, bits, occupied + {a}, key')
  {
    hide StartOf, DecrementOf, Reachable;
    forall b | b in occupied + {a}
      ensures Reached(key'(b), p, bits, occupied + {a}, b)
    {
      var k := key'(b);
      HashRange(k, p, bits);
      StaysReachable(p, StartOf(k, p, bits), DecrementOf(k, p, bits), occupied, occupied + {a}, b);
    }
  }

  // A search that ends at a free slot: no item with that key matches.
  lemma NoneMatches(p: nat, bits: nat, occupied: set<nat>, key: nat -> Key, wanted: Key, matching: set<nat>, k: nat,
                    start: nat, dec: nat)
    requires p >= 2 && Placed(p, bits, occupied, key) && Hashed(p, start, dec)
    requires start == StartOf(wanted, p, bits) && dec == DecrementOf(wanted, p, bits)
    requires Passed(p, start, dec, occupied, matching, k) && Probe(p, start, dec, k) !in occupied
    requires forall a :: a in matching ==> a in occupied && key(a) == wanted
    ensures matching == {}
    ensures Reached(wanted, p, bits, occupied, Probe(p, start, dec, k))
  {
    hide StartOf, DecrementOf, Reachable, Probe, Passed;
    NewlyReachable(p, start, dec, occupied, matching, k);
    forall a | a in matching
      ensures false
    {
      NothingMissed(p, start, dec, occupied, matching, k, a);
    }
  }

  // ---------- names ----------

  ghost function NameKey(t: seq<Slot<Key>>): nat -> Key
  {
    (a: nat) => if a < |t| && t[a].Used? then t[a].item else []
  }

  // The name table: one slot per name.
  ghost predicate NamesValid(t: seq<Slot<Key>>, bits: nat)
  {
    && |t| == NAME_HASH_PRIME + 1
    && Placed(NAME_HASH_PRIME, bits, Occupied(t, NAME_HASH_PRIME), NameKey(t))
    && (forall a, b :: 0 <= a < NAME_HASH_PRIME && 0 <= b < NAME_HASH_PRIME && t[a].Used? && t[a] == t[b] ==> a == b)
  }

  ghost predicate HasRoom(t: seq<Slot<Key>>, key: Key)
  {
    exists a :: 0 <= a < NAME_HASH_PRIME && a < |t| && (t[a].Free? || t[a].item == key)
  }

  lemma NameInserted(t: seq<Slot<Key>>, bits: nat, a: nat, key: Key)
    requires NamesValid(t, bits) && a < NAME_HASH_PRIME && t[a].Free?
    requires Reached(key, NAME_HASH_PRIME, bits, Occupied(t, NAME_HASH_PRIME), a)
    requires forall b :: 0 <= b < NAME_HASH_PRIME && t[b].Used? ==> t[b].item != key
    ensures NamesValid(t[a := Used(key)], bits)
  {
    hide Reached;
    var t' := t[a := Used(key)];
    PlacedMore(NAME_HASH_PRIME, bits, Occupied(t, NAME_HASH_PRIME), NameKey(t), a, NameKey(t'));
    assert Occupied(t', NAME_HASH_PRIME) == Occupied(t, NAME_HASH_PRIME) + {a};
  }

  // The slot of a name, entering it if it is new. No name ever moves.
  method SearchName(names: array<Slot<Key>>, bits: nat, key: Key) returns (a: nat)
    requires NamesValid(names[..], bits) && HasRoom(names[..], key)
    modifies names
    ensures NamesValid(names[..], bits)
    ensures a < NAME_HASH_PRIME && names[a] == Used(key)
    ensures forall b :: 0 <= b < names.Length && (b != a || old(names[b]).Used?) ==> names[b] == old(names[b])
  {
    hide NamesValid, Placed, Reached, Reachable, StartOf, DecrementOf, Probe, Passed, Prime;
    ghost var t, p := names[..], NAME_HASH_PRIME;
    NamePrime();
    NamesSize(t, bits);
    var start, dec := MakeHash(key, NAME_HASH_PRIME, bits);
    ghost var occupied, matching := Occupied(t, p), set b: nat | b < p && t[b] == Used(key);
    ghost var target :| 0 <= target < p && (t[target].Free? || t[target].item == key);
    a := start;
    ghost var k := 0;
    PassedNone(p, start, dec, occupied, matching);
    while names[a].Used?
      invariant 0 <= k < p && a == Probe(p, start, dec, k) < p && names[..] == t
      invariant Passed(p, start, dec, occupied, matching, k)
      decreases p - k
    {
      if names[a].item == key {
        return;
      }
      PassedOne(p, start, dec, occupied, matching, k);
      SearchEnds(p, start, dec, occupied, matching, k + 1, target);
      a := Step(NAME_HASH_PRIME, a, dec);
      k := k + 1;
    }
    NameIsNew(t, bits, key, k, start, dec, matching);
    names[a] := Used(key);
    assert names[..] == t[a := Used(key)];
  }

  lemma NamesSize(t: seq<Slot<Key>>, bits: nat)
    requires NamesValid(t, bits)
    ensures |t| == NAME_HASH_PRIME + 1
  {
  }

  lemma PassedNone(p: nat, start: nat, dec: nat, occupied: set<nat>, matching: set<nat>)
    requires Hashed(p, start, dec)
    ensures Passed(p, start, dec, occupied, matching, 0) && Probe(p, start, dec, 0) == start
  {
  }

  lemma PassedOne(p: nat, start: nat, dec: nat, occupied: set<nat>, matching: set<nat>, k: nat)
    requires Hashed(p, start, dec) && Passed(p, start, dec, occupied, matching, k)
    requires Probe(p, start, dec, k) in occupied && Probe(p, start, dec, k) !in matching
    ensures Passed(p, start, dec, occupied, matching, k + 1)
    ensures Probe(p, start, dec, k + 1) == Step(p, Probe(p, start, dec, k), dec)
  {
  }

  lemma NameIsNew(t: seq<Slot<Key>>, bits: nat, key: Key, k: nat, start: nat, dec: nat, matching: set<nat>)
    requires NamesValid(t, bits) && Hashed(NAME_HASH_PRIME, start, dec)
    requires start == StartOf(key, NAME_HASH_PRIME, bits) && dec == DecrementOf(key, NAME_HASH_PRIME, bits)
    requires matching == set b: nat | b < NAME_HASH_PRIME && t[b] == Used(key)
    requires Passed(NAME_HASH_PRIME, start, dec, Occupied(t, NAME_HASH_PRIME), matching, k)
    requires t[Probe(NAME_HASH_PRIME, start, dec, k)].Free?
    ensures NamesValid(t[Probe(NAME_HASH_PRIME, start, dec, k) := Used(key)], bits)
  {
    hide Placed, Reached, StartOf, DecrementOf, Probe, Passed;
    var p, a := NAME_HASH_PRIME, Probe(NAME_HASH_PRIME, start, dec, k);
    NoneMatches(p, bits, Occupied(t, p), NameKey(t), key, matching, k, start, dec);
    forall b | 0 <= b < p && t[b].Used?
      ensures t[b].item != key
    {
      assert b !in matching;
    }
    NameInserted(t, bits, a, key);
  }

  // Interned names are equal exactly when their slots are.
  lemma NamesInjective(t: seq<Slot<Key>>, bits: nat, a: nat, b: nat)
    requires NamesValid(t, bits) && a < NAME_HASH_PRIME && b < NAME_HASH_PRIME && t[a].Used? && t[b].Used?
    ensures a == b <==> t[a].item == t[b].item
  {
    hide Placed;
  }

  // ---------- packages ----------

  // A dependency, conflict, provided name and so on.
  datatype Edge = Edge(op: Operator, kind: nat, name: nat, version: nat)

  datatype Package = Package(name: nat, version: nat, edges: seq<Edge>)

  predicate Named(names: seq<Slot<Key>>, a: nat)
  {
    a < NAME_HASH_PRIME < |names| && names[a].Used?
  }

  ghost function PackageKey(names: seq<Slot<Key>>, t: seq<Slot<Package>>): nat -> Key
  {
    (a: nat) => if a < |t| && t[a].Used? && Named(names, t[a].item.name) then names[t[a].item.name].item else []
  }

  ghost predicate PackagesValid(names: seq<Slot<Key>>, t: seq<Slot<Package>>, bits: nat)
  {
    && |t| == PACKAGE_HASH_PRIME + 1
    && (forall a :: 0 <= a < PACKAGE_HASH_PRIME && t[a].Used? ==> Named(names, t[a].item.name) && Named(names, t[a].item.version))
    && Placed(PACKAGE_HASH_PRIME, bits, Occupied(t, PACKAGE_HASH_PRIME), PackageKey(names, t))
  }

  // Entering more names leaves the packages where they are found.
  lemma MoreNames(names: seq<Slot<Key>>, names': seq<Slot<Key>>, t: seq<Slot<Package>>, bits: nat)
    requires PackagesValid(names, t, bits) && |names'| == |names|
    requires forall a :: 0 <= a < |names| && names[a].Used? ==> names'[a] == names[a]
    ensures PackagesValid(names', t, bits)
  {
    hide Reached;
    forall a | a in Occupied(t, PACKAGE_HASH_PRIME)
      ensures PackageKey(names', t)(a) == PackageKey(names, t)(a)
    {
      assert Named(names, t[a].item.name);
    }
  }

  // The package has that name and its version passes the test.
  predicate Suits(names: seq<Slot<Key>>, pk: Package, name: nat, version: nat, op: Operator)
    requires Named(names, pk.version) && Named(names, version)
  {
    pk.name == name && Meets(names[pk.version].item, names[version].item, op)
  }

  ghost predicate SomeSuits(names: seq<Slot<Key>>, t: seq<Slot<Package>>, name: nat, version: nat, op: Operator)
    requires Named(names, version)
  {
    exists a :: 0 <= a < PACKAGE_HASH_PRIME && a < |t| && t[a].Used? && Named(names, t[a].item.version) &&
                Suits(names, t[a].item, name, version, op)
  }

  ghost predicate SlotLeft<T>(t: seq<Slot<T>>, p: nat)
  {
    exists a :: 0 <= a < p && a < |t| && t[a].Free?
  }

  ghost function SuitingSlots(names: seq<Slot<Key>>, t: seq<Slot<Package>>, name: nat, version: nat, op: Operator): set<nat>
    requires Named(names, version)
  {
    set a: nat | a < PACKAGE_HASH_PRIME && a < |t| && t[a].Used? && Named(names, t[a].item.version) &&
                 Suits(names, t[a].item, name, version, op)
  }

  // What a search for a package returns: a package that suits, or, when there
  // is none anywhere in the table, the slot where one would go.
  ghost predicate PackageFound(names: seq<Slot<Key>>, t: seq<Slot<Package>>, bits: nat, name: nat, version: nat, op: Operator,
                               a: nat)
    requires Named(names, name) && Named(names, version)
  {
    && a < PACKAGE_HASH_PRIME < |t|
    && (t[a].Used? <==> SomeSuits(names, t, name, version, op))
    && (t[a].Used? ==> Named(names, t[a].item.version) && Suits(names, t[a].item, name, version, op))
    && (t[a].Free? ==> Reached(names[name].item, PACKAGE_HASH_PRIME, bits, Occupied(t, PACKAGE_HASH_PRIME), a))
  }

  lemma PackageMissing(names: seq<Slot<Key>>, t: seq<Slot<Package>>, bits: nat, name: nat, version: nat, op: Operator, k: nat,
                       start: nat, dec: nat)
    requires PackagesValid(names, t, bits) && Named(names, name) && Named(names, version)
    requires Hashed(PACKAGE_HASH_PRIME, start, dec)
    requires start == StartOf(names[name].item, PACKAGE_HASH_PRIME, bits)
    requires dec == DecrementOf(names[name].item, PACKAGE_HASH_PRIME, bits)
    requires Passed(PACKAGE_HASH_PRIME, start, dec, Occupied(t, PACKAGE_HASH_PRIME),
                    SuitingSlots(names, t, name, version, op), k)
    requires t[Probe(PACKAGE_HASH_PRIME, start, dec, k)].Free?
    ensures PackageFound(names, t, bits, name, version, op, Probe(PACKAGE_HASH_PRIME, start, dec, k))
  {
    hide Placed, Reached, StartOf, DecrementOf, Probe, Passed, Meets;
    var p, matching := PACKAGE_HASH_PRIME, SuitingSlots(names, t, name, version, op);
    NoneMatches(p, bits, Occupied(t, p), PackageKey(names, t), names[name].item, matching, k, start, dec);
    SuitingIs(names, t, name, version, op);
  }

  lemma SuitingIs(names: seq<Slot<Key>>, t: seq<Slot<Package>>, name: nat, version: nat, op: Operator)
    requires Named(names, version)
    ensures SomeSuits(names, t, name, version, op) ==> SuitingSlots(names, t, name, version, op) != {}
  {
    hide Meets;
    if SomeSuits(names, t, name, version, op) {
      var a :| 0 <= a < PACKAGE_HASH_PRIME && a < |t| && t[a].Used? && Named(names, t[a].item.version) &&
               Suits(names, t[a].item, name, version, op);
      assert a in SuitingSlots(names, t, name, version, op);
    }
  }

  method SearchPackage(names: array<Slot<Key>>, packages: array<Slot<Package>>, bits: nat, name: nat, version: nat, op: Operator)
    returns (a: nat)
    requires PackagesValid(names[..], packages[..], bits) && Named(names[..], name) && Named(names[..], version)
    requires SlotLeft(packages[..], PACKAGE_HASH_PRIME) || SomeSuits(names[..], packages[..], name, version, op)
    ensures PackageFound(names[..], packages[..], bits, name, version, op, a)
  {
    hide PackagesValid, Placed, Reached, StartOf, DecrementOf, Probe, Passed, Prime, Meets, PackageFound;
    ghost var ns, t, p := names[..], packages[..], PACKAGE_HASH_PRIME;
    PackagePrime();
    PackagesSize(ns, t, bits);
    var start, dec := MakeHash(names[name].item, PACKAGE_HASH_PRIME, bits);
    ghost var occupied, matching := Occupied(t, p), SuitingSlots(ns, t, name, version, op);
    ghost var target :| 0 <= target < p && (t[target].Free? || target in matching);
    a := start;
    ghost var k := 0;
    PassedNone(p, start, dec, occupied, matching);
    while packages[a].Used?
      invariant 0 <= k < p && a == Probe(p, start, dec, k) < p
      invariant Passed(p, start, dec, occupied, matching, k)
      decreases p - k
    {
      var pk := packages[a].item;
      if pk.name == name {
        if op == VerAny {
          AnyMeets(names[pk.version].item, names[version].item);
          PackageThere(ns, t, bits, name, version, op, a);
          return;
        }
        var ok := TestVersion(names[pk.version].item, names[version].item, op);
        if ok {
          PackageThere(ns, t, bits, name, version, op, a);
          return;
        }
      }
      PassedOne(p, start, dec, occupied, matching, k);
      SearchEnds(p, start, dec, occupied, matching, k + 1, target);
      a := Step(PACKAGE_HASH_PRIME, a, dec);
      k := k + 1;
    }
    PackageMissing(ns, t, bits, name, version, op, k, start, dec);
  }

  lemma AnyMeets(v: Key, w: Key)
    ensures Meets(v, w, VerAny)
  {
  }

  lemma PackagesSize(names: seq<Slot<Key>>, t: seq<Slot<Package>>, bits: nat)
    requires PackagesValid(names, t, bits)
    ensures |t| == PACKAGE_HASH_PRIME + 1
    ensures forall a :: 0 <= a < PACKAGE_HASH_PRIME && t[a].Used? ==>
              Named(names, t[a].item.name) && Named(names, t[a].item.version)
  {
  }

  lemma PackageThere(names: seq<Slot<Key>>, t: seq<Slot<Package>>, bits: nat, name: nat, version: nat, op: Operator, a: nat)
    requires PackagesValid(names, t, bits) && Named(names, name) && Named(names, version)
    requires a < PACKAGE_HASH_PRIME && t[a].Used? && Suits(names, t[a].item, name, version, op)
    ensures PackageFound(names, t, bits, name, version, op, a)
  {
    hide Placed, Meets;
  }

  // ---------- entering a package ----------

  predicate SamePackage(names: seq<Slot<Key>>, p: Package, q: Package)
  {
    p.name == q.name && Named(names, p.version) && Named(names, q.version) &&
    VersionOrder(names[p.version].item, names[q.version].item) == 0
  }

  // No two packages have the same name and equal versions.
  ghost predicate NoTwins(names: seq<Slot<Key>>, t: seq<Slot<Package>>)
    requires |t| == PACKAGE_HASH_PRIME + 1
  {
    forall a, b ::
      (0 <= a < PACKAGE_HASH_PRIME && 0 <= b < PACKAGE_HASH_PRIME && t[a].Used? && t[b].Used? &&
       SamePackage(names, t[a].item, t[b].item)) ==> a == b
  }

  lemma PackageStored(names: seq<Slot<Key>>, t: seq<Slot<Package>>, bits: nat, a: nat, node: Package)
    requires PackagesValid(names, t, bits) && Named(names, node.name) && Named(names, node.version)
    requires PackageFound(names, t, bits, node.name, node.version, VerEqual, a)
    ensures PackagesValid(names, t[a := Used(node)], bits)
  {
    hide Reached, VersionOrder;
    var t', p := t[a := Used(node)], PACKAGE_HASH_PRIME;
    assert PackageKey(names, t')(a) == names[node.name].item;
    assert t[a].Used? ==> PackageKey(names, t)(a) == names[node.name].item;
    PlacedMore(p, bits, Occupied(t, p), PackageKey(names, t), a, PackageKey(names, t'));
    assert Occupied(t', p) == Occupied(t, p) + {a};
  }

  lemma StillNoTwins(names: seq<Slot<Key>>, t: seq<Slot<Package>>, bits: nat, a: nat, node: Package)
    requires PackagesValid(names, t, bits) && NoTwins(names, t) && Named(names, node.name) && Named(names, node.version)
    requires PackageFound(names, t, bits, node.name, node.version, VerEqual, a)
    requires PackagesValid(names, t[a := Used(node)], bits)
    ensures NoTwins(names, t[a := Used(node)])
  {
    hide Placed, Reached, VersionOrder;
    var t' := t[a := Used(node)];
    forall b, c | 0 <= b < PACKAGE_HASH_PRIME && 0 <= c < PACKAGE_HASH_PRIME && t'[b].Used? && t'[c].Used? &&
                  SamePackage(names, t'[b].item, t'[c].item)
      ensures b == c
    {
      if b == a && c != a {
        OnlyTwin(names, t, bits, a, node, c);
      } else if c == a && b != a {
        VersionPreorder(names[t'[b].item.version].item, names[node.version].item, []);
        OnlyTwin(names, t, bits, a, node, b);
      }
    }
  }

  // Another package equal to the new one would be the one that was found.
  lemma OnlyTwin(names: seq<Slot<Key>>, t: seq<Slot<Package>>, bits: nat, a: nat, node: Package, c: nat)
    requires PackagesValid(names, t, bits) && NoTwins(names, t) && Named(names, node.name) && Named(names, node.version)
    requires PackageFound(names, t, bits, node.name, node.version, VerEqual, a)
    requires c < PACKAGE_HASH_PRIME && t[c].Used? && SamePackage(names, node, t[c].item)
    ensures c == a
  {
    hide Placed, Reached, VersionOrder;
    var v, w := names[node.version].item, names[t[c].item.version].item;
    VersionPreorder(v, w, []);
    assert Suits(names, t[c].item, node.name, node.version, VerEqual);
    assert t[a].Used?;
    VersionPreorder(names[t[a].item.version].item, v, w);
  }

  // The end of fill_package_struct: the new package replaces the one with the
  // same name and an equal version, or goes into a free slot.
  method StorePackage(names: array<Slot<Key>>, packages: array<Slot<Package>>, bits: nat, node: Package) returns (num: nat)
    requires PackagesValid(names[..], packages[..], bits) && NoTwins(names[..], packages[..])
    requires Named(names[..], node.name) && Named(names[..], node.version)
    requires SlotLeft(packages[..], PACKAGE_HASH_PRIME) ||
             SomeSuits(names[..], packages[..], node.name, node.version, VerEqual)
    modifies packages
    ensures PackagesValid(names[..], packages[..], bits) && NoTwins(names[..], packages[..])
    ensures num < PACKAGE_HASH_PRIME && packages[..] == old(packages[..])[num := Used(node)]
    ensures old(PackageFound(names[..], packages[..], bits, node.name, node.version, VerEqual, num))
    ensures old(packages[num]).Used? <==> old(SomeSuits(names[..], packages[..], node.name, node.version, VerEqual))
    ensures old(packages[num]).Used? ==> Suits(names[..], old(packages[num]).item, node.name, node.version, VerEqual)
  {
    hide PackagesValid, NoTwins, Suits, Placed, Reached, SlotLeft, SomeSuits;
    PackagesSize(names[..], packages[..], bits);
    ghost var t := packages[..];
    num := SearchPackage(names, packages, bits, node.name, node.version, VerEqual);
    PackageStored(names[..], t, bits, num, node);
    StillNoTwins(names[..], t, bits, num, node);
    packages[num] := Used(node);
    assert packages[..] == t[num := Used(node)];
  }
}
