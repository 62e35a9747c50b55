/** Entering names, packages and status in the tables of dpkg: every step keeps
    them valid. */
module PackageIndex {
  import opened Version
  import opened Probing
  import opened PackageTables
  import opened Dependencies
  import opened DependencyText

  // ---------- room in a table ----------

  lemma {:induction false} Pigeonhole<K>(n: nat, key: nat -> K, s: set<K>)
    requires forall a :: 0 <= a < n ==> key(a) in s
    requires forall a, b :: 0 <= a < b < n ==> key(a) != key(b)
    ensures n <= |s|
    decreases n
  {
    if n > 0 {
      Pigeonhole(n - 1, key, s - {key(n - 1)});
    }
  }

  // Items with different keys out of fewer than `p` leave a slot.
  lemma LeavesSlot<T, K>(t: seq<Slot<T>>, p: nat, key: nat -> K, s: set<K>)
    requires p <= |t| && |s| < p
    requires forall a :: 0 <= a < p && t[a].Used? ==> key(a) in s
    requires forall a, b :: 0 <= a < b < p && t[a].Used? && t[b].Used? ==> key(a) != key(b)
    ensures SlotLeft(t, p)
  {
    if forall a :: 0 <= a < p ==> t[a].Used? {
      Pigeonhole(p, key, s);
    }
  }

  // ---------- names ----------

  // More names were entered, and none has moved.
  ghost predicate Grows(names: seq<Slot<Key>>, names': seq<Slot<Key>>)
  {
    |names'| == |names| && forall a :: 0 <= a < |names| && names[a].Used? ==> names'[a] == names[a]
  }

  predicate IsAt(names: seq<Slot<Key>>, a: nat, key: Key)
  {
    Named(names, a) && names[a].item == key
  }

  ghost predicate Present(names: seq<Slot<Key>>, key: Key)
  {
    exists a: nat :: IsAt(names, a, key)
  }

  ghost function SlotOf(names: seq<Slot<Key>>, key: Key): (a: nat)
    ensures Present(names, key) ==> IsAt(names, a, key)
  {
    if Present(names, key) then
      var a: nat :| IsAt(names, a, key);
      a
    else 0
  }

  // The number of a name: the slot it is entered in.
  ghost function NumberOf(names: seq<Slot<Key>>): Key -> nat
  {
    (key: Key) => SlotOf(names, key)
  }

  lemma NumberIs(names: seq<Slot<Key>>, bits: nat, a: nat, key: Key)
    requires NamesValid(names, bits) && IsAt(names, a, key)
    ensures Present(names, key) && NumberOf(names)(key) == a
  {
    hide NamesValid;
    NamesInjective(names, bits, a, SlotOf(names, key));
  }

  lemma NumberStays(names: seq<Slot<Key>>, names': seq<Slot<Key>>, bits: nat, key: Key)
    requires NamesValid(names, bits) && NamesValid(names', bits) && Grows(names, names') && Present(names, key)
    ensures Present(names', key) && NumberOf(names')(key) == NumberOf(names)(key)
  {
    hide NamesValid;
    NumberIs(names', bits, SlotOf(names, key), key);
  }

  // The strings of an edge are entered.
  ghost predicate EdgePresent(names: seq<Slot<Key>>, e: TextEdge)
  {
    Present(names, e.name) && (e.kind == OR_DEPENDS || e.kind == OR_PRE_DEPENDS || Present(names, e.version))
  }

  ghost predicate AllPresent(names: seq<Slot<Key>>, es: seq<TextEdge>)
  {
    forall i :: 0 <= i < |es| ==> EdgePresent(names, es[i])
  }

  lemma InternStays(names: seq<Slot<Key>>, names': seq<Slot<Key>>, bits: nat, es: seq<TextEdge>)
    requires NamesValid(names, bits) && NamesValid(names', bits) && Grows(names, names') && AllPresent(names, es)
    ensures AllPresent(names', es) && InternAll(NumberOf(names'), es) == InternAll(NumberOf(names), es)
  {
    hide NamesValid, Present, SlotOf, Grows, NumberOf;
    forall i | 0 <= i < |es|
      ensures EdgePresent(names', es[i]) && Intern(NumberOf(names'), es[i]) == Intern(NumberOf(names), es[i])
    {
      NumberStays(names, names', bits, es[i].name);
      if es[i].kind != OR_DEPENDS && es[i].kind != OR_PRE_DEPENDS {
        NumberStays(names, names', bits, es[i].version);
      }
    }
  }

  lemma GrowsTrans(a: seq<Slot<Key>>, b: seq<Slot<Key>>, c: seq<Slot<Key>>)
    requires Grows(a, b) && Grows(b, c)
    ensures Grows(a, c)
  {
  }

  // ---------- interning ----------

  // The names come from a set that the table can hold.
  ghost predicate Within(names: seq<Slot<Key>>, all: set<Key>)
  {
    |all| <= NAME_HASH_PRIME && forall a :: 0 <= a < NAME_HASH_PRIME && a < |names| && names[a].Used? ==> names[a].item in all
  }

  lemma RoomWithin(names: seq<Slot<Key>>, bits: nat, all: set<Key>, key: Key)
    requires NamesValid(names, bits) && Within(names, all) && key in all
    ensures HasRoom(names, key)
  {
    hide Placed;
    if !HasRoom(names, key) {
      assert forall a :: 0 <= a < NAME_HASH_PRIME ==> names[a].Used? && NameKey(names)(a) == names[a].item != key;
      Pigeonhole(NAME_HASH_PRIME, NameKey(names), all - {key});
    }
  }

  // search_name_hashtable
  method Enter(names: array<Slot<Key>>, bits: nat, key: Key, ghost all: set<Key>) returns (a: nat)
    requires NamesValid(names[..], bits) && Within(names[..], all) && key in all
    modifies names
    ensures NamesValid(names[..], bits) && Grows(old(names[..]), names[..]) && Within(names[..], all)
    ensures IsAt(names[..], a, key) && Present(names[..], key) && a == NumberOf(names[..])(key)
  {
    hide NamesValid, NumberOf, Present, HasRoom;
    NamesSize(names[..], bits);
    RoomWithin(names[..], bits, all, key);
    a := SearchName(names, bits, key);
    NamesSize(names[..], bits);
    NumberIs(names[..], bits, a, key);
  }

  // The strings of an edge.
  function EdgeStrings(e: TextEdge): set<Key>
  {
    if e.kind == OR_DEPENDS || e.kind == OR_PRE_DEPENDS then {e.name} else {e.name, e.version}
  }

  // The numbers for one edge.
  method InternEdge(names: array<Slot<Key>>, bits: nat, e: TextEdge, ghost all: set<Key>) returns (edge: Edge)
    requires NamesValid(names[..], bits) && Within(names[..], all) && EdgeStrings(e) <= all
    modifies names
    ensures NamesValid(names[..], bits) && Grows(old(names[..]), names[..]) && Within(names[..], all)
    ensures EdgePresent(names[..], e) && edge == Intern(NumberOf(names[..]), e)
  {
    hide NamesValid, Within, NumberOf, Present, Grows;
    ghost var t := names[..];
    var version := e.count;
    if e.kind != OR_DEPENDS && e.kind != OR_PRE_DEPENDS {
      version := Enter(names, bits, e.version, all);
    } else {
      assert Grows(t, t) by { GrowsSelf(t); }
    }
    ghost var t1 := names[..];
    var name := Enter(names, bits, e.name, all);
    GrowsTrans(t, t1, names[..]);
    if e.kind != OR_DEPENDS && e.kind != OR_PRE_DEPENDS {
      NumberStays(t1, names[..], bits, e.version);
    }
    edge := Edge(e.op, e.kind, name, version);
  }

  lemma GrowsSelf(t: seq<Slot<Key>>)
    ensures Grows(t, t)
  {
  }

  // The numbers for all edges of a package.
  method InternEdges(names: array<Slot<Key>>, bits: nat, es: seq<TextEdge>, ghost all: set<Key>) returns (edges: seq<Edge>)
    requires NamesValid(names[..], bits) && Within(names[..], all)
    requires forall i :: 0 <= i < |es| ==> EdgeStrings(es[i]) <= all
    modifies names
    ensures NamesValid(names[..], bits) && Grows(old(names[..]), names[..]) && Within(names[..], all)
    ensures AllPresent(names[..], es) && edges == InternAll(NumberOf(names[..]), es)
  {
    hide NamesValid, Within, NumberOf, EdgePresent, EdgeStrings, Intern, Grows;
    edges := [];
    GrowsSelf(names[..]);
    var i := 0;
    while i < |es|
      invariant 0 <= i <= |es| && NamesValid(names[..], bits) && Grows(old(names[..]), names[..]) && Within(names[..], all)
      invariant AllPresent(names[..], es[..i]) && edges == InternAll(NumberOf(names[..]), es[..i])
    {
      ghost var t := names[..];
      var e := InternEdge(names, bits, es[i], all);
      InternStays(t, names[..], bits, es[..i]);
      GrowsTrans(old(names[..]), t, names[..]);
      edges := edges + [e];
      i := i + 1;
    }
    assert es[..i] == es;
  }

  // ---------- the tables stay valid ----------

  lemma EmptyPlaced(p: nat, bits: nat, key: nat -> Key)
    requires p >= 2
    ensures Placed(p, bits, {}, key)
  {
  }

  // Empty tables are valid.
  lemma EmptyValid(db: Db)
    requires |db.names| == NAME_HASH_PRIME + 1 && |db.packages| == PACKAGE_HASH_PRIME + 1 && |db.status| == STATUS_HASH_PRIME + 1
    requires forall a :: 0 <= a < |db.names| ==> db.names[a].Free?
    requires forall a :: 0 <= a < |db.packages| ==> db.packages[a].Free?
    requires forall a :: 0 <= a < |db.status| ==> db.status[a].Free?
    ensures DbValid(db) && NoTwins(db.names, db.packages)
  {
    hide Placed;
    assert Occupied(db.names, NAME_HASH_PRIME) == {};
    assert Occupied(db.packages, PACKAGE_HASH_PRIME) == {};
    assert Occupied(db.status, STATUS_HASH_PRIME) == {};
    EmptyPlaced(NAME_HASH_PRIME, db.bits, NameKey(db.names));
    EmptyPlaced(PACKAGE_HASH_PRIME, db.bits, PackageKey(db.names, db.packages));
    EmptyPlaced(STATUS_HASH_PRIME, db.bits, StatusKey(db));
    assert db.packages[0].Free? && db.status[0].Free?;
  }

  lemma PlacedSame(p: nat, bits: nat, occupied: set<nat>, key: nat -> Key, key': nat -> Key)
    requires p >= 2 && Placed(p, bits, occupied, key) && forall a :: a in occupied ==> key'(a) == key(a)
    ensures Placed(p, bits, occupied, key')
  {
    hide Reached;
  }

  // New names change neither what the tables hold nor where it is found.
  lemma NamesGrow(db: Db, names': seq<Slot<Key>>)
    requires DbValid(db) && Grows(db.names, names') && NamesValid(names', db.bits)
    ensures DbValid(db.(names := names'))
  {
    hide Placed, NamesValid, Grouped;
    var db' := db.(names := names');
    MoreNames(db.names, names', db.packages, db.bits);
    StatusGrow(db, names');
  }

  lemma StatusGrow(db: Db, names': seq<Slot<Key>>)
    requires StatusValid(db) && Grows(db.names, names')
    requires |db.packages| == PACKAGE_HASH_PRIME + 1
    ensures StatusValid(db.(names := names'))
    ensures var db' := db.(names := names');
            && (forall a :: HasStatus(db, a) <==> HasStatus(db', a))
            && (forall a :: HasStatus(db, a) ==> StatusName(db', a) == StatusName(db, a))
            && (forall a :: HasStatus(db, a) ==> StatusText(db', a) == StatusText(db, a))
  {
    hide Placed;
    var db' := db.(names := names');
    forall a: nat | HasStatus(db, a)
      ensures HasStatus(db', a) && StatusName(db', a) == StatusName(db, a) && StatusText(db', a) == StatusText(db, a)
    {
    }
    forall a: nat | HasStatus(db', a)
      ensures HasStatus(db, a)
    {
      assert db.status[a].Used?;
    }
    PlacedSame(STATUS_HASH_PRIME, db.bits, Occupied(db.status, STATUS_HASH_PRIME), StatusKey(db), StatusKey(db'));
  }

  lemma NoTwinsGrow(names: seq<Slot<Key>>, names': seq<Slot<Key>>, t: seq<Slot<Package>>, bits: nat)
    requires PackagesValid(names, t, bits) && NoTwins(names, t) && Grows(names, names')
    ensures NoTwins(names', t)
  {
    hide Placed, VersionOrder;
    forall a, b | 0 <= a < PACKAGE_HASH_PRIME && 0 <= b < PACKAGE_HASH_PRIME && t[a].Used? && t[b].Used? &&
                  SamePackage(names', t[a].item, t[b].item)
      ensures a == b
    {
      assert Named(names, t[a].item.version) && Named(names, t[b].item.version);
      assert SamePackage(names, t[a].item, t[b].item);
    }
  }

  // Storing a package whose edges are in order keeps the tables valid; no status
  // changes its package name.
  lemma PackageKept(db: Db, a: nat, node: Package)
    requires DbValid(db) && Named(db.names, node.name) && Named(db.names, node.version)
    requires PackageFound(db.names, db.packages, db.bits, node.name, node.version, VerEqual, a)
    requires EdgesNamed(db, node.edges) && Grouped(node.edges, 0)
    requires SlotLeft(db.packages[a := Used(node)], PACKAGE_HASH_PRIME)
    ensures DbValid(db.(packages := db.packages[a := Used(node)]))
    ensures forall s :: HasStatus(db, s) <==> HasStatus(db.(packages := db.packages[a := Used(node)]), s)
    ensures forall s :: HasStatus(db, s) ==> StatusName(db.(packages := db.packages[a := Used(node)]), s) == StatusName(db, s)
  {
    hide Placed, NamesValid, Grouped, Reached, Meets;
    var db' := db.(packages := db.packages[a := Used(node)]);
    PackageStored(db.names, db.packages, db.bits, a, node);
    SameNames(db, a, node);
    PlacedSame(STATUS_HASH_PRIME, db.bits, Occupied(db.status, STATUS_HASH_PRIME), StatusKey(db), StatusKey(db'));
  }

  lemma SameNames(db: Db, a: nat, node: Package)
    requires StatusValid(db) && Named(db.names, node.name) && Named(db.names, node.version)
    requires |db.packages| == PACKAGE_HASH_PRIME + 1
    requires PackageFound(db.names, db.packages, db.bits, node.name, node.version, VerEqual, a)
    ensures var db' := db.(packages := db.packages[a := Used(node)]);
            forall s :: (HasStatus(db, s) <==> HasStatus(db', s)) &&
                (HasStatus(db, s) ==> StatusName(db', s) == StatusName(db, s))
  {
    hide Placed, Reached, Meets;
  }

  // Entering a status under its package name keeps the tables valid.
  lemma StatusKept(db: Db, a: nat, node: StatusNode)
    requires DbValid(db) && HasPackage(db, node.package) && Named(db.names, node.status)
    requires StatusFound(db, PackageName(db, node.package), a)
    requires SlotLeft(db.status[a := Used(node)], STATUS_HASH_PRIME)
    ensures DbValid(db.(status := db.status[a := Used(node)]))
  {
    hide Placed, NamesValid, Grouped, Reached, PackagesValid;
    var db' := db.(status := db.status[a := Used(node)]);
    var p := STATUS_HASH_PRIME;
    NewStatus(db, a, node);
    assert Occupied(db'.status, p) == Occupied(db.status, p) + {a};
    assert StatusKey(db')(a) == PackageName(db, node.package);
    StatusReached(db, a, PackageName(db, node.package));
    PlacedMore(p, db.bits, Occupied(db.status, p), StatusKey(db), a, StatusKey(db'));
  }

  // The slot of a status is where a search for its name ends.
  lemma StatusReached(db: Db, a: nat, name: Key)
    requires StatusValid(db) && StatusFound(db, name, a)
    ensures Reached(name, STATUS_HASH_PRIME, db.bits, Occupied(db.status, STATUS_HASH_PRIME), a)
  {
    hide Reached;
    if db.status[a].Used? {
      assert a in Occupied(db.status, STATUS_HASH_PRIME) && StatusKey(db)(a) == name;
    }
  }

  lemma NewStatus(db: Db, a: nat, node: StatusNode)
    requires StatusValid(db) && HasPackage(db, node.package) && Named(db.names, node.status)
    requires StatusFound(db, PackageName(db, node.package), a)
    ensures var db' := db.(status := db.status[a := Used(node)]);
            && HasStatus(db', a) && StatusName(db', a) == PackageName(db, node.package)
            && StatusText(db', a) == db.names[node.status].item
            && (forall b :: b != a ==> (HasStatus(db', b) <==> HasStatus(db, b)))
            && (forall b :: b != a && HasStatus(db, b) ==>
                  StatusName(db', b) == StatusName(db, b) && StatusText(db', b) == StatusText(db, b) &&
                  StatusName(db, b) != PackageName(db, node.package))
  {
    hide Placed, Reached;
    forall b: nat | b != a && HasStatus(db, b)
      ensures StatusName(db, b) != PackageName(db, node.package)
    {
      assert StatusName(db, b) == PackageName(db, node.package) ==> SomeStatus(db, PackageName(db, node.package));
    }
  }
}
