/** fill_package_struct and index_status_file: the tables that the records of a
    status file make, and what check_deps finds in them in terms of the records. */
module StatusFile {
  import opened Version
  import opened Probing
  import opened PackageTables
  import opened Dependencies
  import opened DependencyText
  import opened PackageIndex

  // ---------- records ----------

  const UNKNOWN: Key := [117, 110, 107, 110, 111, 119, 110]

  // A record of the status file; a missing version counts as "unknown".
  datatype Record = Record(name: Key, version: Key, listings: seq<Listing>, status: Key)

  // Records without a version are dropped.
  predicate Stored(r: Record)
  {
    r.version != UNKNOWN
  }

  ghost predicate RecordOk(r: Record)
  {
    forall i :: 0 <= i < |r.listings| ==> ListingOk(r.listings[i])
  }

  // Both describe the same version of the same package.
  predicate SameRecord(r: Record, q: Record)
  {
    r.name == q.name && VersionOrder(r.version, q.version) == 0
  }

  // Record `k` counts: it is stored, and none after it replaces it.
  ghost predicate Current(records: seq<Record>, k: nat)
  {
    k < |records| && Stored(records[k]) &&
    forall j :: k < j < |records| && Stored(records[j]) ==> !SameRecord(records[j], records[k])
  }

  // The last status given for a package name, or none.
  function LastStatus(records: seq<Record>, name: Key): (r: seq<Key>)
    ensures |r| <= 1
  {
    if records == [] then []
    else
      var last := records[|records| - 1];
      if Stored(last) && last.name == name then [last.status] else LastStatus(records[..|records| - 1], name)
  }

  function RecordEdges(r: Record): Parsed<seq<TextEdge>>
  {
    ParseListings(r.listings)
  }

  // The package in slot `a` is what the record says.
  ghost predicate From(db: Db, a: nat, r: Record)
    requires HasPackage(db, a)
  {
    var pk := db.packages[a].item;
    && Stored(r) && RecordOk(r) && RecordEdges(r).Legal?
    && PackageName(db, a) == r.name && IsAt(db.names, pk.version, r.version)
    && AllPresent(db.names, RecordEdges(r).value) && pk.edges == InternAll(NumberOf(db.names), RecordEdges(r).value)
  }

  // The package table holds the records that count; `src` tells which is where.
  ghost predicate Listed(db: Db, records: seq<Record>, src: map<nat, nat>)
  {
    && (forall a :: HasPackage(db, a) ==> a in src && Current(records, src[a]) && From(db, a, records[src[a]]))
    && (forall k :: Current(records, k) ==> exists a: nat :: HasPackage(db, a) && a in src && src[a] == k)
  }

  // The status table holds the last status for each name.
  ghost predicate StatusListed(db: Db, records: seq<Record>)
  {
    && (forall s :: HasStatus(db, s) ==> LastStatus(records, StatusName(db, s)) == [StatusText(db, s)])
    && (forall name :: LastStatus(records, name) != [] ==> SomeStatus(db, name))
  }

  ghost predicate Indexes(db: Db, records: seq<Record>, src: map<nat, nat>)
  {
    DbValid(db) && NoTwins(db.names, db.packages) && Listed(db, records, src) && StatusListed(db, records)
  }

  // ---------- reading the listings of a record ----------

  lemma ListingsNext(ls: seq<Listing>, n: nat)
    requires n < |ls|
    ensures ParseListings(ls[..n + 1]) ==
            match ParseListings(ls[..n])
            case Illegal => Illegal
            case Legal(edges) =>
              match ParseFields(LineFields(ls[n].line), ls[n].kind)
              case Illegal => Illegal
              case Legal(more) => Legal(edges + more)
  {
    assert ls[..n + 1][..n] == ls[..n];
  }

  lemma {:induction false} ListingsIllegal(ls: seq<Listing>, n: nat)
    requires n <= |ls| && ParseListings(ls[..n]).Illegal?
    ensures ParseListings(ls).Illegal?
    decreases |ls| - n
  {
    if n == |ls| {
      assert ls[..n] == ls;
    } else {
      ListingsNext(ls, n);
      ListingsIllegal(ls, n + 1);
    }
  }

  method ReadListings(ls: seq<Listing>) returns (r: Parsed<seq<TextEdge>>)
    requires forall i :: 0 <= i < |ls| ==> ListingOk(ls[i])
    ensures r == ParseListings(ls)
  {
    hide ParseFields, Parsable;
    var edges := [];
    var i := 0;
    while i < |ls|
      invariant 0 <= i <= |ls| && ParseListings(ls[..i]) == Legal(edges)
    {
      ListingsNext(ls, i);
      var more := AddSplitDependencies(ls[i].line, ls[i].kind);
      if more.Illegal? {
        ListingsIllegal(ls, i + 1);
        return Illegal;
      }
      edges := edges + more.value;
      i := i + 1;
    }
    assert ls[..i] == ls;
    return Legal(edges);
  }

  // ---------- one more record ----------

  lemma CurrentMore(records: seq<Record>, r: Record, k: nat)
    ensures k < |records| ==>
              (Current(records + [r], k) <==> Current(records, k) && !(Stored(r) && SameRecord(r, records[k])))
    ensures Current(records + [r], |records|) <==> Stored(r)
    ensures k > |records| ==> !Current(records + [r], k)
  {
    hide VersionOrder;
    var all := records + [r];
    assert all[|records|] == r;
    if k < |records| {
      assert all[k] == records[k];
      if Current(all, k) {
        forall j | k < j < |records| && Stored(records[j])
          ensures !SameRecord(records[j], records[k])
        {
          assert all[j] == records[j];
        }
      }
    }
  }

  lemma LastMore(records: seq<Record>, r: Record, name: Key)
    ensures LastStatus(records + [r], name) ==
            if Stored(r) && r.name == name then [r.status] else LastStatus(records, name)
  {
    assert (records + [r])[..|records|] == records;
  }

  // A record that is not stored changes nothing.
  lemma Dropped(db: Db, records: seq<Record>, src: map<nat, nat>, r: Record)
    requires Indexes(db, records, src) && !Stored(r)
    ensures Indexes(db, records + [r], src)
  {
    hide DbValid, NoTwins, From, LastStatus, SameRecord, Stored;
    forall k: nat
      ensures Current(records + [r], k) <==> Current(records, k)
    {
      CurrentMore(records, r, k);
    }
    forall name: Key
      ensures LastStatus(records + [r], name) == LastStatus(records, name)
    {
      LastMore(records, r, name);
    }
  }

  // ---------- entering the package of a record ----------

  lemma NamesPart(db: Db)
    requires DbValid(db)
    ensures NamesValid(db.names, db.bits)
  {
  }

  // New names leave everything as it is listed.
  lemma ListedGrow(db: Db, names': seq<Slot<Key>>, records: seq<Record>, src: map<nat, nat>)
    requires DbValid(db) && Listed(db, records, src) && Grows(db.names, names') && NamesValid(names', db.bits)
    ensures Listed(db.(names := names'), records, src)
  {
    hide DbValid, Current, From, NamesValid;
    var db' := db.(names := names');
    ValidParts(db);
    forall a: nat
      ensures HasPackage(db', a) <==> HasPackage(db, a)
      ensures HasPackage(db, a) ==> a in src && Current(records, src[a]) && src[a] < |records| && From(db', a, records[src[a]])
    {
      if HasPackage(db, a) {
        CurrentRange(records, src[a]);
        FromGrow(db, names', a, records[src[a]]);
      }
    }
  }

  lemma CurrentRange(records: seq<Record>, k: nat)
    ensures Current(records, k) ==> k < |records|
  {
  }

  lemma FromGrow(db: Db, names': seq<Slot<Key>>, a: nat, r: Record)
    requires DbValid(db) && Grows(db.names, names') && NamesValid(names', db.bits) && HasPackage(db, a) && From(db, a, r)
    ensures HasPackage(db.(names := names'), a) && From(db.(names := names'), a, r)
  {
    hide NamesValid, PackagesValid, StatusValid, Grouped, NumberOf, ParseListings, AllPresent, RecordOk;
    InternStays(db.names, names', db.bits, RecordEdges(r).value);
  }

  lemma StatusListedGrow(db: Db, names': seq<Slot<Key>>, records: seq<Record>)
    requires DbValid(db) && StatusListed(db, records) && Grows(db.names, names')
    ensures StatusListed(db.(names := names'), records)
  {
    hide NamesValid, PackagesValid, Grouped, LastStatus, StatusValid;
    var db' := db.(names := names');
    ValidParts(db);
    StatusGrow(db, names');
    forall name: Key | LastStatus(records, name) != []
      ensures SomeStatus(db', name)
    {
      var s: nat :| HasStatus(db, s) && StatusName(db, s) == name;
      assert HasStatus(db', s) && StatusName(db', s) == name;
    }
  }

  // Two slots that stand for the same version of a package are one.
  lemma SameSlot(db: Db, a: nat, b: nat, r: Record, q: Record)
    requires NamesValid(db.names, db.bits) && |db.packages| == PACKAGE_HASH_PRIME + 1 && NoTwins(db.names, db.packages)
    requires HasPackage(db, a) && HasPackage(db, b)
    requires From(db, a, r) && From(db, b, q) && SameRecord(r, q)
    ensures a == b
  {
    hide NumberOf, ParseListings, AllPresent, RecordOk, VersionOrder, InternAll, NamesValid;
    var p, q := db.packages[a].item, db.packages[b].item;
    NamesInjective(db.names, db.bits, p.name, q.name);
    assert SamePackage(db.names, p, q);
  }

  // The new package takes the place of the record that it replaces.
  lemma ListedStored(db: Db, records: seq<Record>, src: map<nat, nat>, a: nat, node: Package, r: Record)
    requires DbValid(db) && Listed(db, records, src)
    requires Named(db.names, node.name) && Named(db.names, node.version)
    requires PackageFound(db.names, db.packages, db.bits, node.name, node.version, VerEqual, a)
    requires var db' := db.(packages := db.packages[a := Used(node)]);
             |db'.packages| == PACKAGE_HASH_PRIME + 1 && NoTwins(db'.names, db'.packages) && HasPackage(db', a) && From(db', a, r)
    ensures Listed(db.(packages := db.packages[a := Used(node)]), records + [r], src[a := |records|])
  {
    hide DbValid, NoTwins, Current, From, SameRecord, Reached, SomeSuits, Suits;
    var db', src', all := db.(packages := db.packages[a := Used(node)]), src[a := |records|], records + [r];
    NamesPart(db);
    CurrentMore(records, r, 0);
    StoredFrom(db', a, r);
    forall b: nat | HasPackage(db', b)
      ensures b in src' && Current(all, src'[b]) && src'[b] < |all| && From(db', b, all[src'[b]])
    {
      if b != a {
        assert HasPackage(db, b);
        var k := src[b];
        CurrentRange(records, k);
        FromElsewhere(db, a, node, b, records[k]);
        CurrentMore(records, r, k);
        if SameRecord(r, records[k]) {
          SameSlot(db', a, b, r, records[k]);
        }
      }
    }
    forall k: nat | Current(all, k)
      ensures exists b: nat :: HasPackage(db', b) && b in src' && src'[b] == k
    {
      CurrentMore(records, r, k);
      if k < |records| {
        var b: nat :| HasPackage(db, b) && b in src && src[b] == k;
        Replaced(db, a, node, r, records[k], b);
        assert HasPackage(db', b) && src'[b] == k;
      } else {
        assert src'[a] == k;
      }
    }
  }

  lemma StoredFrom(db: Db, a: nat, r: Record)
    requires HasPackage(db, a) && From(db, a, r)
    ensures Stored(r) && PackageName(db, a) == r.name && IsAt(db.names, db.packages[a].item.version, r.version)
  {
  }

  lemma FromElsewhere(db: Db, a: nat, node: Package, b: nat, r: Record)
    requires a < |db.packages| && b != a && HasPackage(db, b) && From(db, b, r)
    ensures HasPackage(db.(packages := db.packages[a := Used(node)]), b) &&
        From(db.(packages := db.packages[a := Used(node)]), b, r)
  {
    hide NumberOf, ParseListings, AllPresent, RecordOk, InternAll;
  }

  // What was in the slot is replaced by an equal version.
  lemma Replaced(db: Db, a: nat, node: Package, r: Record, was: Record, b: nat)
    requires Named(db.names, node.name) && Named(db.names, node.version)
    requires PackageFound(db.names, db.packages, db.bits, node.name, node.version, VerEqual, a)
    requires HasPackage(db, b) && From(db, b, was) && !SameRecord(r, was)
    requires db.names[node.name].item == r.name && db.names[node.version].item == r.version
    ensures b != a
  {
    hide NumberOf, ParseListings, AllPresent, RecordOk, InternAll, VersionOrder, Reached, SomeSuits;
    VersionPreorder(r.version, was.version, []);
  }

  // ---------- entering the status of a record ----------

  lemma StatusListedStored(db: Db, records: seq<Record>, a: nat, node: Package)
    requires DbValid(db) && StatusListed(db, records)
    requires a < |db.packages|
    requires var db' := db.(packages := db.packages[a := Used(node)]);
             && (forall s :: HasStatus(db, s) <==> HasStatus(db', s))
             && (forall s :: HasStatus(db, s) ==> StatusName(db', s) == StatusName(db, s))
    ensures StatusListed(db.(packages := db.packages[a := Used(node)]), records)
  {
    hide DbValid, LastStatus;
    var db' := db.(packages := db.packages[a := Used(node)]);
    forall name: Key | LastStatus(records, name) != []
      ensures SomeStatus(db', name)
    {
      var s: nat :| HasStatus(db, s) && StatusName(db, s) == name;
      assert HasStatus(db', s) && StatusName(db', s) == name;
    }
  }

  lemma StatusListedMore(db: Db, records: seq<Record>, a: nat, node: StatusNode, r: Record)
    requires StatusValid(db) && StatusListed(db, records) && HasPackage(db, node.package) && Named(db.names, node.status)
    requires StatusFound(db, PackageName(db, node.package), a) && Stored(r)
    requires PackageName(db, node.package) == r.name && db.names[node.status].item == r.status
    ensures StatusListed(db.(status := db.status[a := Used(node)]), records + [r])
  {
    hide StatusValid, LastStatus, Reached;
    var db', all := db.(status := db.status[a := Used(node)]), records + [r];
    NewStatus(db, a, node);
    forall s: nat | HasStatus(db', s)
      ensures LastStatus(all, StatusName(db', s)) == [StatusText(db', s)]
    {
      LastMore(records, r, StatusName(db', s));
    }
    forall name: Key | LastStatus(all, name) != []
      ensures SomeStatus(db', name)
    {
      LastMore(records, r, name);
      if name == r.name {
        assert HasStatus(db', a);
      } else {
        var s: nat :| HasStatus(db, s) && StatusName(db, s) == name;
        assert HasStatus(db', s) && StatusName(db', s) == name;
      }
    }
  }

  lemma ListedStatus(db: Db, status': seq<Slot<StatusNode>>, records: seq<Record>, src: map<nat, nat>)
    requires Listed(db, records, src)
    ensures Listed(db.(status := status'), records, src)
  {
    hide Current, NumberOf, ParseListings, AllPresent, RecordOk, InternAll;
    var db' := db.(status := status');
    assert forall a :: HasPackage(db', a) <==> HasPackage(db, a);
    forall a: nat | HasPackage(db, a)
      ensures a in src && Current(records, src[a]) && src[a] < |records| && From(db', a, records[src[a]])
    {
      CurrentRange(records, src[a]);
    }
  }

  // ---------- index_status_file ----------

  // The strings of the first `n` edges.
  function EdgesStrings(es: seq<TextEdge>, n: nat): (r: set<Key>)
    requires n <= |es|
    ensures forall i :: 0 <= i < n ==> EdgeStrings(es[i]) <= r
  {
    if n == 0 then {} else EdgesStrings(es, n - 1) + EdgeStrings(es[n - 1])
  }

  // The names that a record needs.
  function Strings(r: Record): set<Key>
  {
    {UNKNOWN, r.name, r.version, r.status} +
    match RecordEdges(r)
    case Illegal => {}
    case Legal(es) => EdgesStrings(es, |es|)
  }

  ghost function CurrentSet(records: seq<Record>): set<nat>
  {
    set k: nat | k < |records| && Current(records, k)
  }

  // The package names of the records.
  function RecordNames(records: seq<Record>): set<Key>
  {
    set k: nat | k < |records| :: records[k].name
  }

  // Intern the strings of a record.
  method FillNode(db: PackageDb, r: Record, es: seq<TextEdge>, ghost all: set<Key>) returns (node: Package, known: bool)
    requires NamesValid(db.names[..], db.bits) && Within(db.names[..], all)
    requires RecordEdges(r) == Legal(es) && Strings(r) <= all
    modifies db.names
    ensures NamesValid(db.names[..], db.bits) && Grows(old(db.names[..]), db.names[..]) && Within(db.names[..], all)
    ensures IsAt(db.names[..], node.name, r.name) && IsAt(db.names[..], node.version, r.version)
    ensures AllPresent(db.names[..], es) && node.edges == InternAll(NumberOf(db.names[..]), es)
    ensures known <==> Stored(r)
  {
    hide NamesValid, Within, NumberOf, AllPresent, Grows, InternAll, IsAt, Present, RecordEdges, EdgesStrings, EdgeStrings;
    ghost var t0 := db.names[..];
    var unknown := Enter(db.names, db.bits, UNKNOWN, all);
    ghost var t1 := db.names[..];
    var name := Enter(db.names, db.bits, r.name, all);
    ghost var t2 := db.names[..];
    GrowsTrans(t0, t1, t2);
    var edges := InternEdges(db.names, db.bits, es, all);
    ghost var t3 := db.names[..];
    GrowsTrans(t0, t2, t3);
    var version := Enter(db.names, db.bits, r.version, all);
    ghost var t4 := db.names[..];
    GrowsTrans(t0, t3, t4);
    GrowsTrans(t2, t3, t4);
    GrowsTrans(t1, t2, t4);
    StaysAt(t2, t4, name, r.name);
    StaysAt(t1, t4, unknown, UNKNOWN);
    InternStays(t3, t4, db.bits, es);
    SameNumber(t4, db.bits, version, r.version, unknown, UNKNOWN);
    node := Package(name, version, edges);
    known := version != unknown;
  }

  lemma StaysAt(names: seq<Slot<Key>>, names': seq<Slot<Key>>, a: nat, key: Key)
    requires Grows(names, names') && IsAt(names, a, key)
    ensures IsAt(names', a, key)
  {
  }

  lemma SameNumber(names: seq<Slot<Key>>, bits: nat, a: nat, x: Key, b: nat, y: Key)
    requires NamesValid(names, bits) && IsAt(names, a, x) && IsAt(names, b, y)
    ensures a == b <==> x == y
  {
    hide NamesValid;
    NamesInjective(names, bits, a, b);
  }

  // The tables when the names of a record are entered.
  lemma IndexesGrow(db: Db, names': seq<Slot<Key>>, records: seq<Record>, src: map<nat, nat>)
    requires Indexes(db, records, src) && Grows(db.names, names') && NamesValid(names', db.bits)
    ensures Indexes(db.(names := names'), records, src)
  {
    hide DbValid, Listed, StatusListed, NoTwins, NamesValid, Grows;
    ValidParts(db);
    NamesGrow(db, names');
    ListedGrow(db, names', records, src);
    StatusListedGrow(db, names', records);
    NoTwinsGrow(db.names, names', db.packages, db.bits);
  }

  lemma EdgesInOrder(db: Db, r: Record, node: Package)
    requires NamesValid(db.names, db.bits) && RecordOk(r) && RecordEdges(r).Legal?
    requires AllPresent(db.names, RecordEdges(r).value) && node.edges == InternAll(NumberOf(db.names), RecordEdges(r).value)
    ensures EdgesNamed(db, node.edges) && Grouped(node.edges, 0)
  {
    hide NamesValid, ParseListings, Grouped, ListingOk, NumberOf, Present;
    var es, f := RecordEdges(r).value, NumberOf(db.names);
    PackageMeaning(r.listings, f, MetFn(db), es);
    forall i | 0 <= i < |es| && !IsOr(node.edges[i])
      ensures Named(db.names, node.edges[i].name) && Named(db.names, node.edges[i].version)
    {
      assert EdgePresent(db.names, es[i]) && node.edges[i] == Intern(f, es[i]);
      NumberNamed(db.names, es[i].name);
      NumberNamed(db.names, es[i].version);
    }
  }

  lemma NumberNamed(names: seq<Slot<Key>>, key: Key)
    ensures Present(names, key) ==> Named(names, NumberOf(names)(key))
  {
  }

  // The end of fill_package_struct, and what it does to the tables.
  method EnterPackage(db: PackageDb, r: Record, node: Package, ghost records: seq<Record>, ghost src: map<nat, nat>)
    returns (num: nat)
    requires DbValid(db.Contents()) && NoTwins(db.names[..], db.packages[..])
    requires Listed(db.Contents(), records, src) && StatusListed(db.Contents(), records)
    requires Stored(r) && RecordOk(r) && RecordEdges(r).Legal?
    requires IsAt(db.names[..], node.name, r.name) && IsAt(db.names[..], node.version, r.version)
    requires AllPresent(db.names[..], RecordEdges(r).value)
    requires node.edges == InternAll(NumberOf(db.names[..]), RecordEdges(r).value)
    requires |CurrentSet(records + [r])| < PACKAGE_HASH_PRIME
    modifies db.packages
    ensures DbValid(db.Contents()) && NoTwins(db.names[..], db.packages[..])
    ensures Listed(db.Contents(), records + [r], src[num := |records|]) && StatusListed(db.Contents(), records)
    ensures HasPackage(db.Contents(), num) && PackageName(db.Contents(), num) == r.name
  {
    hide DbValid, NoTwins, Listed, StatusListed, CurrentSet, NumberOf, AllPresent, ParseListings, RecordOk, InternAll,
         PackagesValid,
         PackageFound, SomeSuits, Suits, StatusValid, Grouped, EdgesNamed, NamesValid;
    ghost var d := db.Contents();
    ValidParts(d);
    NamesPart(d);
    EdgesInOrder(d, r, node);
    num := StorePackage(db.names, db.packages, db.bits, node);
    assert db.Contents() == d.(packages := d.packages[num := Used(node)]);
    assert From(db.Contents(), num, r);
    ListedStored(d, records, src, num, node, r);
    PackageRoom(db.Contents(), records + [r], src[num := |records|]);
    PackageKept(d, num, node);
    StatusListedStored(d, records, num, node);
  }

  // Each slot stands for another record.
  lemma PackageRoom(db: Db, records: seq<Record>, src: map<nat, nat>)
    requires Listed(db, records, src) && NamesValid(db.names, db.bits) && PackagesValid(db.names, db.packages, db.bits)
    requires |db.packages| == PACKAGE_HASH_PRIME + 1 && NoTwins(db.names, db.packages)
    requires |CurrentSet(records)| < PACKAGE_HASH_PRIME
    ensures SlotLeft(db.packages, PACKAGE_HASH_PRIME)
  {
    hide NamesValid, NoTwins, Current, From, SlotLeft;
    PackagesSize(db.names, db.packages, db.bits);
    var key := (a: nat) => if a in src then src[a] else 0;
    forall a | 0 <= a < PACKAGE_HASH_PRIME && db.packages[a].Used?
      ensures HasPackage(db, a) && key(a) in CurrentSet(records)
    {
      CurrentRange(records, src[a]);
    }
    forall a, b | 0 <= a < b < PACKAGE_HASH_PRIME && db.packages[a].Used? && db.packages[b].Used?
      ensures key(a) != key(b)
    {
      assert HasPackage(db, a) && HasPackage(db, b);
      CurrentRange(records, src[a]);
      CurrentRange(records, src[b]);
      if key(a) == key(b) {
        SameItself(records[src[a]]);
        SameSlot(db, a, b, records[src[a]], records[src[b]]);
      }
    }
    LeavesSlot(db.packages, PACKAGE_HASH_PRIME, key, CurrentSet(records));
  }

  lemma SameItself(r: Record)
    ensures SameRecord(r, r)
  {
    hide VersionOrder;
    VersionPreorder(r.version, r.version, []);
  }

  // The rest of index_status_file for one record.
  method EnterStatus(db: PackageDb, r: Record, num: nat, ghost records: seq<Record>, ghost src: map<nat, nat>,
      ghost all: set<Key>)
    requires DbValid(db.Contents()) && NoTwins(db.names[..], db.packages[..])
    requires Listed(db.Contents(), records + [r], src) && StatusListed(db.Contents(), records) && Stored(r)
    requires HasPackage(db.Contents(), num) && PackageName(db.Contents(), num) == r.name
    requires Within(db.names[..], all) && r.status in all && |RecordNames(records + [r])| < STATUS_HASH_PRIME
    modifies db.names, db.status
    ensures Indexes(db.Contents(), records + [r], src) && Within(db.names[..], all)
  {
    hide DbValid, NoTwins, Listed, StatusListed, Within, RecordNames, PackagesValid, StatusValid, NamesValid, Grows,
         NumberOf, Present,
         StatusFound;
    ghost var d := db.Contents();
    ValidParts(d);
    NamesPart(d);
    var status := Enter(db.names, db.bits, r.status, all);
    ghost var d1 := db.Contents();
    assert d1 == d.(names := db.names[..]);
    NamesGrow(d, d1.names);
    ListedGrow(d, d1.names, records + [r], src);
    StatusListedGrow(d, d1.names, records);
    NoTwinsGrow(d.names, d1.names, d.packages, d.bits);
    NameStays(d, d1.names, num);
    ValidParts(d1);
    var a := db.SearchStatus(db.names[db.packages[num].item.name].item);
    FoundRange(d1, r.name, a);
    ghost var node := StatusNode(num, status);
    db.status[a] := Used(StatusNode(num, status));
    assert db.Contents() == d1.(status := d1.status[a := Used(node)]);
    StatusListedMore(d1, records, a, node, r);
    StatusRoom(d1, records, a, node, r);
    StatusKept(d1, a, node);
    ListedStatus(d1, d1.status[a := Used(node)], records + [r], src);
  }

  // Each slot stands for another package name.
  lemma StatusRoom(db: Db, records: seq<Record>, a: nat, node: StatusNode, r: Record)
    requires StatusValid(db) && HasPackage(db, node.package) && Named(db.names, node.status)
    requires StatusFound(db, PackageName(db, node.package), a)
    requires StatusListed(db.(status := db.status[a := Used(node)]), records + [r])
    requires |RecordNames(records + [r])| < STATUS_HASH_PRIME
    ensures SlotLeft(db.status[a := Used(node)], STATUS_HASH_PRIME)
  {
    hide Placed, Reached, LastStatus, RecordNames, SlotLeft;
    var db', all := db.(status := db.status[a := Used(node)]), records + [r];
    NewStatus(db, a, node);
    var key := StatusKey(db');
    forall s | 0 <= s < STATUS_HASH_PRIME && db'.status[s].Used?
      ensures HasStatus(db', s) && key(s) == StatusName(db', s) && key(s) in RecordNames(all)
    {
      LastNamed(all, StatusName(db', s));
    }
    LeavesSlot(db'.status, STATUS_HASH_PRIME, key, RecordNames(all));
  }

  lemma {:induction false} LastNamed(records: seq<Record>, name: Key)
    ensures LastStatus(records, name) != [] ==> name in RecordNames(records)
    decreases |records|
  {
    if records != [] {
      var n := |records| - 1;
      LastNamed(records[..n], name);
      if name in RecordNames(records[..n]) {
        var k :| 0 <= k < n && records[..n][k].name == name;
        assert records[k].name == name;
      }
      assert records[n].name in RecordNames(records);
    }
  }

  lemma FoundRange(db: Db, name: Key, a: nat)
    requires StatusFound(db, name, a)
    ensures a < STATUS_HASH_PRIME < |db.status|
  {
  }

  lemma NameStays(db: Db, names': seq<Slot<Key>>, a: nat)
    requires HasPackage(db, a) && Grows(db.names, names')
    ensures HasPackage(db.(names := names'), a) && PackageName(db.(names := names'), a) == PackageName(db, a)
  {
  }

  // One record of the status file; an illegal operator ends the program.
  method AddRecord(db: PackageDb, r: Record, ghost records: seq<Record>, ghost src: map<nat, nat>, ghost all: set<Key>)
    returns (legal: bool, ghost src': map<nat, nat>)
    requires Indexes(db.Contents(), records, src) && RecordOk(r)
    requires Within(db.names[..], all) && Strings(r) <= all
    requires |CurrentSet(records + [r])| < PACKAGE_HASH_PRIME && |RecordNames(records + [r])| < STATUS_HASH_PRIME
    modifies db.names, db.packages, db.status
    ensures legal <==> RecordEdges(r).Legal?
    ensures legal ==> Indexes(db.Contents(), records + [r], src') && Within(db.names[..], all)
  {
    hide DbValid, NoTwins, Listed, StatusListed, Within, CurrentSet, RecordNames, NumberOf, AllPresent, ParseListings,
         RecordOk, InternAll,
         NamesValid, Grows,
         IsAt;
    src' := src;
    RecordListings(r);
    var edges := ReadListings(r.listings);
    if edges.Illegal? {
      return false, src;
    }
    legal := true;
    ghost var d := db.Contents();
    NamesPart(d);
    assert r.status in Strings(r);
    var node, known := FillNode(db, r, edges.value, all);
    ghost var d1 := db.Contents();
    assert d1 == d.(names := d1.names);
    IndexesGrow(d, d1.names, records, src);
    if !known {
      Dropped(d1, records, src, r);
      return;
    }
    var num := EnterPackage(db, r, node, records, src);
    src' := src[num := |records|];
    EnterStatus(db, r, num, records, src', all);
  }

  lemma RecordListings(r: Record)
    requires RecordOk(r)
    ensures forall i :: 0 <= i < |r.listings| ==> ListingOk(r.listings[i])
  {
  }
}
