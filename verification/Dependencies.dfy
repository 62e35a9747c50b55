/** Dependency checking of dpkg: search_status_hashtable,
    package_satisfies_dependency, search_for_provides and the dependency phase
    of check_deps. */
module Dependencies {
  import opened Arith
  import opened Version
  import opened Probing
  import opened PackageTables

  // Kinds of edges.
  const PRE_DEPENDS: nat := 1
  const OR_PRE_DEPENDS: nat := 2
  const DEPENDS: nat := 3
  const OR_DEPENDS: nat := 4
  const PROVIDES: nat := 7

  predicate IsOr(e: Edge)
  {
    e.kind == OR_PRE_DEPENDS || e.kind == OR_DEPENDS
  }

  predicate IsDependency(e: Edge)
  {
    e.kind == PRE_DEPENDS || e.kind == DEPENDS
  }

  // ---------- groups of alternatives ----------

  // The alternatives of an OR edge follow it: as many as its version field says,
  // and of the kind one below.
  ghost predicate Grouped(edges: seq<Edge>, j: nat)
    requires j <= |edges|
    decreases |edges| - j
  {
    if j == |edges| then true
    else if IsOr(edges[j]) then
      && 1 <= edges[j].version <= |edges| - j - 1
      && (forall i :: j < i <= j + edges[j].version ==> edges[i].kind == edges[j].kind - 1)
      && Grouped(edges, j + 1 + edges[j].version)
    else Grouped(edges, j + 1)
  }

  ghost predicate AnyMet(edges: seq<Edge>, met: Edge -> bool, from: nat, to: nat)
    requires from <= to <= |edges|
  {
    exists i :: from <= i < to && met(edges[i])
  }

  // Each dependency from edge `j` on is met, each group by one of its alternatives.
  ghost predicate AllMet(edges: seq<Edge>, met: Edge -> bool, j: nat)
    requires j <= |edges| && Grouped(edges, j)
    decreases |edges| - j
  {
    if j == |edges| then true
    else if IsOr(edges[j]) then
      AnyMet(edges, met, j + 1, j + 1 + edges[j].version) && AllMet(edges, met, j + 1 + edges[j].version)
    else (IsDependency(edges[j]) ==> met(edges[j])) && AllMet(edges, met, j + 1)
  }

  // The scan inside a group: `left` alternatives to go, none met so far.
  ghost predicate Outlook(edges: seq<Edge>, met: Edge -> bool, j: nat, left: nat, inGroup: bool)
  {
    && j <= |edges|
    && if inGroup && left > 0 then
         j + left <= |edges| && Grouped(edges, j + left) && AnyMet(edges, met, j, j + left) && AllMet(edges, met, j + left)
       else Grouped(edges, j) && AllMet(edges, met, j)
  }

  // The state of the scan before edge `j`.
  ghost predicate Scanning(edges: seq<Edge>, j: nat, left: nat, rootKind: nat)
  {
    && j <= |edges|
    && if left > 0 && rootKind != 0 then
         && j + left <= |edges| && Grouped(edges, j + left)
         && (rootKind == OR_PRE_DEPENDS || rootKind == OR_DEPENDS)
         && (forall i :: j <= i < j + left ==> edges[i].kind == rootKind - 1)
       else Grouped(edges, j) && left <= 1
  }

  // What happens at a dependency edge that is met or not.
  lemma ScanStep(edges: seq<Edge>, met: Edge -> bool, j: nat, left: nat, rootKind: nat)
    requires Scanning(edges, j, left, rootKind) && j < |edges| && !IsOr(edges[j]) && left > 0
    ensures rootKind != 0 ==> edges[j].kind == rootKind - 1 && IsDependency(edges[j])
    ensures rootKind == 0 ==> left == 1
    ensures IsDependency(edges[j]) ==> Scanning(edges, j + 1, left - 1, rootKind)
    ensures IsDependency(edges[j]) && !met(edges[j]) ==>
              (Outlook(edges, met, j, left, rootKind != 0) <==> left > 1 && Outlook(edges, met, j + 1, left - 1, rootKind != 0))
    ensures IsDependency(edges[j]) && met(edges[j]) ==>
              j + left <= |edges| && Scanning(edges, j + left, 0, rootKind) &&
              (Outlook(edges, met, j, left, rootKind != 0) <==> Outlook(edges, met, j + left, 0, rootKind != 0))
    ensures !IsDependency(edges[j]) ==>
              Scanning(edges, j + 1, left, rootKind) &&
              (Outlook(edges, met, j, left, rootKind != 0) <==> Outlook(edges, met, j + 1, left, rootKind != 0))
  {
    if rootKind != 0 {
      if met(edges[j]) {
        assert AnyMet(edges, met, j, j + left);
      } else if AnyMet(edges, met, j, j + left) {
        var i :| j <= i < j + left && met(edges[i]);
        assert AnyMet(edges, met, j + 1, j + left);
      }
    }
  }

  // ---------- status words ----------

  const BLANK: Char := 32
  const NEWLINE: Char := 10
  const INSTALL: Key := [105, 110, 115, 116, 97, 108, 108]
  const INSTALLED: Key := [105, 110, 115, 116, 97, 108, 108, 101, 100]

  function DropBlanks(s: Key): (r: Key)
    ensures |r| <= |s| && (r != [] ==> r[0] != BLANK)
  {
    if s != [] && s[0] == BLANK then DropBlanks(s[1..]) else s
  }

  // The string behind the first word.
  function DropWord(s: Key): Key
  {
    DropBlanks(s[Find(s, BLANK, 0)..])
  }

  // Word number `num` of a status: wanted state, flag, current state.
  function Word(s: Key, num: nat): Key
    requires num >= 1
    decreases num
  {
    if num == 1 then
      var w := s[..Find(s, BLANK, 0)];
      w[..Find(w, NEWLINE, 0)]
    else Word(DropWord(s), num - 1)
  }

  method GetStatus(s: Key, num: nat) returns (w: Key)
    requires num >= 1
    ensures w == Word(s, num)
  {
    var rest := s;
    var i := 1;
    while i < num
      invariant 1 <= i <= num && Word(rest, num - i + 1) == Word(s, num)
    {
      rest := rest[Find(rest, BLANK, 0)..];
      rest := DropBlanks(rest);
      i := i + 1;
    }
    w := rest[..Find(rest, BLANK, 0)];
    w := w[..Find(w, NEWLINE, 0)];
  }

  // ---------- the tables together ----------

  datatype StatusNode = StatusNode(package: nat, status: nat)

  datatype Db = Db(names: seq<Slot<Key>>, packages: seq<Slot<Package>>, status: seq<Slot<StatusNode>>, bits: nat)

  predicate HasPackage(db: Db, a: nat)
  {
    a < PACKAGE_HASH_PRIME < |db.packages| && db.packages[a].Used? && Named(db.names, db.packages[a].item.name)
  }

  function PackageName(db: Db, a: nat): Key
    requires HasPackage(db, a)
  {
    db.names[db.packages[a].item.name].item
  }

  predicate HasStatus(db: Db, a: nat)
  {
    && a < STATUS_HASH_PRIME < |db.status| && db.status[a].Used?
    && HasPackage(db, db.status[a].item.package) && Named(db.names, db.status[a].item.status)
  }

  function StatusName(db: Db, a: nat): Key
    requires HasStatus(db, a)
  {
    PackageName(db, db.status[a].item.package)
  }

  function StatusText(db: Db, a: nat): Key
    requires HasStatus(db, a)
  {
    db.names[db.status[a].item.status].item
  }

  ghost function StatusKey(db: Db): nat -> Key
  {
    (a: nat) => if HasStatus(db, a) then StatusName(db, a) else []
  }

  // At most one status for each package name, where a search finds it.
  ghost predicate StatusValid(db: Db)
  {
    && |db.status| == STATUS_HASH_PRIME + 1
    && (forall a :: 0 <= a < STATUS_HASH_PRIME && db.status[a].Used? ==> HasStatus(db, a))
    && Placed(STATUS_HASH_PRIME, db.bits, Occupied(db.status, STATUS_HASH_PRIME), StatusKey(db))
    && (forall a, b :: HasStatus(db, a) && HasStatus(db, b) && StatusName(db, a) == StatusName(db, b) ==> a == b)
  }

  ghost predicate EdgesNamed(db: Db, edges: seq<Edge>)
  {
    forall i :: 0 <= i < |edges| && !IsOr(edges[i]) ==> Named(db.names, edges[i].name) && Named(db.names, edges[i].version)
  }

  ghost predicate DbValid(db: Db)
  {
    && NamesValid(db.names, db.bits) && PackagesValid(db.names, db.packages, db.bits) && StatusValid(db)
    && SlotLeft(db.packages, PACKAGE_HASH_PRIME) && SlotLeft(db.status, STATUS_HASH_PRIME)
    && (forall a :: 0 <= a < PACKAGE_HASH_PRIME && db.packages[a].Used? ==>
          EdgesNamed(db, db.packages[a].item.edges) && Grouped(db.packages[a].item.edges, 0))
  }

  // ---------- what it means for a dependency to be met ----------

  // The status of the packages with that name allows them to satisfy a
  // dependency of the given kind.
  predicate Allows(text: Key, kind: nat)
  {
    if kind == PRE_DEPENDS then Word(text, 3) == INSTALLED
    else kind == DEPENDS && Word(text, 1) == INSTALL
  }

  ghost predicate Ready(db: Db, name: Key, kind: nat)
  {
    exists a: nat :: HasStatus(db, a) && StatusName(db, a) == name && Allows(StatusText(db, a), kind)
  }

  predicate Provides(pk: Package, name: nat)
  {
    exists j :: 0 <= j < |pk.edges| && pk.edges[j].kind == PROVIDES && pk.edges[j].name == name
  }

  ghost predicate Provided(db: Db, e: Edge)
  {
    exists a: nat :: HasPackage(db, a) && Provides(db.packages[a].item, e.name) && Ready(db, PackageName(db, a), e.kind)
  }

  // Directly, by a package of that name and a suitable version, or through a
  // package that provides the name.
  ghost predicate Met(db: Db, e: Edge)
  {
    && Named(db.names, e.name) && Named(db.names, e.version)
    && ((SomeSuits(db.names, db.packages, e.name, e.version, e.op) && Ready(db, db.names[e.name].item, e.kind))
        || Provided(db, e))
  }

  ghost function MetFn(db: Db): Edge -> bool
  {
    (e: Edge) => Met(db, e)
  }

  // The package in slot `a` is wanted.
  ghost predicate Wanted(db: Db, a: nat)
  {
    && HasPackage(db, a)
    && exists s: nat ::
         HasStatus(db, s) && StatusName(db, s) == PackageName(db, a) && Word(StatusText(db, s), 1) == INSTALL
  }

  // Every wanted package has its dependencies met.
  ghost predicate DepsOk(db: Db)
    requires DbValid(db)
  {
    forall a: nat :: a < PACKAGE_HASH_PRIME && Wanted(db, a) ==> AllMet(db.packages[a].item.edges, MetFn(db), 0)
  }

  // ---------- facts about the tables ----------

  lemma ValidParts(db: Db)
    requires DbValid(db)
    ensures PackagesValid(db.names, db.packages, db.bits) && StatusValid(db)
    ensures |db.packages| == PACKAGE_HASH_PRIME + 1 && |db.status| == STATUS_HASH_PRIME + 1 && |db.names| == NAME_HASH_PRIME + 1
    ensures SlotLeft(db.packages, PACKAGE_HASH_PRIME) && SlotLeft(db.status, STATUS_HASH_PRIME)
    ensures forall a :: 0 <= a < PACKAGE_HASH_PRIME && db.packages[a].Used? ==> HasPackage(db, a)
    ensures forall a :: 0 <= a < STATUS_HASH_PRIME && db.status[a].Used? ==> HasStatus(db, a)
  {
    hide Placed;
  }

  lemma ValidEdges(db: Db, a: nat)
    requires DbValid(db) && a < PACKAGE_HASH_PRIME && db.packages[a].Used?
    ensures EdgesNamed(db, db.packages[a].item.edges) && Grouped(db.packages[a].item.edges, 0)
  {
    hide Placed, Grouped;
  }

  // With one status per name, the one found decides.
  lemma ReadyIs(db: Db, name: Key, kind: nat, a: nat)
    requires StatusValid(db) && a < STATUS_HASH_PRIME
    requires db.status[a].Free? ==> !SomeStatus(db, name)
    requires db.status[a].Used? ==> HasStatus(db, a) && StatusName(db, a) == name
    ensures Ready(db, name, kind) <==> db.status[a].Used? && Allows(StatusText(db, a), kind)
  {
    hide Placed, Allows;
    if Ready(db, name, kind) {
      var b: nat :| HasStatus(db, b) && StatusName(db, b) == name && Allows(StatusText(db, b), kind);
      assert SomeStatus(db, name);
    }
  }

  ghost predicate SomeStatus(db: Db, name: Key)
  {
    exists a: nat :: HasStatus(db, a) && StatusName(db, a) == name
  }

  ghost function StatusSlots(db: Db, name: Key): set<nat>
  {
    set a: nat | a < STATUS_HASH_PRIME && HasStatus(db, a) && StatusName(db, a) == name
  }

  // The result of a search for a status.
  ghost predicate StatusFound(db: Db, name: Key, a: nat)
  {
    && a < STATUS_HASH_PRIME < |db.status|
    && (db.status[a].Free? ==>
          !SomeStatus(db, name) && Reached(name, STATUS_HASH_PRIME, db.bits, Occupied(db.status, STATUS_HASH_PRIME), a))
    && (db.status[a].Used? ==> HasStatus(db, a) && StatusName(db, a) == name)
  }

  lemma StatusMissing(db: Db, name: Key, k: nat, start: nat, dec: nat)
    requires StatusValid(db) && Hashed(STATUS_HASH_PRIME, start, dec)
    requires start == StartOf(name, STATUS_HASH_PRIME, db.bits) && dec == DecrementOf(name, STATUS_HASH_PRIME, db.bits)
    requires Passed(STATUS_HASH_PRIME, start, dec, Occupied(db.status, STATUS_HASH_PRIME), StatusSlots(db, name), k)
    requires db.status[Probe(STATUS_HASH_PRIME, start, dec, k)].Free?
    ensures StatusFound(db, name, Probe(STATUS_HASH_PRIME, start, dec, k))
  {
    hide Placed, Reached, StartOf, DecrementOf, Probe, Passed;
    var p, matching := STATUS_HASH_PRIME, StatusSlots(db, name);
    NoneMatches(p, db.bits, Occupied(db.status, p), StatusKey(db), name, matching, k, start, dec);
    StatusSlotsIs(db, name);
  }

  lemma StatusSlotsIs(db: Db, name: Key)
    ensures SomeStatus(db, name) ==> StatusSlots(db, name) != {}
  {
    if SomeStatus(db, name) {
      var a: nat :| HasStatus(db, a) && StatusName(db, a) == name;
      assert a in StatusSlots(db, name);
    }
  }

  class PackageDb {
    const names: array<Slot<Key>>
    const packages: array<Slot<Package>>
    const status: array<Slot<StatusNode>>
    const bits: nat

    constructor (n: array<Slot<Key>>, p: array<Slot<Package>>, s: array<Slot<StatusNode>>, longBits: nat)
      ensures names == n && packages == p && status == s && bits == longBits
    {
      names, packages, status, bits := n, p, s, longBits;
    }

    ghost function Contents(): Db
      reads names, packages, status
    {
      Db(names[..], packages[..], status[..], bits)
    }

    // The slot of the status for that package name, or where it would go.
    method SearchStatus(key: Key) returns (a: nat)
      requires DbValid(Contents())
      ensures StatusFound(Contents(), key, a)
    {
      hide DbValid, StatusValid, Placed, Reached, StartOf, DecrementOf, Probe, Passed, Prime, StatusFound;
      ghost var db, p := Contents(), STATUS_HASH_PRIME;
      StatusPrime();
      ValidParts(db);
      var start, dec := MakeHash(key, STATUS_HASH_PRIME, bits);
      ghost var occupied, matching := Occupied(db.status, p), StatusSlots(db, key);
      ghost var target :| 0 <= target < p && db.status[target].Free?;
      a := start;
      ghost var k := 0;
      PassedNone(p, start, dec, occupied, matching);
      while status[a].Used?
        invariant 0 <= k < p && a == Probe(p, start, dec, k) < p
        invariant Passed(p, start, dec, occupied, matching, k)
        decreases p - k
      {
        if key == names[packages[status[a].item.package].item.name].item {
          StatusThere(db, key, a);
          return;
        }
        PassedOne(p, start, dec, occupied, matching, k);
        SearchEnds(p, start, dec, occupied, matching, k + 1, target);
        a := Step(STATUS_HASH_PRIME, a, dec);
        k := k + 1;
      }
      StatusMissing(db, key, k, start, dec);
    }

    method PackageSatisfies(package: nat, kind: nat) returns (ok: bool)
      requires DbValid(Contents()) && HasPackage(Contents(), package)
      ensures ok == Ready(Contents(), PackageName(Contents(), package), kind)
    {
      hide DbValid, StatusValid, Ready, Word, Reached;
      ghost var db := Contents();
      ValidParts(db);
      var key := names[packages[package].item.name].item;
      var a := SearchStatus(key);
      ReadyIs(db, key, kind, a);
      if status[a].Free? {
        return false;
      }
      var text := names[status[a].item.status].item;
      if kind == PRE_DEPENDS {
        var w := GetStatus(text, 3);
        return w == INSTALLED;
      }
      if kind == DEPENDS {
        var w := GetStatus(text, 1);
        return w == INSTALL;
      }
      return false;
    }

    // The next package after slot `startAt` that provides the name, or -1.
    method SearchForProvides(needle: nat, startAt: int) returns (a: int)
      requires packages.Length == PACKAGE_HASH_PRIME + 1 && -1 <= startAt < PACKAGE_HASH_PRIME
      ensures a == -1 || (startAt < a < PACKAGE_HASH_PRIME && packages[a].Used? && Provides(packages[a].item, needle))
      ensures forall b :: startAt < b < (if a == -1 then PACKAGE_HASH_PRIME else a) && packages[b].Used? ==>
                !Provides(packages[b].item, needle)
    {
      var i := startAt + 1;
      while i < PACKAGE_HASH_PRIME
        invariant startAt < i <= PACKAGE_HASH_PRIME
        invariant forall b :: startAt < b < i && packages[b].Used? ==> !Provides(packages[b].item, needle)
      {
        if packages[i].Used? {
          var p := packages[i].item;
          var j := 0;
          while j < |p.edges|
            invariant 0 <= j <= |p.edges|
            invariant forall k :: 0 <= k < j ==> !(p.edges[k].kind == PROVIDES && p.edges[k].name == needle)
          {
            if p.edges[j].kind == PROVIDES && p.edges[j].name == needle {
              return i;
            }
            j := j + 1;
          }
        }
        i := i + 1;
      }
      return -1;
    }

    // Whether some provider can satisfy the dependency.
    method ProviderMeets(e: Edge) returns (ok: bool)
      requires DbValid(Contents())
      ensures ok == Provided(Contents(), e)
    {
      hide DbValid, StatusValid, Ready, Provides;
      ghost var db := Contents();
      ValidParts(db);
      var provider := -1;
      while true
        invariant -1 <= provider < PACKAGE_HASH_PRIME
        invariant forall b: nat :: b <= provider && HasPackage(db, b) && Provides(db.packages[b].item, e.name) ==>
                    !Ready(db, PackageName(db, b), e.kind)
        decreases PACKAGE_HASH_PRIME - provider
      {
        var last := provider;
        provider := SearchForProvides(e.name, provider);
        if provider == -1 {
          return false;
        }
        ok := PackageSatisfies(provider, e.kind);
        if ok {
          return;
        }
      }
    }

    // Whether the dependency is met.
    method EdgeMet(e: Edge, packageNum: nat) returns (ok: bool)
      requires DbValid(Contents()) && Named(Contents().names, e.name) && Named(Contents().names, e.version)
      requires PackageFound(Contents().names, Contents().packages, bits, e.name, e.version, e.op, packageNum)
      ensures ok == Met(Contents(), e)
    {
      hide DbValid, StatusValid, Ready, Provided, Reached, Meets, SomeSuits;
      ghost var db := Contents();
      ValidParts(db);
      ok := false;
      if packages[packageNum].Used? {
        ok := PackageSatisfies(packageNum, e.kind);
      }
      if !ok {
        ok := ProviderMeets(e);
      }
    }

    // Scan the edges of one package.
    method ScanEdges(edges: seq<Edge>) returns (ok: bool)
      requires DbValid(Contents()) && EdgesNamed(Contents(), edges) && Grouped(edges, 0)
      ensures ok == AllMet(edges, MetFn(Contents()), 0)
    {
      hide DbValid, Met, Grouped, AllMet, Scanning, Outlook, PackageFound;
      ghost var db, met := Contents(), MetFn(Contents());
      ValidParts(db);
      var left, rootKind := 0, 0;    // rootKind is 0 when there is no OR edge
      ScanStart(edges, met);
      var j := 0;
      while j < |edges|
        invariant 0 <= j <= |edges| && left >= 0 && rootKind >= 0
        invariant Scanning(edges, j, left, rootKind)
        invariant AllMet(edges, met, 0) <==> Outlook(edges, met, j, left, rootKind != 0)
        decreases |edges| - j
      {
        var e := edges[j];
        if IsOr(e) {
          ScanOr(edges, met, j, left, rootKind);
          left := e.version;
          rootKind := e.kind;
          j := j + 1;
          continue;
        }
        if left == 0 {
          ScanAlone(edges, met, j, rootKind);
          left := 1;
          rootKind := 0;
        }
        ScanStep(edges, met, j, left, rootKind);
        var packageNum := SearchPackage(names, packages, bits, e.name, e.version, e.op);
        if IsDependency(e) {
          // an alternative is always of the right kind
          assert rootKind != 0 ==> e.kind == rootKind - 1;
          var found := EdgeMet(e, packageNum);
          left := left - 1;
          if !found && left == 0 {
            return false;
          }
          if found && left != 0 {
            j := j + left;
            left := 0;
          }
        }
        j := j + 1;
      }
      ScanDone(edges, met, left, rootKind);
      return true;
    }

    // The dependency phase of check_deps.
    method CheckDeps() returns (ok: bool)
      requires DbValid(Contents())
      ensures ok == DepsOk(Contents())
    {
      hide DbValid, Met, Grouped, AllMet, StatusValid, Word, EdgesNamed;
      ghost var db := Contents();
      ValidParts(db);
      var i := 0;
      while i < PACKAGE_HASH_PRIME
        invariant 0 <= i <= PACKAGE_HASH_PRIME
        invariant forall a: nat :: a < i && Wanted(db, a) ==>
                    Grouped(db.packages[a].item.edges, 0) && AllMet(db.packages[a].item.edges, MetFn(db), 0)
      {
        if packages[i].Used? {
          ValidEdges(db, i);
          var node := packages[i].item;
          var a := SearchStatus(names[node.name].item);
          WantedIs(db, i, a);
          if status[a].Used? {
            var want := GetStatus(names[status[a].item.status].item, 1);
            if want == INSTALL {
              var met := ScanEdges(node.edges);
              if !met {
                return false;
              }
            }
          }
        }
        i := i + 1;
      }
      return true;
    }
  }

  lemma WantedIs(db: Db, i: nat, a: nat)
    requires StatusValid(db) && HasPackage(db, i) && StatusFound(db, PackageName(db, i), a)
    ensures Wanted(db, i) <==> db.status[a].Used? && Word(StatusText(db, a), 1) == INSTALL
  {
    hide Placed, Word;
    if Wanted(db, i) {
      var s: nat :| HasStatus(db, s) && StatusName(db, s) == PackageName(db, i) && Word(StatusText(db, s), 1) == INSTALL;
      assert SomeStatus(db, PackageName(db, i));
    }
  }

  lemma ScanStart(edges: seq<Edge>, met: Edge -> bool)
    requires Grouped(edges, 0)
    ensures Scanning(edges, 0, 0, 0) && (Outlook(edges, met, 0, 0, false) <==> AllMet(edges, met, 0))
  {
  }

  // An OR edge starts a group.
  lemma ScanOr(edges: seq<Edge>, met: Edge -> bool, j: nat, left: nat, rootKind: nat)
    requires Scanning(edges, j, left, rootKind) && j < |edges| && IsOr(edges[j])
    ensures Scanning(edges, j + 1, edges[j].version, edges[j].kind)
    ensures Outlook(edges, met, j, left, rootKind != 0) <==> Outlook(edges, met, j + 1, edges[j].version, true)
  {
  }

  // Any other edge outside a group stands alone.
  lemma ScanAlone(edges: seq<Edge>, met: Edge -> bool, j: nat, rootKind: nat)
    requires Scanning(edges, j, 0, rootKind)
    ensures Scanning(edges, j, 1, 0)
    ensures Outlook(edges, met, j, 0, rootKind != 0) <==> Outlook(edges, met, j, 1, false)
  {
  }

  lemma ScanDone(edges: seq<Edge>, met: Edge -> bool, left: nat, rootKind: nat)
    requires Scanning(edges, |edges|, left, rootKind)
    ensures Outlook(edges, met, |edges|, left, rootKind != 0)
  {
  }

  lemma StatusThere(db: Db, name: Key, a: nat)
    requires StatusValid(db) && a < STATUS_HASH_PRIME && HasStatus(db, a) && StatusName(db, a) == name
    ensures StatusFound(db, name, a)
  {
    hide Placed;
  }
}
