/** The dependency check of dpkg in terms of the records of the status file: what
    check_deps computes from the tables is what the text of the records says. */
module RecordCheck {
  import opened Version
  import opened Probing
  import opened PackageTables
  import opened Dependencies
  import opened DependencyText
  import opened PackageIndex
  import opened StatusFile

  // ---------- what the records say ----------

  // The status last given for the name allows a dependency of that kind.
  predicate ReadyText(records: seq<Record>, name: Key, kind: nat)
  {
    LastStatus(records, name) != [] && Allows(LastStatus(records, name)[0], kind)
  }

  predicate Wants(records: seq<Record>, name: Key)
  {
    LastStatus(records, name) != [] && Word(LastStatus(records, name)[0], 1) == INSTALL
  }

  predicate ProvidesName(r: Record, name: Key)
  {
    RecordEdges(r).Legal? &&
    exists i :: 0 <= i < |RecordEdges(r).value| && RecordEdges(r).value[i].kind == PROVIDES &&
        RecordEdges(r).value[i].name == name
  }

  ghost predicate HasVersion(records: seq<Record>, e: TextEdge)
  {
    exists k: nat :: Current(records, k) && records[k].name == e.name && Meets(records[k].version, e.version, e.op)
  }

  ghost predicate HasProvider(records: seq<Record>, e: TextEdge)
  {
    exists k: nat :: Current(records, k) && ProvidesName(records[k], e.name) && ReadyText(records, records[k].name, e.kind)
  }

  // An alternative is met by a package of that name, or by one that provides it.
  ghost predicate TextMet(records: seq<Record>, e: TextEdge)
  {
    (HasVersion(records, e) && ReadyText(records, e.name, e.kind)) || HasProvider(records, e)
  }

  ghost predicate FieldText(records: seq<Record>, field: Key, kind: nat)
  {
    exists k :: 0 <= k < |Alternatives(field)| && ParseAlternative(Alternatives(field)[k], kind).Legal? &&
                TextMet(records, ParseAlternative(Alternatives(field)[k], kind).value)
  }

  ghost predicate LineText(records: seq<Record>, l: Listing)
  {
    l.kind == DEPENDS || l.kind == PRE_DEPENDS ==>
      forall j :: 0 <= j < |LineFields(l.line)| ==> FieldText(records, LineFields(l.line)[j], l.kind)
  }

  // Every field of every dependency line of every package that is wanted has an
  // alternative that is met.
  ghost predicate RecordsOk(records: seq<Record>)
  {
    forall k: nat :: Current(records, k) && Wants(records, records[k].name) ==>
      forall i :: 0 <= i < |records[k].listings| ==> LineText(records, records[k].listings[i])
  }

  // ---------- which version the status is about ----------

  // The last record stored under a name, which gave its status.
  ghost predicate IsLast(records: seq<Record>, name: Key, k: nat)
  {
    && k < |records| && Stored(records[k]) && records[k].name == name
    && forall j :: k < j < |records| && Stored(records[j]) ==> records[j].name != name
  }

  // A package that suits has the status itself.
  ghost predicate SameMeets(records: seq<Record>, e: TextEdge)
  {
    exists k: nat :: IsLast(records, e.name, k) && Meets(records[k].version, e.version, e.op) && Allows(records[k].status, e.kind)
  }

  ghost predicate DirectlyMet(records: seq<Record>, e: TextEdge)
  {
    HasVersion(records, e) && ReadyText(records, e.name, e.kind)
  }

  // No two versions of the package are listed.
  ghost predicate OneVersion(records: seq<Record>, name: Key)
  {
    forall j: nat, k: nat ::
      (Current(records, j) && Current(records, k) && records[j].name == name && records[k].name == name) ==> j == k
  }

  lemma {:induction false} LastIs(records: seq<Record>, name: Key) returns (k: nat)
    requires LastStatus(records, name) != []
    ensures IsLast(records, name, k) && LastStatus(records, name) == [records[k].status] && Current(records, k)
    decreases |records|
  {
    hide VersionOrder;
    var n := |records| - 1;
    if Stored(records[n]) && records[n].name == name {
      k := n;
    } else {
      k := LastIs(records[..n], name);
    }
  }

  lemma LastUnique(records: seq<Record>, name: Key, j: nat, k: nat)
    requires IsLast(records, name, j) && IsLast(records, name, k)
    ensures j == k
  {
  }

  // The version and the status are looked up separately. For a package whose
  // status allows it, every dependency that counts as met directly is met by the
  // package with that status if and only if one version of it is listed.
  lemma StatusOfWhich(records: seq<Record>, name: Key, kind: nat)
    requires ReadyText(records, name, kind)
    ensures (forall e: TextEdge :: e.name == name && e.kind == kind && DirectlyMet(records, e) ==> SameMeets(records, e))
            <==> OneVersion(records, name)
  {
    hide Allows, Current, Meets, VersionOrder, IsLast, HasVersion, SameMeets, LastStatus;
    var last := LastIs(records, name);
    CurrentInRange(records);
    if OneVersion(records, name) {
      forall e: TextEdge | e.name == name && e.kind == kind && DirectlyMet(records, e)
        ensures SameMeets(records, e)
      {
        MetByLast(records, e, last);
      }
    }
    if !OneVersion(records, name) {
      var j: nat, k: nat :| Current(records, j) && Current(records, k) && j < |records| && k < |records| &&
          records[j].name == name && records[k].name == name && j != k;
      OtherVersion(records, name, kind, last, if j == last then k else j);
    }
  }

  lemma MetByLast(records: seq<Record>, e: TextEdge, last: nat)
    requires OneVersion(records, e.name) && DirectlyMet(records, e) && IsLast(records, e.name, last) && Current(records, last)
    requires LastStatus(records, e.name) == [records[last].status]
    ensures SameMeets(records, e)
  {
    hide Allows, Current, Meets, IsLast, LastStatus;
    CurrentInRange(records);
    var k: nat :| Current(records, k) && k < |records| && records[k].name == e.name && Meets(records[k].version, e.version, e.op);
    LastInRange(records, e.name, last);
    assert k == last;
  }

  lemma LastInRange(records: seq<Record>, name: Key, k: nat)
    requires IsLast(records, name, k)
    ensures k < |records| && records[k].name == name
  {
  }

  // A dependency on exactly the other version is met only in name.
  lemma OtherVersion(records: seq<Record>, name: Key, kind: nat, last: nat, k: nat)
    requires ReadyText(records, name, kind) && IsLast(records, name, last) && Current(records, last)
    requires Current(records, k) && records[k].name == name && k != last
    ensures var e := TextEdge(VerEqual, kind, name, records[k].version, 0);
            DirectlyMet(records, e) && !SameMeets(records, e)
  {
    hide Allows, VersionOrder, LastStatus;
    var e := TextEdge(VerEqual, kind, name, records[k].version, 0);
    VersionPreorder(records[k].version, records[last].version, []);
    assert Meets(records[k].version, e.version, e.op);
    assert k < last;
    forall j: nat | IsLast(records, name, j)
      ensures !Meets(records[j].version, e.version, e.op)
    {
      LastUnique(records, name, j, last);
    }
  }

  // An example: foo 2 is listed, then foo 1 with the status installed. The
  // pre-dependency on foo (>= 2) counts as met.
  const FOO: Key := [102, 111, 111]
  const INSTALL_OK: Key := INSTALL + [BLANK, 111, 107, BLANK]
  const LISTED: Record := Record(FOO, [50], [], INSTALL_OK)
  const IN_PLACE: Record := Record(FOO, [49], [], INSTALL_OK + INSTALLED)
  const ON_TWO: TextEdge := TextEdge(VerMoreEqual, PRE_DEPENDS, FOO, [50], 0)

  lemma OneBeforeTwo()
    ensures VersionOrder([49], [50]) < 0
  {
  }

  lemma FirstDropped(w: Key, rest: Key)
    requires BLANK !in w && rest != [] && rest[0] != BLANK
    ensures DropWord(w + [BLANK] + rest) == rest
  {
    var s := w + [BLANK] + rest;
    assert s[|w|] == BLANK && forall i :: 0 <= i < |w| ==> s[i] == w[i];
    assert Find(s, BLANK, 0) == |w|;
    assert s[|w|..] == [BLANK] + rest;
    assert s[|w|..][0] == BLANK && s[|w|..][1..] == rest;
    assert DropBlanks(rest) == rest;
    assert DropBlanks(s[|w|..]) == DropBlanks(rest);
  }

  lemma FirstWord(w: Key, rest: Key)
    requires BLANK !in w && NEWLINE !in w && (rest == [] || rest[0] == BLANK || rest[0] == NEWLINE)
    ensures Word(w + rest, 1) == w
  {
    var s := w + rest;
    var n := Find(s, BLANK, 0);
    assert forall i :: 0 <= i < |w| ==> s[i] == w[i];
    assert rest != [] ==> s[|w|] == rest[0];
    var t := s[..n];
    assert n >= |w| && t[..|w|] == w;
    assert n > |w| ==> t[|w|] == rest[0];
    assert Find(t, NEWLINE, 0) == |w|;
  }

  // A status is three words: what is wanted, a flag, and the state.
  lemma StatusWords(want: Key, flag: Key, state: Key)
    requires flag != [] && state != []
    requires forall w :: w in [want, flag, state] ==> BLANK !in w && NEWLINE !in w
    ensures var s := want + [BLANK] + (flag + [BLANK] + state);
            Word(s, 1) == want && Word(s, 2) == flag && Word(s, 3) == state
  {
    hide DropWord;
    assert want in [want, flag, state] && flag in [want, flag, state] && state in [want, flag, state];
    var rest := flag + [BLANK] + state;
    var s := want + [BLANK] + rest;
    FirstDropped(want, rest);
    FirstDropped(flag, state);
    assert s == want + ([BLANK] + rest) && rest == flag + ([BLANK] + state) && state + [] == state;
    FirstWord(want, [BLANK] + rest);
    FirstWord(flag, [BLANK] + state);
    FirstWord(state, []);
    WordNext(s, 1);
    WordNext(s, 2);
    WordNext(rest, 1);
  }

  // A pre-dependency asks for the state "installed", a dependency for the wish
  // "install".
  lemma StatusAllows(want: Key, flag: Key, state: Key)
    requires flag != [] && state != []
    requires forall w :: w in [want, flag, state] ==> BLANK !in w && NEWLINE !in w
    ensures var s := want + [BLANK] + (flag + [BLANK] + state);
            && (Allows(s, PRE_DEPENDS) <==> state == [105, 110, 115, 116, 97, 108, 108, 101, 100])
            && (Allows(s, DEPENDS) <==> want == [105, 110, 115, 116, 97, 108, 108])
  {
    hide Word;
    StatusWords(want, flag, state);
  }

  lemma WordNext(s: Key, num: nat)
    requires num >= 1
    ensures Word(s, num + 1) == Word(DropWord(s), num)
  {
  }

  lemma ThirdWord()
    ensures Word(INSTALL_OK + INSTALLED, 3) == INSTALLED
  {
    hide Word;
    var ok: Key := [111, 107];
    assert INSTALL_OK + INSTALLED == INSTALL + [BLANK] + (ok + [BLANK] + INSTALLED);
    StatusWords(INSTALL, ok, INSTALLED);
  }

  lemma InstalledOne()
    ensures var records := [LISTED, IN_PLACE];
            DirectlyMet(records, ON_TWO) && !SameMeets(records, ON_TWO)
  {
    hide VersionOrder, Word;
    var records := [LISTED, IN_PLACE];
    OneBeforeTwo();
    ThirdWord();
    VersionPreorder([50], [50], []);
    VersionPreorder([50], [49], []);
    assert Current(records, 0) && Meets(records[0].version, ON_TWO.version, ON_TWO.op);
    assert LastStatus(records, FOO) == [IN_PLACE.status];
    assert IsLast(records, FOO, 1);
  }

  // ---------- every alternative is among the edges ----------

  lemma FieldHas(field: Key, kind: nat, k: nat)
    requires ParseField(field, kind).Legal? && k < |Alternatives(field)|
    ensures ParseAlternative(Alternatives(field)[k], kind).Legal?
    ensures ParseAlternative(Alternatives(field)[k], kind).value in ParseField(field, kind).value
  {
    hide Tokens, ParseAlternative;
    var edges := ParseAlternatives(Alternatives(field), kind).value;
    assert edges[k] in edges;
  }

  lemma {:induction false} FieldsHas(fields: seq<Key>, kind: nat, j: nat)
    requires ParseFields(fields, kind).Legal? && j < |fields|
    ensures ParseField(fields[j], kind).Legal?
    ensures forall e :: e in ParseField(fields[j], kind).value ==> e in ParseFields(fields, kind).value
    decreases |fields|
  {
    hide ParseField;
    var n := |fields| - 1;
    if j < n {
      FieldsHas(fields[..n], kind, j);
    }
  }

  lemma {:induction false} ListingsHas(ls: seq<Listing>, i: nat)
    requires ParseListings(ls).Legal? && i < |ls|
    ensures ParseFields(LineFields(ls[i].line), ls[i].kind).Legal?
    ensures forall e :: e in ParseFields(LineFields(ls[i].line), ls[i].kind).value ==> e in ParseListings(ls).value
    decreases |ls|
  {
    hide ParseFields;
    var n := |ls| - 1;
    if i < n {
      ListingsHas(ls[..n], i);
    }
  }

  // The strings of each alternative in the record are entered, and it is no OR edge.
  lemma AlternativePresent(names: seq<Slot<Key>>, r: Record, i: nat, j: nat, k: nat)
    requires RecordEdges(r).Legal? && AllPresent(names, RecordEdges(r).value) && i < |r.listings|
    requires j < |LineFields(r.listings[i].line)| && k < |Alternatives(LineFields(r.listings[i].line)[j])|
    ensures var alt := ParseAlternative(Alternatives(LineFields(r.listings[i].line)[j])[k], r.listings[i].kind);
            alt.Legal? && EdgePresent(names, alt.value) && alt.value.kind == r.listings[i].kind
  {
    hide ParseFields, ParseListings, ParseField, ParseAlternatives, EdgePresent, LineFields, Alternatives;
    var kind := r.listings[i].kind;
    var fields := LineFields(r.listings[i].line);
    ListingsHas(r.listings, i);
    FieldsHas(fields, kind, j);
    FieldHas(fields[j], kind, k);
    AlternativeKind(Alternatives(fields[j])[k], kind);
    var alt := ParseAlternative(Alternatives(fields[j])[k], kind);
    var m :| 0 <= m < |RecordEdges(r).value| && RecordEdges(r).value[m] == alt.value;
  }

  lemma AlternativeKind(text: Key, kind: nat)
    ensures ParseAlternative(text, kind).Legal? ==> ParseAlternative(text, kind).value.kind == kind
  {
    hide Find, DropBlanks, DropOpening, OperatorLength, OperatorOf, Before;
  }

  // ---------- the tables say the same ----------

  lemma ReadyIsText(db: Db, records: seq<Record>, name: Key, kind: nat)
    requires StatusListed(db, records)
    ensures Ready(db, name, kind) <==> ReadyText(records, name, kind)
  {
    hide LastStatus, Allows;
    if ReadyText(records, name, kind) {
      var s: nat :| HasStatus(db, s) && StatusName(db, s) == name;
    }
  }

  lemma WantedIsText(db: Db, records: seq<Record>, a: nat)
    requires StatusListed(db, records) && HasPackage(db, a)
    ensures Wanted(db, a) <==> Wants(records, PackageName(db, a))
  {
    hide LastStatus, Word;
    if Wants(records, PackageName(db, a)) {
      var s: nat :| HasStatus(db, s) && StatusName(db, s) == PackageName(db, a);
    }
  }

  lemma NumberHolds(names: seq<Slot<Key>>, key: Key)
    requires Present(names, key)
    ensures IsAt(names, NumberOf(names)(key), key)
  {
  }

  // A number and a name mean the same package.
  lemma NameIsText(db: Db, a: nat, name: Key)
    requires NamesValid(db.names, db.bits) && HasPackage(db, a) && Present(db.names, name)
    ensures db.packages[a].item.name == NumberOf(db.names)(name) <==> PackageName(db, a) == name
  {
    hide NamesValid, NumberOf, Present;
    NumberHolds(db.names, name);
    NamesInjective(db.names, db.bits, db.packages[a].item.name, NumberOf(db.names)(name));
  }

  lemma SuitsIsText(db: Db, records: seq<Record>, src: map<nat, nat>, a: nat, e: TextEdge)
    requires NamesValid(db.names, db.bits) && HasPackage(db, a) && EdgePresent(db.names, e)
    requires e.kind != OR_DEPENDS && e.kind != OR_PRE_DEPENDS && Listed(db, records, src)
    ensures var pk, f := db.packages[a].item, NumberOf(db.names);
            && a in src && Current(records, src[a]) && Named(db.names, pk.version) && Named(db.names, f(e.version))
            && (Suits(db.names, pk, f(e.name), f(e.version), e.op) <==>
                records[src[a]].name == e.name && Meets(records[src[a]].version, e.version, e.op))
  {
    hide NamesValid, NumberOf, Present, Meets, ParseListings, RecordOk, AllPresent, InternAll;
    NumberHolds(db.names, e.version);
    NameIsText(db, a, e.name);
  }

  lemma DirectIsText(db: Db, records: seq<Record>, src: map<nat, nat>, e: TextEdge)
    requires DbValid(db) && Listed(db, records, src) && EdgePresent(db.names, e)
    requires e.kind != OR_DEPENDS && e.kind != OR_PRE_DEPENDS && Named(db.names, NumberOf(db.names)(e.version))
    ensures var f := NumberOf(db.names);
            SomeSuits(db.names, db.packages, f(e.name), f(e.version), e.op) <==> HasVersion(records, e)
  {
    hide DbValid, NumberOf, Meets, Current, From, Suits, EdgePresent;
    ValidParts(db);
    NamesPart(db);
    CurrentInRange(records);
    var f := NumberOf(db.names);
    if SomeSuits(db.names, db.packages, f(e.name), f(e.version), e.op) {
      var a :| 0 <= a < PACKAGE_HASH_PRIME && a < |db.packages| && db.packages[a].Used? &&
          Named(db.names, db.packages[a].item.version) &&
               Suits(db.names, db.packages[a].item, f(e.name), f(e.version), e.op);
      SuitsIsText(db, records, src, a, e);
    }
    if HasVersion(records, e) {
      var k: nat :| Current(records, k) && k < |records| && records[k].name == e.name &&
          Meets(records[k].version, e.version, e.op);
      var a: nat :| HasPackage(db, a) && a in src && src[a] == k;
      SuitsIsText(db, records, src, a, e);
    }
  }

  lemma ProvidesIsText(db: Db, records: seq<Record>, src: map<nat, nat>, a: nat, name: Key)
    requires NamesValid(db.names, db.bits) && HasPackage(db, a) && Present(db.names, name) && Listed(db, records, src)
    ensures a in src && Current(records, src[a]) && records[src[a]].name == PackageName(db, a)
    ensures Provides(db.packages[a].item, NumberOf(db.names)(name)) <==> ProvidesName(records[src[a]], name)
  {
    hide NamesValid, NumberOf, ParseListings, RecordOk, Present;
    var es, edges, f := RecordEdges(records[src[a]]).value, db.packages[a].item.edges, NumberOf(db.names);
    forall j | 0 <= j < |es|
      ensures edges[j].kind == es[j].kind && (edges[j].name == f(name) <==> es[j].name == name)
    {
      assert EdgePresent(db.names, es[j]) && edges[j] == Intern(f, es[j]);
      NumberHolds(db.names, es[j].name);
      NumberHolds(db.names, name);
      SameNumber(db.names, db.bits, f(es[j].name), es[j].name, f(name), name);
    }
  }

  lemma ProvidedIsText(db: Db, records: seq<Record>, src: map<nat, nat>, e: TextEdge)
    requires DbValid(db) && Listed(db, records, src) && StatusListed(db, records) && Present(db.names, e.name)
    ensures Provided(db, Intern(NumberOf(db.names), e)) <==> HasProvider(records, e)
  {
    hide DbValid, NumberOf, From, Provides, ProvidesName, Ready, ReadyText, StatusListed, Present, Current;
    NamesPart(db);
    CurrentInRange(records);
    var x := Intern(NumberOf(db.names), e);
    if Provided(db, x) {
      var a: nat :| HasPackage(db, a) && Provides(db.packages[a].item, x.name) && Ready(db, PackageName(db, a), x.kind);
      ProvidesIsText(db, records, src, a, e.name);
      ReadyIsText(db, records, PackageName(db, a), e.kind);
    }
    if HasProvider(records, e) {
      var k: nat :| Current(records, k) && k < |records| && ProvidesName(records[k], e.name) &&
          ReadyText(records, records[k].name, e.kind);
      var a: nat :| HasPackage(db, a) && a in src && src[a] == k;
      ProvidesIsText(db, records, src, a, e.name);
      ReadyIsText(db, records, PackageName(db, a), e.kind);
    }
  }

  // A dependency is met in the tables exactly when the records say so.
  lemma MetIsText(db: Db, records: seq<Record>, src: map<nat, nat>, e: TextEdge)
    requires Indexes(db, records, src) && EdgePresent(db.names, e) && e.kind != OR_DEPENDS && e.kind != OR_PRE_DEPENDS
    ensures MetFn(db)(Intern(NumberOf(db.names), e)) <==> TextMet(records, e)
  {
    hide DbValid, NumberOf, Listed, StatusListed, Present, HasVersion, HasProvider, SomeSuits, Provided, Ready, ReadyText,
         NoTwins;
    NumberHolds(db.names, e.name);
    NumberHolds(db.names, e.version);
    DirectIsText(db, records, src, e);
    ProvidedIsText(db, records, src, e);
    ReadyIsText(db, records, e.name, e.kind);
  }

  lemma LineIsText(db: Db, records: seq<Record>, src: map<nat, nat>, r: Record, i: nat)
    requires Indexes(db, records, src) && RecordEdges(r).Legal? && AllPresent(db.names, RecordEdges(r).value) && i < |r.listings|
    ensures ListingMet(r.listings[i], NumberOf(db.names), MetFn(db)) <==> LineText(records, r.listings[i])
  {
    hide Indexes, NumberOf, Present, TextMet, Met, ParseListings, AllPresent, ParseAlternative, LineFields, Alternatives,
         Intern, MetFn;
    var l, f, met := r.listings[i], NumberOf(db.names), MetFn(db);
    if l.kind == DEPENDS || l.kind == PRE_DEPENDS {
      forall j | 0 <= j < |LineFields(l.line)|
        ensures FieldMet(LineFields(l.line)[j], l.kind, f, met) <==> FieldText(records, LineFields(l.line)[j], l.kind)
      {
        forall k | 0 <= k < |Alternatives(LineFields(l.line)[j])|
          ensures var alt := ParseAlternative(Alternatives(LineFields(l.line)[j])[k], l.kind);
                  alt.Legal? && (met(Intern(f, alt.value)) <==> TextMet(records, alt.value))
        {
          AlternativePresent(db.names, r, i, j, k);
          MetIsText(db, records, src, ParseAlternative(Alternatives(LineFields(l.line)[j])[k], l.kind).value);
        }
      }
    }
  }

  lemma PackageIsText(db: Db, records: seq<Record>, src: map<nat, nat>, a: nat)
    requires Indexes(db, records, src) && HasPackage(db, a)
    ensures a in src && Current(records, src[a]) && records[src[a]].name == PackageName(db, a)
    ensures AllMet(db.packages[a].item.edges, MetFn(db), 0) <==>
            forall i :: 0 <= i < |records[src[a]].listings| ==> LineText(records, records[src[a]].listings[i])
  {
    hide DbValid, NumberOf, StatusListed, NoTwins, ParseListings, AllPresent, Grouped, AllMet, LineText, ListingMet,
         InternAll, MetFn,
         ListingOk;
    var r, f := records[src[a]], NumberOf(db.names);
    PackageMeaning(r.listings, f, MetFn(db), RecordEdges(r).value);
    forall i | 0 <= i < |r.listings|
      ensures ListingMet(r.listings[i], f, MetFn(db)) <==> LineText(records, r.listings[i])
    {
      LineIsText(db, records, src, r, i);
    }
  }

  // check_deps on the tables decides what the records ask for.
  lemma DepsAreText(db: Db, records: seq<Record>, src: map<nat, nat>)
    requires Indexes(db, records, src)
    ensures DepsOk(db) <==> RecordsOk(records)
  {
    hide NoTwins, From, Grouped, AllMet, LineText, Wants, StatusListed, Wanted, Current, DbValid;
    ValidParts(db);
    if DepsOk(db) {
      forall k: nat | Current(records, k) && k < |records| && Wants(records, records[k].name)
        ensures forall i :: 0 <= i < |records[k].listings| ==> LineText(records, records[k].listings[i])
      {
        var a: nat :| HasPackage(db, a) && a in src && src[a] == k;
        PackageIsText(db, records, src, a);
        WantedIsText(db, records, a);
      }
      CurrentInRange(records);
    }
    if RecordsOk(records) {
      forall a: nat | a < PACKAGE_HASH_PRIME && Wanted(db, a)
        ensures HasPackage(db, a) && Grouped(db.packages[a].item.edges, 0) && AllMet(db.packages[a].item.edges, MetFn(db), 0)
      {
        WantedHas(db, a);
        ValidEdges(db, a);
        PackageIsText(db, records, src, a);
        WantedIsText(db, records, a);
      }
    }
  }

  lemma WantedHas(db: Db, a: nat)
    requires Wanted(db, a)
    ensures HasPackage(db, a)
  {
  }

  lemma CurrentInRange(records: seq<Record>)
    ensures forall k: nat :: Current(records, k) ==> k < |records|
  {
  }

  // ---------- the whole file ----------

  // All names that the first `n` records need.
  function AllStrings(records: seq<Record>, n: nat): (r: set<Key>)
    requires n <= |records|
    ensures forall i :: 0 <= i < n ==> Strings(records[i]) <= r
  {
    if n == 0 then {} else AllStrings(records, n - 1) + Strings(records[n - 1])
  }

  // The tables have room: for all names, for the records that count with a slot to
  // spare, and for a status for each package name with a slot to spare.
  ghost predicate TablesSuffice(records: seq<Record>)
  {
    && |AllStrings(records, |records|)| <= NAME_HASH_PRIME
    && |CurrentSet(records)| < PACKAGE_HASH_PRIME && |RecordNames(records)| < STATUS_HASH_PRIME
  }

  lemma {:induction false} SubsetSize<K>(s: set<K>, t: set<K>)
    requires s <= t
    ensures |s| <= |t|
  {
    assert t == s + (t - s);
  }

  lemma NamesSoFar(records: seq<Record>, n: nat)
    requires n <= |records|
    ensures |RecordNames(records[..n])| <= |RecordNames(records)|
  {
    forall x | x in RecordNames(records[..n])
      ensures x in RecordNames(records)
    {
      var k: nat :| k < n && records[..n][k].name == x;
      assert records[k].name == x;
    }
    SubsetSize(RecordNames(records[..n]), RecordNames(records));
  }

  // A record replaces at most one that counts.
  lemma ReplacesOne(records: seq<Record>, r: Record, j: nat, k: nat)
    requires Current(records, j) && Current(records, k) && SameRecord(r, records[j]) && SameRecord(r, records[k])
    ensures j == k
  {
    hide VersionOrder;
    var u, v, w := r.version, records[j].version, records[k].version;
    VersionPreorder(u, v, w);
    VersionPreorder(u, w, v);
    VersionPreorder(v, w, []);
  }

  // The records that count do not get fewer.
  lemma CountGrows(records: seq<Record>, r: Record)
    ensures |CurrentSet(records)| <= |CurrentSet(records + [r])|
  {
    hide Current, SameRecord;
    var s, t := CurrentSet(records), CurrentSet(records + [r]);
    forall k: nat | k in s
      ensures k in t <==> !(Stored(r) && SameRecord(r, records[k]))
    {
      CurrentMore(records, r, k);
    }
    CurrentMore(records, r, 0);
    if j :| j in s && j !in t {
      forall k | k in s - {j}
        ensures k in t
      {
        if k !in t {
          ReplacesOne(records, r, j, k);
        }
      }
      assert |records| in t && |records| !in s;
      SubsetSize(s - {j} + {|records|}, t);
    } else {
      SubsetSize(s, t);
    }
  }

  lemma {:induction false} CurrentSoFar(records: seq<Record>, n: nat)
    requires n <= |records|
    ensures |CurrentSet(records[..n])| <= |CurrentSet(records)|
    decreases |records| - n
  {
    hide CurrentSet;
    if n == |records| {
      assert records[..n] == records;
    } else {
      assert records[..n + 1] == records[..n] + [records[n]];
      CountGrows(records[..n], records[n]);
      CurrentSoFar(records, n + 1);
    }
  }

  lemma NothingListed(db: Db)
    requires DbValid(db) && NoTwins(db.names, db.packages)
    requires forall a :: 0 <= a < |db.packages| ==> db.packages[a].Free?
    requires forall a :: 0 <= a < |db.status| ==> db.status[a].Free?
    ensures Indexes(db, [], map[])
  {
    hide DbValid, NoTwins;
  }

  // Index a status file and check the dependencies in it. Only an illegal operator
  // is refused; otherwise the answer is what the text of the records says.
  method CheckRecords(records: seq<Record>, bits: nat) returns (r: Parsed<bool>)
    requires forall i :: 0 <= i < |records| ==> RecordOk(records[i])
    requires TablesSuffice(records)
    ensures r.Legal? <==> forall i :: 0 <= i < |records| ==> RecordEdges(records[i]).Legal?
    ensures r.Legal? ==> r.value == RecordsOk(records)
  {
    hide Indexes, ParseListings, RecordOk, AllStrings, Strings, RecordsOk, DbValid, DepsOk, CurrentSet, RecordNames;
    var names := new Slot<Key>[NAME_HASH_PRIME + 1](_ => Free);
    var packages := new Slot<Package>[PACKAGE_HASH_PRIME + 1](_ => Free);
    var status := new Slot<StatusNode>[STATUS_HASH_PRIME + 1](_ => Free);
    var db := new PackageDb(names, packages, status, bits);
    EmptyValid(db.Contents());
    NothingListed(db.Contents());
    ghost var src: map<nat, nat> := map[];
    ghost var all := AllStrings(records, |records|);
    var i := 0;
    while i < |records|
      invariant 0 <= i <= |records| && Indexes(db.Contents(), records[..i], src) && Within(db.names[..], all)
      invariant forall j :: 0 <= j < i ==> RecordEdges(records[j]).Legal?
    {
      assert records[..i + 1] == records[..i] + [records[i]];
      NamesSoFar(records, i + 1);
      CurrentSoFar(records, i + 1);
      var legal;
      legal, src := AddRecord(db, records[i], records[..i], src, all);
      if !legal {
        return Illegal;
      }
      i := i + 1;
    }
    assert records[..i] == records;
    DepsAreText(db.Contents(), records, src);
    IndexesValid(db.Contents(), records, src);
    var ok := db.CheckDeps();
    return Legal(ok);
  }

  lemma IndexesValid(db: Db, records: seq<Record>, src: map<nat, nat>)
    requires Indexes(db, records, src)
    ensures DbValid(db)
  {
  }
}
