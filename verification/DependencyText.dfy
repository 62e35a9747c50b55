/** add_split_dependencies: from the text of a dependency field to edges. */
module DependencyText {
  import opened Version
  import opened Probing
  import opened PackageTables
  import opened Dependencies

  const COMMA: Char := 44
  const BAR: Char := 124
  const OPEN: Char := 40
  const CLOSE: Char := 41
  const ANY: Key := [65, 78, 89]

  // An edge before its strings are entered in the name table; `count` is the
  // number of alternatives after an OR edge.
  datatype TextEdge = TextEdge(op: Operator, kind: nat, name: Key, version: Key, count: nat)

  datatype Parsed<T> = Illegal | Legal(value: T)

  // ---------- strings ----------

  // The pieces between separators, without empty ones.
  function Tokens(s: Key, d: Char): (r: seq<Key>)
    ensures forall i :: 0 <= i < |r| ==> r[i] != []
    decreases |s|
  {
    if s == [] then []
    else if s[0] == d then Tokens(s[1..], d)
    else [s[..Find(s, d, 0)]] + Tokens(s[Find(s, d, 0)..], d)
  }

  function DropOpening(s: Key): Key
  {
    if s != [] && (s[0] == BLANK || s[0] == OPEN) then DropOpening(s[1..]) else s
  }

  // Length of the operator at the front.
  function OperatorLength(s: Key): (r: nat)
    ensures r <= |s|
  {
    if s != [] && (s[0] == 60 || s[0] == 61 || s[0] == 62) then 1 + OperatorLength(s[1..]) else 0
  }

  // The recognised operators; '<' and '>' alone are taken as '<<' and '>>'.
  function OperatorOf(s: Key): Parsed<Operator>
  {
    if s == [61] then Legal(VerEqual)
    else if s == [60] || s == [60, 60] then Legal(VerLess)
    else if s == [60, 61] then Legal(VerLessEqual)
    else if s == [62] || s == [62, 62] then Legal(VerMore)
    else if s == [62, 61] then Legal(VerMoreEqual)
    else Illegal
  }

  // Everything before a blank or the character `d`.
  function Before(s: Key, d: Char): Key
  {
    var t := s[..Find(s, BLANK, 0)];
    t[..Find(t, d, 0)]
  }

  // ---------- one alternative ----------

  function ParseAlternative(text: Key, kind: nat): Parsed<TextEdge>
  {
    var f := DropBlanks(text);
    var v := Find(f, OPEN, 0);
    if v == |f| then Legal(TextEdge(VerAny, kind, Before(f, OPEN), ANY, 0))
    else
      var r := DropOpening(f[v..]);
      var n := OperatorLength(r);
      match OperatorOf(r[..n])
      case Illegal => Illegal
      case Legal(op) => Legal(TextEdge(op, kind, Before(f, OPEN), Before(DropBlanks(r[n..]), CLOSE), 0))
  }

  function ParseAlternatives(alts: seq<Key>, kind: nat): (r: Parsed<seq<TextEdge>>)
    ensures r.Legal? ==> |r.value| == |alts|
    ensures r.Legal? ==> forall i :: 0 <= i < |alts| ==> ParseAlternative(alts[i], kind) == Legal(r.value[i])
  {
    if alts == [] then Legal([])
    else
      match ParseAlternatives(alts[..|alts| - 1], kind)
      case Illegal => Illegal
      case Legal(edges) =>
        match ParseAlternative(alts[|alts| - 1], kind)
        case Illegal => Illegal
        case Legal(e) => Legal(edges + [e])
  }

  // ---------- one group ----------

  function Alternatives(field: Key): seq<Key>
  {
    Tokens(field, BAR)
  }

  predicate NeedsOr(field: Key, kind: nat)
  {
    (kind == DEPENDS || kind == PRE_DEPENDS) && Alternatives(field) != [] && field != Alternatives(field)[0]
  }

  function OrEdge(field: Key, kind: nat, count: nat): TextEdge
  {
    TextEdge(VerNull, kind + 1, field, [], count)
  }

  function ParseField(field: Key, kind: nat): Parsed<seq<TextEdge>>
  {
    match ParseAlternatives(Alternatives(field), kind)
    case Illegal => Illegal
    case Legal(edges) =>
      Legal(if NeedsOr(field, kind) then [OrEdge(field, kind, |Alternatives(field)|)] + edges else edges)
  }

  // ---------- the whole line ----------

  function FieldsOf(tokens: seq<Key>): (r: seq<Key>)
    ensures |r| == |tokens| && forall i :: 0 <= i < |tokens| ==> r[i] == DropBlanks(tokens[i])
  {
    seq(|tokens|, i requires 0 <= i < |tokens| => DropBlanks(tokens[i]))
  }

  function LineFields(line: Key): seq<Key>
  {
    FieldsOf(Tokens(line, COMMA))
  }

  function ParseFields(fields: seq<Key>, kind: nat): Parsed<seq<TextEdge>>
  {
    if fields == [] then Legal([])
    else
      match ParseFields(fields[..|fields| - 1], kind)
      case Illegal => Illegal
      case Legal(edges) =>
        match ParseField(fields[|fields| - 1], kind)
        case Illegal => Illegal
        case Legal(more) => Legal(edges + more)
  }

  // There is something in each field.
  predicate Parsable(line: Key)
  {
    LineFields(line) != [] && forall i :: 0 <= i < |LineFields(line)| ==> Alternatives(LineFields(line)[i]) != []
  }

  // ---------- add_split_dependencies ----------

  lemma AlternativesNext(alts: seq<Key>, kind: nat, n: nat)
    requires n < |alts|
    ensures ParseAlternatives(alts[..n + 1], kind) ==
            match ParseAlternatives(alts[..n], kind)
            case Illegal => Illegal
            case Legal(edges) =>
              match ParseAlternative(alts[n], kind)
              case Illegal => Illegal
              case Legal(e) => Legal(edges + [e])
  {
    assert alts[..n + 1][..n] == alts[..n];
  }

  lemma {:induction false} AlternativesIllegal(alts: seq<Key>, kind: nat, n: nat)
    requires n <= |alts| && ParseAlternatives(alts[..n], kind).Illegal?
    ensures ParseAlternatives(alts, kind).Illegal?
    decreases |alts| - n
  {
    if n == |alts| {
      assert alts[..n] == alts;
    } else {
      AlternativesNext(alts, kind, n);
      AlternativesIllegal(alts, kind, n + 1);
    }
  }

  // The edges of one field, appended to those of the fields before it.
  method AddField(field: Key, kind: nat, before: seq<TextEdge>) returns (r: Parsed<seq<TextEdge>>)
    requires Alternatives(field) != []
    ensures r == match ParseField(field, kind) case Illegal => Illegal case Legal(more) => Legal(before + more)
  {
    hide ParseAlternative, ParseAlternatives, Tokens;
    var alts := Alternatives(field);
    var edges := before;
    var orAt := |before|;
    var hasOr := (kind == DEPENDS || kind == PRE_DEPENDS) && field != alts[0];
    if hasOr {
      edges := edges + [OrEdge(field, kind, 0)];
    }
    ghost var done := [];
    var i := 0;
    assert ParseAlternatives(alts[..0], kind) == Legal([]) by { NoAlternatives(kind); }
    while true
      invariant 0 <= i < |alts| && ParseAlternatives(alts[..i], kind) == Legal(done)
      invariant edges == before + (if hasOr then [OrEdge(field, kind, i)] else []) + done
      decreases |alts| - i
    {
      var alt := ParseAlternative(alts[i], kind);
      AlternativesNext(alts, kind, i);
      if alt.Illegal? {
        AlternativesIllegal(alts, kind, i + 1);
        return Illegal;
      }
      BumpOr(before, field, kind, i, done);
      if hasOr {
        edges := edges[orAt := edges[orAt].(count := edges[orAt].count + 1)];
      }
      Regroup(before + (if hasOr then [OrEdge(field, kind, i + 1)] else []), done, [alt.value]);
      edges := edges + [alt.value];
      done := done + [alt.value];
      i := i + 1;
      assert edges == before + (if hasOr then [OrEdge(field, kind, i)] else []) + done;
      if i == |alts| {
        break;
      }
    }
    assert alts[..i] == alts;
    ghost var root := if hasOr then [OrEdge(field, kind, i)] else [];
    FieldIs(field, kind, root, done);
    Regroup(before, root, done);
    return Legal(edges);
  }

  lemma FieldIs(field: Key, kind: nat, root: seq<TextEdge>, done: seq<TextEdge>)
    requires ParseAlternatives(Alternatives(field), kind) == Legal(done)
    requires root == if NeedsOr(field, kind) then [OrEdge(field, kind, |Alternatives(field)|)] else []
    ensures ParseField(field, kind) == Legal(root + done)
  {
    hide ParseAlternatives, Tokens;
    assert [] + done == done;
  }

  lemma NoAlternatives(kind: nat)
    ensures ParseAlternatives([], kind) == Legal([])
  {
  }

  lemma BumpOr(before: seq<TextEdge>, field: Key, kind: nat, n: nat, done: seq<TextEdge>)
    ensures (before + [OrEdge(field, kind, n)] + done)[|before|] == OrEdge(field, kind, n)
    ensures (before + [OrEdge(field, kind, n)] + done)[|before| := OrEdge(field, kind, n + 1)] ==
            before + [OrEdge(field, kind, n + 1)] + done
  {
  }

  lemma Regroup<T>(a: seq<T>, b: seq<T>, c: seq<T>)
    ensures a + b + c == a + (b + c) && [] + c == c
  {
  }

  lemma FieldsNext(fields: seq<Key>, kind: nat, n: nat)
    requires n < |fields|
    ensures ParseFields(fields[..n + 1], kind) ==
            match ParseFields(fields[..n], kind)
            case Illegal => Illegal
            case Legal(edges) =>
              match ParseField(fields[n], kind)
              case Illegal => Illegal
              case Legal(more) => Legal(edges + more)
  {
    assert fields[..n + 1][..n] == fields[..n];
  }

  lemma {:induction false} FieldsIllegal(fields: seq<Key>, kind: nat, n: nat)
    requires n <= |fields| && ParseFields(fields[..n], kind).Illegal?
    ensures ParseFields(fields, kind).Illegal?
    decreases |fields| - n
  {
    if n == |fields| {
      assert fields[..n] == fields;
    } else {
      FieldsNext(fields, kind, n);
      FieldsIllegal(fields, kind, n + 1);
    }
  }

  method AddSplitDependencies(line: Key, kind: nat) returns (r: Parsed<seq<TextEdge>>)
    requires Parsable(line)
    ensures r == ParseFields(LineFields(line), kind)
  {
    hide ParseField, Tokens;
    var tokens := Tokens(line, COMMA);
    ghost var fields := LineFields(line);
    var edges := [];
    var i := 0;
    while true
      invariant 0 <= i < |tokens| && ParseFields(fields[..i], kind) == Legal(edges)
      decreases |tokens| - i
    {
      var field := DropBlanks(tokens[i]);
      assert field == fields[i];
      FieldsNext(fields, kind, i);
      r := AddField(field, kind, edges);
      if r.Illegal? {
        FieldsIllegal(fields, kind, i + 1);
        return;
      }
      edges := r.value;
      i := i + 1;
      if i == |tokens| {
        break;
      }
    }
    assert fields[..i] == fields;
  }

  // ---------- what the edges mean ----------

  // The edge with its strings entered in the name table by `f`.
  ghost function Intern(f: Key -> nat, e: TextEdge): Edge
  {
    Edge(e.op, e.kind, f(e.name), if e.kind == OR_DEPENDS || e.kind == OR_PRE_DEPENDS then e.count else f(e.version))
  }

  ghost function InternAll(f: Key -> nat, es: seq<TextEdge>): (r: seq<Edge>)
    ensures |r| == |es| && forall i :: 0 <= i < |es| ==> r[i] == Intern(f, es[i])
  {
    seq(|es|, i requires 0 <= i < |es| => Intern(f, es[i]))
  }

  // Some alternative of the field is met.
  ghost predicate FieldMet(field: Key, kind: nat, f: Key -> nat, met: Edge -> bool)
  {
    exists k :: 0 <= k < |Alternatives(field)| && ParseAlternative(Alternatives(field)[k], kind).Legal? &&
                met(Intern(f, ParseAlternative(Alternatives(field)[k], kind).value))
  }

  lemma {:induction false} TokenLength(s: Key, d: Char, i: nat)
    requires i < |Tokens(s, d)|
    ensures |Tokens(s, d)[i]| <= |s|
    decreases |s|
  {
    if s[0] == d {
      TokenLength(s[1..], d, i);
    } else if i > 0 {
      TokenLength(s[Find(s, d, 0)..], d, i - 1);
    }
  }

  // A string that is its own first piece has no separator in it.
  lemma SingleToken(s: Key, d: Char)
    requires Tokens(s, d) != [] && Tokens(s, d)[0] == s
    ensures Tokens(s, d) == [s]
  {
    if s[0] == d {
      TokenLength(s[1..], d, 0);
    } else {
      assert s[..Find(s, d, 0)] == s;
      assert s[|s|..] == [];
    }
  }

  lemma {:induction false} ShiftedEdges(a: seq<Edge>, b: seq<Edge>, met: Edge -> bool, k: nat)
    requires k <= |b|
    ensures Grouped(a + b, |a| + k) == Grouped(b, k)
    ensures Grouped(b, k) ==> AllMet(a + b, met, |a| + k) == AllMet(b, met, k)
    decreases |b| - k
  {
    var c := a + b;
    if k < |b| {
      assert c[|a| + k] == b[k];
      if IsOr(b[k]) {
        var n := b[k].version;
        if 1 <= n <= |b| - k - 1 {
          ShiftedEdges(a, b, met, k + 1 + n);
          SameAlternatives(a, b, met, k + 1, n);
          assert forall i :: k < i <= k + n ==> c[|a| + i] == b[i];
          assert forall i :: |a| + k < i <= |a| + k + n ==> c[i] == b[i - |a|];
        }
      } else {
        ShiftedEdges(a, b, met, k + 1);
      }
    }
  }

  lemma SameAlternatives(a: seq<Edge>, b: seq<Edge>, met: Edge -> bool, k: nat, n: nat)
    requires k + n <= |b|
    ensures AnyMet(a + b, met, |a| + k, |a| + k + n) == AnyMet(b, met, k, k + n)
  {
    if AnyMet(b, met, k, k + n) {
      var i :| k <= i < k + n && met(b[i]);
      assert (a + b)[|a| + i] == b[i];
    }
    if AnyMet(a + b, met, |a| + k, |a| + k + n) {
      var i :| |a| + k <= i < |a| + k + n && met((a + b)[i]);
      assert (a + b)[i] == b[i - |a|];
    }
  }

  // Edges of two fields one after the other.
  lemma {:induction false} JoinedEdges(a: seq<Edge>, b: seq<Edge>, met: Edge -> bool, j: nat)
    requires j <= |a| && Grouped(a, j) && Grouped(b, 0)
    ensures Grouped(a + b, j)
    ensures AllMet(a + b, met, j) <==> AllMet(a, met, j) && AllMet(b, met, 0)
    decreases |a| - j
  {
    var c := a + b;
    if j == |a| {
      ShiftedEdges(a, b, met, 0);
    } else {
      assert c[j] == a[j];
      if IsOr(a[j]) {
        var n := a[j].version;
        JoinedEdges(a, b, met, j + 1 + n);
        assert forall i :: j < i <= j + n ==> c[i] == a[i];
        FrontAlternatives(a, b, met, j + 1, j + 1 + n);
      } else {
        JoinedEdges(a, b, met, j + 1);
      }
    }
  }

  lemma FrontAlternatives(a: seq<Edge>, b: seq<Edge>, met: Edge -> bool, from: nat, to: nat)
    requires from <= to <= |a|
    ensures AnyMet(a + b, met, from, to) == AnyMet(a, met, from, to)
  {
    if AnyMet(a, met, from, to) {
      var i :| from <= i < to && met(a[i]);
      assert (a + b)[i] == a[i];
    }
    if AnyMet(a + b, met, from, to) {
      var i :| from <= i < to && met((a + b)[i]);
      assert (a + b)[i] == a[i];
    }
  }

  // The edges of one field form one group, met when one alternative is.
  lemma FieldMeaning(field: Key, kind: nat, f: Key -> nat, met: Edge -> bool, es: seq<TextEdge>)
    requires (kind == DEPENDS || kind == PRE_DEPENDS) && Alternatives(field) != [] && ParseField(field, kind) == Legal(es)
    ensures Grouped(InternAll(f, es), 0)
    ensures AllMet(InternAll(f, es), met, 0) <==> FieldMet(field, kind, f, met)
  {
    hide ParseAlternatives, Tokens, Grouped, AllMet, ParseAlternative;
    var alts := Alternatives(field);
    var edges := ParseAlternatives(alts, kind).value;
    AlternativesKind(alts, kind, edges);
    if NeedsOr(field, kind) {
      OrGroup(field, kind, f, met, alts, edges);
    } else {
      SingleToken(field, BAR);
      LoneEdge(Intern(f, edges[0]), met);
      assert InternAll(f, es) == [Intern(f, edges[0])];
      assert FieldMet(field, kind, f, met) <==> met(Intern(f, edges[0])) by {
        assert ParseAlternative(alts[0], kind) == Legal(edges[0]);
      }
    }
  }

  lemma AlternativesKind(alts: seq<Key>, kind: nat, edges: seq<TextEdge>)
    requires ParseAlternatives(alts, kind) == Legal(edges)
    ensures |edges| == |alts|
    ensures forall i :: 0 <= i < |alts| ==> ParseAlternative(alts[i], kind) == Legal(edges[i]) && edges[i].kind == kind
  {
    hide Find, DropBlanks, DropOpening, OperatorLength, OperatorOf;
    hide ParseAlternatives;
  }

  lemma LoneEdge(e: Edge, met: Edge -> bool)
    requires IsDependency(e)
    ensures Grouped([e], 0) && (AllMet([e], met, 0) <==> met(e))
  {
  }

  lemma OrGroup(field: Key, kind: nat, f: Key -> nat, met: Edge -> bool, alts: seq<Key>, edges: seq<TextEdge>)
    requires (kind == DEPENDS || kind == PRE_DEPENDS) && alts == Alternatives(field) && alts != [] && |edges| == |alts|
    requires forall i :: 0 <= i < |alts| ==> ParseAlternative(alts[i], kind) == Legal(edges[i]) && edges[i].kind == kind
    ensures var all := InternAll(f, [OrEdge(field, kind, |alts|)] + edges);
            Grouped(all, 0) && (AllMet(all, met, 0) <==> FieldMet(field, kind, f, met))
  {
    hide Tokens, ParseAlternative;
    var es := [OrEdge(field, kind, |alts|)] + edges;
    var all := InternAll(f, es);
    assert es[0] == OrEdge(field, kind, |alts|) && IsOr(all[0]) && all[0].version == |alts|;
    assert forall i :: 0 < i < |all| ==> all[i] == Intern(f, edges[i - 1]);
    EndsGrouped(all, met);
    if AnyMet(all, met, 1, |all|) {
      var i :| 1 <= i < |all| && met(all[i]);
      assert ParseAlternative(alts[i - 1], kind) == Legal(edges[i - 1]);
    }
    if FieldMet(field, kind, f, met) {
      var k :| 0 <= k < |alts| && ParseAlternative(alts[k], kind).Legal? &&
               met(Intern(f, ParseAlternative(alts[k], kind).value));
      assert all[k + 1] == Intern(f, edges[k]);
    }
  }

  lemma EndsGrouped(edges: seq<Edge>, met: Edge -> bool)
    ensures Grouped(edges, |edges|) && AllMet(edges, met, |edges|)
  {
  }

  // A line is met when each of its fields is met by one of its alternatives.
  lemma {:induction false} LineMeaning(fields: seq<Key>, kind: nat, f: Key -> nat, met: Edge -> bool, es: seq<TextEdge>)
    requires (kind == DEPENDS || kind == PRE_DEPENDS) && ParseFields(fields, kind) == Legal(es)
    requires forall i :: 0 <= i < |fields| ==> Alternatives(fields[i]) != []
    ensures Grouped(InternAll(f, es), 0)
    ensures AllMet(InternAll(f, es), met, 0) <==> forall i :: 0 <= i < |fields| ==> FieldMet(fields[i], kind, f, met)
    decreases |fields|
  {
    hide ParseField, Tokens, FieldMet, Grouped, AllMet;
    if fields == [] {
      EndsGrouped(InternAll(f, es), met);
    } else {
      var n := |fields| - 1;
      var before, more := ParseFields(fields[..n], kind).value, ParseField(fields[n], kind).value;
      LineMeaning(fields[..n], kind, f, met, before);
      FieldMeaning(fields[n], kind, f, met, more);
      JoinedEdges(InternAll(f, before), InternAll(f, more), met, 0);
      assert InternAll(f, es) == InternAll(f, before) + InternAll(f, more);
    }
  }

  // ---------- a whole package ----------

  // A field of a control file that lists packages; the kinds are odd.
  datatype Listing = Listing(line: Key, kind: nat)

  predicate ListingOk(l: Listing)
  {
    Parsable(l.line) && l.kind % 2 == 1
  }

  // The edges of a package, in the order of its control file.
  function ParseListings(ls: seq<Listing>): Parsed<seq<TextEdge>>
  {
    if ls == [] then Legal([])
    else
      match ParseListings(ls[..|ls| - 1])
      case Illegal => Illegal
      case Legal(edges) =>
        match ParseFields(LineFields(ls[|ls| - 1].line), ls[|ls| - 1].kind)
        case Illegal => Illegal
        case Legal(more) => Legal(edges + more)
  }

  // Dependencies and pre-dependencies must be met, other listings ask for nothing.
  ghost predicate ListingMet(l: Listing, f: Key -> nat, met: Edge -> bool)
  {
    l.kind == DEPENDS || l.kind == PRE_DEPENDS ==>
      forall i :: 0 <= i < |LineFields(l.line)| ==> FieldMet(LineFields(l.line)[i], l.kind, f, met)
  }

  lemma {:induction false} KindsOf(fields: seq<Key>, kind: nat, es: seq<TextEdge>)
    requires kind != DEPENDS && kind != PRE_DEPENDS && ParseFields(fields, kind) == Legal(es)
    ensures forall i :: 0 <= i < |es| ==> es[i].kind == kind
    decreases |fields|
  {
    hide Tokens, ParseAlternative, ParseAlternatives;
    if fields != [] {
      var n := |fields| - 1;
      KindsOf(fields[..n], kind, ParseFields(fields[..n], kind).value);
      var alts := Alternatives(fields[n]);
      AlternativesKind(alts, kind, ParseAlternatives(alts, kind).value);
    }
  }

  lemma {:induction false} NothingAsked(edges: seq<Edge>, met: Edge -> bool, j: nat)
    requires j <= |edges| && forall i :: 0 <= i < |edges| ==> !IsOr(edges[i]) && !IsDependency(edges[i])
    ensures Grouped(edges, j) && AllMet(edges, met, j)
    decreases |edges| - j
  {
    if j < |edges| {
      NothingAsked(edges, met, j + 1);
    }
  }

  lemma ListingMeaning(l: Listing, f: Key -> nat, met: Edge -> bool, es: seq<TextEdge>)
    requires ListingOk(l) && ParseFields(LineFields(l.line), l.kind) == Legal(es)
    ensures Grouped(InternAll(f, es), 0)
    ensures AllMet(InternAll(f, es), met, 0) <==> ListingMet(l, f, met)
  {
    hide ParseFields, FieldMet, Grouped, AllMet;
    if l.kind == DEPENDS || l.kind == PRE_DEPENDS {
      LineMeaning(LineFields(l.line), l.kind, f, met, es);
    } else {
      KindsOf(LineFields(l.line), l.kind, es);
      NothingAsked(InternAll(f, es), met, 0);
    }
  }

  // The dependencies of a package are met when, in each of its dependency
  // lines, every field is met by one of its alternatives.
  lemma {:induction false} PackageMeaning(ls: seq<Listing>, f: Key -> nat, met: Edge -> bool, es: seq<TextEdge>)
    requires ParseListings(ls) == Legal(es) && forall i :: 0 <= i < |ls| ==> ListingOk(ls[i])
    ensures Grouped(InternAll(f, es), 0)
    ensures AllMet(InternAll(f, es), met, 0) <==> forall i :: 0 <= i < |ls| ==> ListingMet(ls[i], f, met)
    decreases |ls|
  {
    hide ParseFields, ListingOk, ListingMet, Grouped, AllMet;
    if ls == [] {
      EndsGrouped(InternAll(f, es), met);
    } else {
      var n := |ls| - 1;
      var before, more := ParseListings(ls[..n]).value, ParseFields(LineFields(ls[n].line), ls[n].kind).value;
      PackageMeaning(ls[..n], f, met, before);
      ListingMeaning(ls[n], f, met, more);
      JoinedEdges(InternAll(f, before), InternAll(f, more), met, 0);
      assert InternAll(f, es) == InternAll(f, before) + InternAll(f, more);
    }
  }
}
