/** Dependency fields as they are written, and that they are read as meant. */
module DependencyPrint {
  import opened Version
  import opened VersionLaws
  import opened Probing
  import opened PackageTables
  import opened Dependencies
  import opened DependencyText
  import opened StatusFile
  import opened RecordCheck

  // ---------- how fields are written ----------

  // A package name, restricted to some versions or not.
  datatype Alternative = Anything(name: Key) | Restricted(name: Key, op: Operator, version: Key)

  // No blank, bar, comma, parenthesis or sign of comparison.
  predicate CleanWord(s: Key)
  {
    s != [] && forall i :: 0 <= i < |s| ==> s[i] !in [32, 124, 44, 40, 41, 60, 61, 62]
  }

  predicate Written(a: Alternative)
  {
    CleanWord(a.name) && (a.Restricted? ==> CleanWord(a.version) && a.op != VerAny && a.op != VerNull)
  }

  // =, <<, <=, >> and >=
  function Spelling(op: Operator): Key
    requires op != VerAny && op != VerNull
  {
    match op
    case VerEqual => [61]
    case VerLess => [60, 60]
    case VerLessEqual => [60, 61]
    case VerMore => [62, 62]
    case VerMoreEqual => [62, 61]
  }

  // "name" or "name (op version)"
  function AltText(a: Alternative): Key
    requires Written(a)
  {
    match a
    case Anything(name) => name
    case Restricted(name, op, version) => name + [32, 40] + Spelling(op) + [32] + version + [41]
  }

  function AltEdge(a: Alternative, kind: nat): TextEdge
  {
    match a
    case Anything(name) => TextEdge(VerAny, kind, name, [65, 78, 89], 0)
    case Restricted(name, op, version) => TextEdge(op, kind, name, version, 0)
  }

  predicate Blanks(s: Key)
  {
    forall i :: 0 <= i < |s| ==> s[i] == 32
  }

  // ---------- strings ----------

  lemma {:induction false} BlanksDropped(pre: Key, x: Key)
    requires Blanks(pre) && x != [] && x[0] != 32
    ensures DropBlanks(pre + x) == x
    decreases |pre|
  {
    if pre == [] {
      assert pre + x == x;
    } else {
      assert (pre + x)[1..] == pre[1..] + x;
      BlanksDropped(pre[1..], x);
    }
  }

  // The front of a string up to the first `c`.
  lemma FrontUpTo(a: Key, c: Char, b: Key)
    requires c !in a && (b == [] || b[0] == c)
    ensures Find(a + b, c, 0) == |a| && (a + b)[..|a|] == a
  {
    hide Find;
    var s := a + b;
    var r := Find(s, c, 0);
    assert forall i :: 0 <= i < |a| ==> s[i] == a[i];
    assert b != [] ==> s[|a|] == c;
  }

  // A word in front of a blank or of `d`.
  lemma WordBefore(w: Key, d: Char, rest: Key)
    requires 32 !in w && d !in w && d != 32 && (rest == [] || rest[0] == 32 || rest[0] == d)
    ensures Before(w + rest, d) == w
  {
    hide Find;
    var s := w + rest;
    var n := Find(s, 32, 0);
    var t := s[..n];
    assert forall i :: 0 <= i < |w| ==> s[i] == w[i];
    assert n >= |w|;
    assert t == w + t[|w|..];
    assert rest != [] ==> s[|w|] == rest[0];
    FrontUpTo(w, d, t[|w|..]);
  }

  lemma OperatorRead(op: Operator, rest: Key)
    requires op != VerAny && op != VerNull && rest != [] && rest[0] == 32
    ensures var s := Spelling(op) + rest;
            && DropOpening([40] + s) == s && OperatorLength(s) == |Spelling(op)|
            && s[..|Spelling(op)|] == Spelling(op) && s[|Spelling(op)|..] == rest
            && OperatorOf(Spelling(op)) == Legal(op)
  {
    var x := Spelling(op);
    var s := x + rest;
    assert ([40] + s)[1..] == s;
    assert s[0] == x[0];
    assert s[|x|..] == rest && s[|x|..][0] == 32;
    if |x| == 2 {
      assert s[1] == x[1] && s[1..][0] == x[1] && s[1..][1..] == rest;
      assert OperatorLength(s[1..]) == 1 + OperatorLength(rest);
    } else {
      assert s[1..] == rest;
    }
  }

  // ---------- one alternative ----------

  lemma PlainRead(name: Key, post: Key, kind: nat)
    requires CleanWord(name) && Blanks(post)
    ensures ParseAlternative(name + post, kind) == Legal(AltEdge(Anything(name), kind))
  {
    hide Find;
    var f := name + post;
    BlanksDropped([], f);
    assert [] + f == f;
    assert forall i :: 0 <= i < |f| ==> f[i] != 40;
    WordBefore(name, 40, post);
  }

  // The text of a restricted name, cut in the ways it is read.
  lemma Layout(name: Key, x: Key, version: Key, post: Key)
    ensures var tail := version + ([41] + post);
            var text := [40] + (x + ([32] + tail));
            var f := name + ([32] + text);
            && name + [32, 40] + x + [32] + version + [41] + post == f
            && f == (name + [32]) + [40] + (x + ([32] + tail)) && f[|name| + 1..] == text
  {
  }

  lemma RestrictedRead(name: Key, op: Operator, version: Key, post: Key, kind: nat)
    requires Written(Restricted(name, op, version)) && Blanks(post)
    ensures ParseAlternative(AltText(Restricted(name, op, version)) + post, kind) ==
            Legal(AltEdge(Restricted(name, op, version), kind))
  {
    hide Find, DropBlanks, DropOpening, OperatorLength, OperatorOf, Before, Spelling;
    var x := Spelling(op);
    var tail := version + ([41] + post);
    var rest := [32] + tail;
    var f := name + ([32] + ([40] + (x + rest)));
    Layout(name, x, version, post);
    BlanksDropped([], f);
    assert [] + f == f;
    FindAt(name + [32], 40, x + rest);
    OperatorRead(op, rest);
    WordBefore(name, 40, [32] + ([40] + (x + rest)));
    BlanksDropped([32], tail);
    WordBefore(version, 41, [41] + post);
  }

  // An alternative is read as it is written, with any blanks around it.
  lemma AltRead(a: Alternative, pre: Key, post: Key, kind: nat)
    requires Written(a) && Blanks(pre) && Blanks(post)
    ensures ParseAlternative(pre + AltText(a) + post, kind) == Legal(AltEdge(a, kind))
  {
    hide Find, Spelling, OperatorOf, Before, DropOpening, OperatorLength;
    var f := AltText(a) + post;
    assert f != [] && f[0] == a.name[0];
    assert pre + AltText(a) + post == pre + f;
    BlanksDropped(pre, f);
    BlanksDropped([], f);
    assert [] + f == f;
    match a
    case Anything(name) => PlainRead(name, post, kind);
    case Restricted(name, op, version) => RestrictedRead(name, op, version, post, kind);
  }

  // ---------- pieces and separators ----------

  function Join(ps: seq<Key>, d: Char): Key
    requires ps != []
  {
    if |ps| == 1 then ps[0] else ps[0] + [d] + Join(ps[1..], d)
  }

  predicate Pieces(ps: seq<Key>, d: Char)
  {
    forall i :: 0 <= i < |ps| ==> ps[i] != [] && d !in ps[i]
  }

  lemma TokensStep(a: Key, d: Char, b: Key)
    requires a != [] && d !in a && (b == [] || b[0] == d)
    ensures Tokens(a + b, d) == [a] + Tokens(b, d)
  {
    FrontUpTo(a, d, b);
    assert (a + b)[0] == a[0] && (a + b)[|a|..] == b;
  }

  lemma TokensSkip(d: Char, b: Key)
    ensures Tokens([d] + b, d) == Tokens(b, d) && Tokens([], d) == []
  {
    assert ([d] + b)[1..] == b;
  }

  // strtok_r finds the pieces that were joined.
  lemma {:induction false} JoinedSplits(ps: seq<Key>, d: Char)
    requires ps != [] && Pieces(ps, d)
    ensures Tokens(Join(ps, d), d) == ps
    decreases |ps|
  {
    hide Tokens;
    TokensSkip(d, []);
    if |ps| == 1 {
      TokensStep(ps[0], d, []);
      assert ps[0] + [] == ps[0];
    } else {
      var rest := Join(ps[1..], d);
      JoinedSplits(ps[1..], d);
      TokensStep(ps[0], d, [d] + rest);
      TokensSkip(d, rest);
      assert ps[0] + [d] + rest == ps[0] + ([d] + rest);
      assert [ps[0]] + ps[1..] == ps;
    }
  }

  lemma {:induction false} JoinFree(ps: seq<Key>, d: Char, c: Char)
    requires ps != [] && c != d && forall i :: 0 <= i < |ps| ==> c !in ps[i]
    ensures c !in Join(ps, d)
    decreases |ps|
  {
    if |ps| > 1 {
      JoinFree(ps[1..], d, c);
    }
  }

  lemma JoinFront(ps: seq<Key>, d: Char)
    requires ps != [] && ps[0] != []
    ensures Join(ps, d) != [] && Join(ps, d)[0] == ps[0][0]
    ensures |ps| > 1 ==> |Join(ps, d)| > |ps[0]|
    ensures |ps| == 1 ==> Join(ps, d) == ps[0]
  {
  }

  // ---------- fields and lines ----------

  predicate WrittenField(alts: seq<Alternative>)
  {
    alts != [] && forall i :: 0 <= i < |alts| ==> Written(alts[i])
  }

  // What stands between the bars.
  function AltPieces(alts: seq<Alternative>): (r: seq<Key>)
    requires WrittenField(alts)
    ensures |r| == |alts|
  {
    seq(|alts|, i requires 0 <= i < |alts| =>
      (if i > 0 then [32] else []) + AltText(alts[i]) + (if i + 1 < |alts| then [32] else []))
  }

  // "a (>= 1) | b"
  function FieldOf(alts: seq<Alternative>): Key
    requires WrittenField(alts)
  {
    Join(AltPieces(alts), 124)
  }

  function AltEdges(alts: seq<Alternative>, kind: nat): (r: seq<TextEdge>)
    ensures |r| == |alts|
  {
    seq(|alts|, i requires 0 <= i < |alts| => AltEdge(alts[i], kind))
  }

  // One edge for each alternative; several of them in a dependency are led by an
  // edge that counts them.
  function FieldEdges(alts: seq<Alternative>, kind: nat): seq<TextEdge>
    requires WrittenField(alts)
  {
    (if |alts| > 1 && (kind == DEPENDS || kind == PRE_DEPENDS) then [TextEdge(VerNull, kind + 1, FieldOf(alts), [],
        |alts|)] else [])
    + AltEdges(alts, kind)
  }

  predicate WrittenLine(fields: seq<seq<Alternative>>)
  {
    fields != [] && forall j :: 0 <= j < |fields| ==> WrittenField(fields[j])
  }

  // "a (>= 1) | b, c"
  function LinePieces(fields: seq<seq<Alternative>>): (r: seq<Key>)
    requires WrittenLine(fields)
    ensures |r| == |fields|
  {
    seq(|fields|, j requires 0 <= j < |fields| => (if j > 0 then [32] else []) + FieldOf(fields[j]))
  }

  function LineOf(fields: seq<seq<Alternative>>): Key
    requires WrittenLine(fields)
  {
    Join(LinePieces(fields), 44)
  }

  function LineEdges(fields: seq<seq<Alternative>>, kind: nat): seq<TextEdge>
    requires forall j :: 0 <= j < |fields| ==> WrittenField(fields[j])
  {
    if fields == [] then []
    else LineEdges(fields[..|fields| - 1], kind) + FieldEdges(fields[|fields| - 1], kind)
  }

  lemma AltFront(a: Alternative)
    requires Written(a)
    ensures AltText(a) != [] && AltText(a)[0] != 32 && 124 !in AltText(a) && 44 !in AltText(a)
  {
    hide Spelling;
    if a.Restricted? {
      NoSeparators(Spelling(a.op), a.op);
    }
  }

  lemma NoSeparators(x: Key, op: Operator)
    requires op != VerAny && op != VerNull && x == Spelling(op)
    ensures 124 !in x && 44 !in x
  {
  }

  lemma AltPiecesFree(alts: seq<Alternative>)
    requires WrittenField(alts)
    ensures Pieces(AltPieces(alts), 124) && forall i :: 0 <= i < |alts| ==> 44 !in AltPieces(alts)[i]
    ensures AltPieces(alts)[0] != [] && AltPieces(alts)[0][0] != 32
  {
    hide AltText;
    forall i | 0 <= i < |alts|
      ensures AltPieces(alts)[i] != [] && 124 !in AltPieces(alts)[i] && 44 !in AltPieces(alts)[i]
    {
      AltFront(alts[i]);
    }
    AltFront(alts[0]);
  }

  lemma FieldSplits(alts: seq<Alternative>)
    requires WrittenField(alts)
    ensures Alternatives(FieldOf(alts)) == AltPieces(alts)
    ensures FieldOf(alts) != [] && FieldOf(alts)[0] != 32 && 44 !in FieldOf(alts)
    ensures FieldOf(alts) != AltPieces(alts)[0] <==> |alts| > 1
  {
    hide AltPieces, Tokens;
    var ps := AltPieces(alts);
    AltPiecesFree(alts);
    JoinedSplits(ps, 124);
    JoinFront(ps, 124);
    JoinFree(ps, 124, 44);
  }

  lemma {:induction false} AlternativesRead(alts: seq<Alternative>, kind: nat, n: nat)
    requires WrittenField(alts) && n <= |alts|
    ensures ParseAlternatives(AltPieces(alts)[..n], kind) == Legal(AltEdges(alts, kind)[..n])
    decreases n
  {
    hide ParseAlternative, AltText, AltEdge;
    var ps := AltPieces(alts);
    if n == 0 {
      NoAlternatives(kind);
      assert ps[..0] == [] && AltEdges(alts, kind)[..0] == [];
    } else {
      AlternativesRead(alts, kind, n - 1);
      AlternativesNext(ps, kind, n - 1);
      AltRead(alts[n - 1], if n > 1 then [32] else [], if n < |alts| then [32] else [], kind);
      assert AltEdges(alts, kind)[..n] == AltEdges(alts, kind)[..n - 1] + [AltEdge(alts[n - 1], kind)];
    }
  }

  // A field is read as it is written.
  lemma FieldRead(alts: seq<Alternative>, kind: nat)
    requires WrittenField(alts)
    ensures ParseField(FieldOf(alts), kind) == Legal(FieldEdges(alts, kind))
  {
    hide ParseAlternatives, AltPieces, AltEdges, FieldOf, Alternatives;
    FieldSplits(alts);
    AlternativesRead(alts, kind, |alts|);
    assert AltPieces(alts)[..|alts|] == AltPieces(alts) && AltEdges(alts, kind)[..|alts|] == AltEdges(alts, kind);
    var edges := AltEdges(alts, kind);
    assert [] + edges == edges;
  }

  lemma LineSplits(fields: seq<seq<Alternative>>)
    requires WrittenLine(fields)
    ensures |LineFields(LineOf(fields))| == |fields|
    ensures forall j :: 0 <= j < |fields| ==> LineFields(LineOf(fields))[j] == FieldOf(fields[j])
  {
    hide FieldOf, Tokens;
    var ps := LinePieces(fields);
    forall j | 0 <= j < |fields|
      ensures ps[j] != [] && 44 !in ps[j] && DropBlanks(ps[j]) == FieldOf(fields[j])
    {
      FieldSplits(fields[j]);
      BlanksDropped(if j > 0 then [32] else [], FieldOf(fields[j]));
    }
    JoinedSplits(ps, 44);
  }

  lemma {:induction false} FieldsRead(texts: seq<Key>, fields: seq<seq<Alternative>>, kind: nat)
    requires |texts| == |fields| && forall j :: 0 <= j < |fields| ==> WrittenField(fields[j]) && texts[j] == FieldOf(fields[j])
    ensures ParseFields(texts, kind) == Legal(LineEdges(fields, kind))
    decreases |fields|
  {
    hide ParseField, FieldOf, FieldEdges;
    if fields != [] {
      var n := |fields| - 1;
      FieldsRead(texts[..n], fields[..n], kind);
      FieldRead(fields[n], kind);
    }
  }

  // A whole line is read as it is written: each operator, name, version and group.
  lemma LineRead(fields: seq<seq<Alternative>>, kind: nat)
    requires WrittenLine(fields)
    ensures Parsable(LineOf(fields)) && ParseFields(LineFields(LineOf(fields)), kind) == Legal(LineEdges(fields, kind))
  {
    hide FieldOf, LineFields, ParseFields, Alternatives, AltPieces;
    LineSplits(fields);
    FieldsRead(LineFields(LineOf(fields)), fields, kind);
    forall j | 0 <= j < |fields|
      ensures Alternatives(LineFields(LineOf(fields))[j]) != []
    {
      FieldSplits(fields[j]);
    }
  }

  // ---------- what is asked for ----------

  // The restriction, by its spelling.
  predicate Suitable(version: Key, spelling: Key, wanted: Key)
  {
    var r := VersionOrder(version, wanted);
    if spelling == [61] then r == 0
    else if spelling == [60, 60] then r < 0
    else if spelling == [60, 61] then r <= 0
    else if spelling == [62, 62] then r > 0
    else spelling == [62, 61] && r >= 0
  }

  lemma SpellingMeans(version: Key, op: Operator, wanted: Key)
    requires op != VerAny && op != VerNull
    ensures Meets(version, wanted, op) <==> Suitable(version, Spelling(op), wanted)
  {
    hide VersionOrder;
  }

  // Some package that counts is what the alternative names, and the status of the
  // name allows it, or some package provides the name.
  ghost predicate AltMet(records: seq<Record>, a: Alternative, kind: nat)
    requires Written(a)
  {
    || ((exists k: nat :: Current(records, k) && records[k].name == a.name &&
                          (a.Restricted? ==> Suitable(records[k].version, Spelling(a.op), a.version)))
        && ReadyText(records, a.name, kind))
    || (exists k: nat :: Current(records, k) && ProvidesName(records[k], a.name) && ReadyText(records, records[k].name, kind))
  }

  ghost predicate SomeAltMet(records: seq<Record>, alts: seq<Alternative>, kind: nat)
    requires WrittenField(alts)
  {
    exists i :: 0 <= i < |alts| && AltMet(records, alts[i], kind)
  }

  lemma AltMeaning(records: seq<Record>, a: Alternative, kind: nat)
    requires Written(a)
    ensures TextMet(records, AltEdge(a, kind)) <==> AltMet(records, a, kind)
  {
    hide Current, Meets, Suitable, ReadyText, ProvidesName, Spelling;
    var e := AltEdge(a, kind);
    CurrentInRange(records);
    forall k: nat | Current(records, k)
      ensures Meets(records[k].version, e.version, e.op) <==>
              (a.Restricted? ==> Suitable(records[k].version, Spelling(a.op), a.version))
    {
      match a
      case Anything(_) => AnyMeets(records[k].version, e.version);
      case Restricted(_, op, version) => SpellingMeans(records[k].version, op, version);
    }
  }

  // A written dependency line is met exactly when each field has an alternative
  // that is met, in the words of the line.
  lemma LineMet(records: seq<Record>, fields: seq<seq<Alternative>>, kind: nat)
    requires WrittenLine(fields) && (kind == DEPENDS || kind == PRE_DEPENDS)
    ensures LineText(records, Listing(LineOf(fields), kind)) <==>
            forall j :: 0 <= j < |fields| ==> SomeAltMet(records, fields[j], kind)
  {
    hide LineOf, FieldOf, LineFields, SomeAltMet, FieldText;
    LineSplits(fields);
    forall j | 0 <= j < |fields|
      ensures FieldText(records, FieldOf(fields[j]), kind) <==>
              SomeAltMet(records, fields[j], kind)
    {
      FieldMeets(records, fields[j], kind);
    }
    var texts := LineFields(LineOf(fields));
    if LineText(records, Listing(LineOf(fields), kind)) {
      forall j | 0 <= j < |fields|
        ensures SomeAltMet(records, fields[j], kind)
      {
        assert FieldText(records, texts[j], kind);
      }
    } else {
      var j :| 0 <= j < |texts| && !FieldText(records, texts[j], kind);
      assert texts[j] == FieldOf(fields[j]);
    }
  }

  lemma FieldMeets(records: seq<Record>, alts: seq<Alternative>, kind: nat)
    requires WrittenField(alts)
    ensures FieldText(records, FieldOf(alts), kind) <==> SomeAltMet(records, alts, kind)
  {
    hide FieldOf, AltMet, TextMet, ParseAlternative, AltText, AltEdge, Alternatives;
    FieldSplits(alts);
    forall i | 0 <= i < |alts|
      ensures ParseAlternative(AltPieces(alts)[i], kind) == Legal(AltEdge(alts[i], kind))
      ensures TextMet(records, AltEdge(alts[i], kind)) <==> AltMet(records, alts[i], kind)
    {
      AltRead(alts[i], if i > 0 then [32] else [], if i + 1 < |alts| then [32] else [], kind);
      AltMeaning(records, alts[i], kind);
    }
  }
}
