/** Literal/match tokens, their meaning, and their codes in a compressed block. */
module Tokens {
  import opened Arith
  import opened Bits
  import opened Rfc1951
  import opened Canonical
  import opened Tables

  datatype Token = Literal(b: Byte) | Match(length: nat, dist: nat)

  predicate ValidToken(t: Token)
  {
    t.Match? ==> 3 <= t.length <= 258 && 1 <= t.dist <= 0x8000
  }

  predicate ValidTokens(ts: seq<Token>)
  {
    forall i :: 0 <= i < |ts| ==> ValidToken(ts[i])
  }

  // ---------- meaning ----------

  // Every match refers to bytes that are already there.
  predicate Resolvable(ts: seq<Token>, out: seq<Byte>)
    decreases |ts|
  {
    ts == [] ||
    match ts[0]
    case Literal(b) => Resolvable(ts[1..], out + [b])
    case Match(length, dist) => 1 <= dist <= |out| && Resolvable(ts[1..], Copy(out, dist, length))
  }

  function Expand(ts: seq<Token>, out: seq<Byte>): (r: seq<Byte>)
    requires Resolvable(ts, out)
    decreases |ts|
  {
    if ts == [] then out
    else
      match ts[0]
      case Literal(b) => Expand(ts[1..], out + [b])
      case Match(length, dist) => Expand(ts[1..], Copy(out, dist, length))
  }

  lemma {:induction false} ExpandConcat(a: seq<Token>, b: seq<Token>, out: seq<Byte>)
    requires Resolvable(a, out) && Resolvable(b, Expand(a, out))
    ensures Resolvable(a + b, out) && Expand(a + b, out) == Expand(b, Expand(a, out))
    decreases |a|
  {
    if a == [] {
      assert a + b == b;
    } else {
      assert (a + b)[1..] == a[1..] + b && (a + b)[0] == a[0];
      match a[0]
      case Literal(x) => ExpandConcat(a[1..], b, out + [x]);
      case Match(length, dist) => ExpandConcat(a[1..], b, Copy(out, dist, length));
    }
  }

  lemma ExpandLiteral(b: Byte, out: seq<Byte>)
    ensures Resolvable([Literal(b)], out) && Expand([Literal(b)], out) == out + [b]
  {
    assert [Literal(b)][1..] == [];
  }

  lemma ExpandMatch(length: nat, dist: nat, out: seq<Byte>)
    requires 1 <= dist <= |out|
    ensures Resolvable([Match(length, dist)], out) && Expand([Match(length, dist)], out) == Copy(out, dist, length)
  {
    assert [Match(length, dist)][1..] == [];
  }

  // Number of bytes a token stands for.
  function Span(t: Token): nat
  {
    match t
    case Literal(_) => 1
    case Match(length, _) => length
  }

  // Where token `i` starts, when the first one starts at 0.
  function StartOf(ts: seq<Token>, i: nat): nat
    requires i <= |ts|
  {
    if i == 0 then 0 else StartOf(ts, i - 1) + Span(ts[i - 1])
  }

  // ---------- codes ----------

  function LitSym(t: Token): (r: nat)
    requires ValidToken(t)
    ensures r < 286
  {
    match t
    case Literal(b) => b
    case Match(length, _) => 257 + LengthCode(length - 3)
  }

  function DistSym(t: Token): (r: nat)
    requires ValidToken(t) && t.Match?
    ensures r < 30
  {
    DistCode(t.dist - 1)
  }

  // Both codes give a code to what the token needs.
  ghost predicate TokenCoded(lit: seq<nat>, dist: seq<nat>, t: Token)
    requires ValidToken(t)
  {
    && Coded(lit, LitSym(t))
    && (t.Match? ==> Coded(dist, DistSym(t)))
  }

  function LengthField(t: Token): nat
    requires ValidToken(t) && t.Match?
  {
    LengthCodeHolds(t.length - 3);
    t.length - LengthBase(LengthCode(t.length - 3))
  }

  function DistField(t: Token): nat
    requires ValidToken(t) && t.Match?
  {
    DistCodeHolds(t.dist - 1);
    t.dist - DistBase(DistSym(t))
  }

  function LengthBits(t: Token): nat
    requires ValidToken(t) && t.Match?
  {
    LengthExtra(LengthCode(t.length - 3))
  }

  function DistBits(t: Token): nat
    requires ValidToken(t) && t.Match?
  {
    DistExtra(DistSym(t))
  }

  ghost function LengthPart(lit: seq<nat>, t: Token): seq<bool>
    requires ValidToken(t) && t.Match? && LitSym(t) < |lit|
  {
    CodeBits(lit, LitSym(t)) + ToBits(LengthField(t), LengthBits(t))
  }

  ghost function DistPart(dist: seq<nat>, t: Token): seq<bool>
    requires ValidToken(t) && t.Match? && DistSym(t) < |dist|
  {
    CodeBits(dist, DistSym(t)) + ToBits(DistField(t), DistBits(t))
  }

  ghost function TokenBits(lit: seq<nat>, dist: seq<nat>, t: Token): seq<bool>
    requires ValidToken(t) && TokenCoded(lit, dist, t)
  {
    if t.Literal? then CodeBits(lit, t.b) else LengthPart(lit, t) + DistPart(dist, t)
  }

  ghost predicate TokensCoded(lit: seq<nat>, dist: seq<nat>, ts: seq<Token>)
  {
    forall i :: 0 <= i < |ts| ==> ValidToken(ts[i]) && TokenCoded(lit, dist, ts[i])
  }

  ghost function TokensBits(lit: seq<nat>, dist: seq<nat>, ts: seq<Token>): seq<bool>
    requires TokensCoded(lit, dist, ts)
  {
    if ts == [] then [] else TokenBits(lit, dist, ts[0]) + TokensBits(lit, dist, ts[1..])
  }

  lemma {:induction false} TokensBitsSnoc(lit: seq<nat>, dist: seq<nat>, ts: seq<Token>, n: nat)
    requires TokensCoded(lit, dist, ts) && n < |ts|
    ensures TokensCoded(lit, dist, ts[..n]) && TokensCoded(lit, dist, ts[..n + 1])
    ensures TokensBits(lit, dist, ts[..n + 1]) == TokensBits(lit, dist, ts[..n]) + TokenBits(lit, dist, ts[n])
    decreases n
  {
    hide TokenBits, TokenCoded;
    if n == 0 {
      assert ts[..1][1..] == [];
      assert TokensBits(lit, dist, ts[..1]) == TokenBits(lit, dist, ts[0]) + [];
    } else {
      var rest := ts[1..];
      assert ts[..n + 1][1..] == rest[..n] && ts[..n][1..] == rest[..n - 1];
      TokensBitsSnoc(lit, dist, rest, n - 1);
      ConcatAssoc(TokenBits(lit, dist, ts[0]), TokensBits(lit, dist, rest[..n - 1]), TokenBits(lit, dist, ts[n]));
    }
  }

  // The data part of a compressed block.
  ghost function DataBits(lit: seq<nat>, dist: seq<nat>, ts: seq<Token>): seq<bool>
    requires TokensCoded(lit, dist, ts) && END_BLOCK < |lit|
  {
    TokensBits(lit, dist, ts) + CodeBits(lit, END_BLOCK)
  }

  // ---------- decoding ----------

  lemma DecodeLiteral(lit: seq<nat>, dist: seq<nat>, s: seq<bool>, p: nat, out: seq<Byte>, t: Token)
    requires ValidLengths(lit) && t.Literal? && TokenCoded(lit, dist, t) && At(s, p, TokenBits(lit, dist, t))
    ensures InflateData(lit, dist, s, p, out) ==
            InflateData(lit, dist, s, p + |TokenBits(lit, dist, t)|, out + [t.b])
  {
    hide DecodeSymbol, ValidLengths, CodeBits;
    DecodeFinds(lit, s, p, t.b);
  }

  lemma ReadMatchFinds(dist: seq<nat>, s: seq<bool>, p: nat, t: Token)
    requires ValidLengths(dist) && ValidToken(t) && t.Match? && Coded(dist, DistSym(t))
    requires At(s, p, ToBits(LengthField(t), LengthBits(t))) && At(s, p + LengthBits(t), DistPart(dist, t))
    ensures ReadMatch(LitSym(t), dist, s, p) == Some((t.length, t.dist, p + LengthBits(t) + |DistPart(dist, t)|))
  {
    hide DecodeSymbol, ValidLengths, CodeBits, ToBits, LengthCode, DistCode, ReadBits, LengthBase, LengthExtra, DistBase,
         DistExtra, Pow2, At, LengthField, DistField;
    var p2 := p + LengthBits(t);
    AtConcat(s, p2, CodeBits(dist, DistSym(t)), ToBits(DistField(t), DistBits(t)));
    DecodeFinds(dist, s, p2, DistSym(t));
    FieldsAre(t);
    ReadFinds(s, p, LengthField(t), LengthBits(t));
    ReadFinds(s, p2 + dist[DistSym(t)], DistField(t), DistBits(t));
  }

  lemma FieldsAre(t: Token)
    requires ValidToken(t) && t.Match?
    ensures LengthField(t) < Pow2(LengthBits(t)) && LengthBase(LitSym(t) - 257) + LengthField(t) == t.length
    ensures DistField(t) < Pow2(DistBits(t)) && DistBase(DistSym(t)) + DistField(t) == t.dist
  {
    hide LengthCode, DistCode, LengthBase, LengthExtra, DistBase, DistExtra, Pow2;
    LengthCodeHolds(t.length - 3);
    DistCodeHolds(t.dist - 1);
  }

  lemma DecodeMatch(lit: seq<nat>, dist: seq<nat>, s: seq<bool>, p: nat, out: seq<Byte>, t: Token)
    requires ValidLengths(lit) && ValidLengths(dist)
    requires ValidToken(t) && t.Match? && TokenCoded(lit, dist, t) && At(s, p, TokenBits(lit, dist, t))
    requires t.dist <= |out|
    ensures InflateData(lit, dist, s, p, out) ==
            InflateData(lit, dist, s, p + |TokenBits(lit, dist, t)|, Copy(out, t.dist, t.length))
  {
    hide DecodeSymbol, ValidLengths, CodeBits, ToBits, LengthCode, DistCode, Copy, ReadMatch, DistPart, LengthBase, LengthExtra;
    AtConcat(s, p, LengthPart(lit, t), DistPart(dist, t));
    AtConcat(s, p, CodeBits(lit, LitSym(t)), ToBits(LengthField(t), LengthBits(t)));
    DecodeFinds(lit, s, p, LitSym(t));
    ReadMatchFinds(dist, s, p + lit[LitSym(t)], t);
  }

  // A decoder with the same codes finds the tokens and what they stand for.
  lemma {:induction false} InflateDataFinds(lit: seq<nat>, dist: seq<nat>, s: seq<bool>, p: nat, out: seq<Byte>,
                                            ts: seq<Token>)
    requires ValidLengths(lit) && ValidLengths(dist) && Coded(lit, END_BLOCK)
    requires TokensCoded(lit, dist, ts) && Resolvable(ts, out)
    requires At(s, p, DataBits(lit, dist, ts))
    ensures InflateData(lit, dist, s, p, out) == Some((Expand(ts, out), p + |DataBits(lit, dist, ts)|))
    decreases |ts|
  {
    hide DecodeSymbol, ValidLengths, CodeBits, TokenBits, Copy, TokenCoded;
    var end := CodeBits(lit, END_BLOCK);
    if ts == [] {
      assert [] + end == end;
      DecodeFinds(lit, s, p, END_BLOCK);
    } else {
      var t, rest := ts[0], ts[1..];
      var first := TokenBits(lit, dist, t);
      ConcatAssoc(first, TokensBits(lit, dist, rest), end);
      AtConcat(s, p, first, DataBits(lit, dist, rest));
      if t.Literal? {
        DecodeLiteral(lit, dist, s, p, out, t);
        InflateDataFinds(lit, dist, s, p + |first|, out + [t.b], rest);
      } else {
        DecodeMatch(lit, dist, s, p, out, t);
        InflateDataFinds(lit, dist, s, p + |first|, Copy(out, t.dist, t.length), rest);
      }
    }
  }
}
