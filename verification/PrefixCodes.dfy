/** Optimality over all prefix codes: by Kraft's inequality every prefix code
    fits the code space, so none is cheaper than the code build_tree finds. */
module PrefixCodes {
  import opened Arith
  import opened Rfc1951
  import opened Canonical
  import opened Codes
  import opened HuffmanTree
  import opened Optimal
  import opened Forest
  import opened MergeEnds
  import opened HuffmanCode

  // `c` gives every element of `s` a code, and none is a prefix of another.
  ghost predicate PrefixCode(s: set<nat>, c: nat -> seq<bool>)
  {
    forall x, y :: x in s && y in s && x != y ==> !IsPrefix(c(x), c(y))
  }

  ghost function LengthFn(c: nat -> seq<bool>): nat -> nat
  {
    (x: nat) => |c(x)|
  }

  ghost function Tail(c: nat -> seq<bool>): nat -> seq<bool>
  {
    (x: nat) => if c(x) == [] then [] else c(x)[1..]
  }

  // The elements whose code starts with the bit `b`.
  ghost function Starting(s: set<nat>, c: nat -> seq<bool>, b: bool): set<nat>
  {
    set x | x in s && c(x) != [] && c(x)[0] == b
  }

  lemma TailIsPrefixCode(s: set<nat>, c: nat -> seq<bool>, b: bool)
    requires PrefixCode(s, c)
    ensures PrefixCode(Starting(s, c, b), Tail(c))
  {
    forall x, y | x in Starting(s, c, b) && y in Starting(s, c, b) && x != y
      ensures !IsPrefix(Tail(c)(x), Tail(c)(y))
    {
      assert c(x) == [b] + c(x)[1..] && c(y) == [b] + c(y)[1..];
      PrefixTail(b, c(x)[1..], c(y)[1..]);
    }
  }

  lemma PrefixTail(b: bool, x: seq<bool>, y: seq<bool>)
    ensures IsPrefix(x, y) ==> IsPrefix([b] + x, [b] + y)
  {
    if IsPrefix(x, y) {
      assert ([b] + y)[..|x| + 1] == [b] + y[..|x|];
    }
  }

  lemma SpaceOfTails(s: set<nat>, c: nat -> seq<bool>, b: bool, top: nat)
    requires top >= 1
    ensures Space(Starting(s, c, b), LengthFn(c), top) == Space(Starting(s, c, b), LengthFn(Tail(c)), top - 1)
  {
    hide SumSet, SpaceFn, LengthFn, Tail;
    var half := Starting(s, c, b);
    var g, h := SpaceFn(LengthFn(c), top), SpaceFn(LengthFn(Tail(c)), top - 1);
    forall x | x in half
      ensures g(x) == h(x)
    {
      RoomOfTail(c, x, top);
    }
    SumSetCongruent(half, g, h);
  }

  lemma RoomOfTail(c: nat -> seq<bool>, x: nat, top: nat)
    requires top >= 1 && c(x) != []
    ensures SpaceFn(LengthFn(c), top)(x) == SpaceFn(LengthFn(Tail(c)), top - 1)(x)
  {
    hide Pow2, Tail, LengthFn, SpaceFn;
    TailLength(c, x);
    RoomAt(LengthFn(c), top, x);
    RoomAt(LengthFn(Tail(c)), top - 1, x);
  }

  lemma TailLength(c: nat -> seq<bool>, x: nat)
    requires c(x) != []
    ensures LengthFn(c)(x) == LengthFn(Tail(c))(x) + 1
  {
  }

  lemma RoomAt(l: nat -> nat, top: nat, x: nat)
    ensures SpaceFn(l, top)(x) == Room(l(x), top)
  {
  }

  // An empty code leaves no room for another.
  lemma EmptyCodeAlone(s: set<nat>, c: nat -> seq<bool>, x: nat)
    requires PrefixCode(s, c) && x in s && c(x) == []
    ensures s == {x}
  {
    forall y | y in s
      ensures y == x
    {
      assert y != x ==> IsPrefix(c(x), c(y));
    }
  }

  lemma SpaceOfOne(x: nat, l: nat -> nat, top: nat)
    requires l(x) == 0
    ensures Space({x}, l, top) == Pow2(top)
  {
    SumSetRemove({x}, x, SpaceFn(l, top));
    assert {x} - {x} == {};
  }

  // Kraft's inequality.
  lemma {:induction false} KraftInequality(s: set<nat>, c: nat -> seq<bool>, top: nat)
    requires PrefixCode(s, c) && forall x :: x in s ==> |c(x)| <= top
    ensures Fits(s, LengthFn(c), top)
    decreases top
  {
    hide Space, PrefixCode, Pow2;
    if x :| x in s && c(x) == [] {
      EmptyCodeAlone(s, c, x);
      SpaceOfOne(x, LengthFn(c), top);
    } else if top == 0 {
      assert s == {};
      EmptySpace(LengthFn(c), top);
    } else {
      var s0, s1 := Starting(s, c, false), Starting(s, c, true);
      TailIsPrefixCode(s, c, false);
      TailIsPrefixCode(s, c, true);
      KraftInequality(s0, Tail(c), top - 1);
      KraftInequality(s1, Tail(c), top - 1);
      SpaceOfTails(s, c, false, top);
      SpaceOfTails(s, c, true, top);
      assert s == s0 + s1 && s0 !! s1;
      assert Space(s, LengthFn(c), top) == Space(s0, LengthFn(c), top) + Space(s1, LengthFn(c), top) by {
        SpaceUnion(s0, s1, LengthFn(c), top);
      }
      Pow2Next(top - 1);
    }
  }

  lemma SpaceUnion(a: set<nat>, b: set<nat>, l: nat -> nat, top: nat)
    requires a !! b
    ensures Space(a + b, l, top) == Space(a, l, top) + Space(b, l, top)
  {
    SumSetUnion(a, b, SpaceFn(l, top));
  }

  lemma {:induction false} LongestCode(s: set<nat>, c: nat -> seq<bool>) returns (top: nat)
    ensures forall x :: x in s ==> |c(x)| <= top
    decreases |s|
  {
    if s == {} {
      top := 0;
    } else {
      var x :| x in s;
      var m := LongestCode(s - {x}, c);
      top := if |c(x)| > m then |c(x)| else m;
    }
  }

  // The code that build_tree leaves in the tree, as a prefix code.
  ghost function CodeFn(lens: seq<nat>): nat -> seq<bool>
  {
    (n: nat) => if n < |lens| then CodeBits(lens, n) else []
  }

  lemma BuiltIsPrefixCode(lens: seq<nat>)
    requires ValidLengths(lens)
    ensures PrefixCode(CodedSet(lens, |lens|), CodeFn(lens))
    ensures forall n :: n in CodedSet(lens, |lens|) ==> LengthFn(CodeFn(lens))(n) == lens[n]
  {
    hide Kraft, CodeBits, IsPrefix;
    forall x, y | x in CodedSet(lens, |lens|) && y in CodedSet(lens, |lens|) && x != y
      ensures !IsPrefix(CodeFn(lens)(x), CodeFn(lens)(y))
    {
      PrefixFree(lens, x, y);
    }
  }

  // Unless the tree is higher than `top`, no prefix code for the symbols that got a
  // code takes fewer bits for their occurrences.
  lemma BestPrefixCode(t0: seq<CtData>, lens: seq<nat>, elems: nat, top: nat, forced: set<nat>, T: HTree, c: nat -> seq<bool>)
    requires Quality(t0, lens, elems, top, forced, T) && Height(T) <= top && PrefixCode(CodedSet(lens, elems), c)
    ensures TotalCost(CodedSet(lens, elems), ForcedFreq(t0, forced), LenFn(lens)) <=
            TotalCost(CodedSet(lens, elems), ForcedFreq(t0, forced), LengthFn(c))
  {
    hide TotalCost, PrefixCode, Fits, RarerIsLonger, Huffman, Height, Depth;
    var s := CodedSet(lens, elems);
    HuffmanMinimal(T, s, ForcedFreq(t0, forced), LenFn(lens));
    var longest := LongestCode(s, c);
    KraftInequality(s, c, longest);
  }

  // With few occurrences the limit plays no role: below a Fibonacci number the
  // code is as good as any prefix code.
  lemma FewOccurrences(t0: seq<CtData>, lens: seq<nat>, elems: nat, top: nat, forced: set<nat>, T: HTree)
    requires Quality(t0, lens, elems, top, forced, T)
    requires SumSet(CodedSet(lens, elems), AsInt(ForcedFreq(t0, forced))) < Fib(top + 3)
    ensures Height(T) <= top
  {
    hide SumSet, Limited, Fib, Height, Huffman, CodedSet, ForcedFreq, AsInt;
    HuffmanHeavy(T, CodedSet(lens, elems), ForcedFreq(t0, forced));
    if Height(T) > top {
      FibMono(top + 3, Height(T) + 2);
    }
  }

  // The limits that build_tree is called with: 15 for the data and 7 for the code
  // lengths.
  lemma FibLimits()
    ensures Fib(15 + 3) == 2584 && Fib(7 + 3) == 55
  {
  }
}
