/** The line buffer of tail: after any sequence of reads it holds the last lines
    of all that was read. */
module Tail {
  import opened Bits

  const NEWLINE: Byte := 10

  // ---------- lines ----------

  function Newlines(t: seq<Byte>): (r: nat)
    ensures r <= |t|
  {
    if t == [] then 0 else Newlines(t[..|t| - 1]) + if t[|t| - 1] == NEWLINE then 1 else 0
  }

  // A line that is not finished by a newline counts as well.
  function Unfinished(t: seq<Byte>): nat
  {
    if t != [] && t[|t| - 1] != NEWLINE then 1 else 0
  }

  function Lines(t: seq<Byte>): nat
  {
    Newlines(t) + Unfinished(t)
  }

  // Without the first `k` lines.
  function DropLines(t: seq<Byte>, k: nat): seq<Byte>
    decreases |t|
  {
    if k == 0 || t == [] then t
    else if t[0] == NEWLINE then DropLines(t[1..], k - 1)
    else DropLines(t[1..], k)
  }

  // The last `count` lines, or all of them if there are not so many.
  function LastLines(t: seq<Byte>, count: nat): seq<Byte>
  {
    if Lines(t) <= count then t else DropLines(t, Lines(t) - count)
  }

  lemma {:induction false} NewlinesConcat(a: seq<Byte>, b: seq<Byte>)
    ensures Newlines(a + b) == Newlines(a) + Newlines(b)
    decreases |b|
  {
    if b == [] {
      assert a + b == a;
    } else {
      assert (a + b)[..|a + b| - 1] == a + b[..|b| - 1];
      NewlinesConcat(a, b[..|b| - 1]);
    }
  }

  lemma NewlinesFront(t: seq<Byte>)
    requires t != []
    ensures Newlines(t) == Newlines(t[1..]) + if t[0] == NEWLINE then 1 else 0
  {
    NewlinesConcat([t[0]], t[1..]);
    assert [t[0]] + t[1..] == t;
    assert [t[0]][..0] == [];
    assert Newlines([t[0]]) == if t[0] == NEWLINE then 1 else 0;
  }

  // Dropping lines of the front part first.
  lemma {:induction false} DropMore(t: seq<Byte>, y: seq<Byte>, k: nat, m: nat)
    requires k <= Newlines(t)
    ensures DropLines(t + y, k + m) == DropLines(DropLines(t, k) + y, m)
    decreases |t|
  {
    if k > 0 {
      assert t != [] by { NoNewlines(t); }
      NewlinesFront(t);
      assert (t + y)[1..] == t[1..] + y && (t + y)[0] == t[0];
      DropMore(t[1..], y, if t[0] == NEWLINE then k - 1 else k, m);
    }
  }

  lemma NoNewlines(t: seq<Byte>)
    ensures t == [] ==> Newlines(t) == 0
  {
  }

  // What is left has so many newlines less, and ends in the same way.
  lemma {:induction false} DropCounts(t: seq<Byte>, k: nat)
    requires k <= Newlines(t)
    ensures Newlines(DropLines(t, k)) == Newlines(t) - k
    ensures k < Lines(t) ==> Unfinished(DropLines(t, k)) == Unfinished(t)
    decreases |t|
  {
    if k > 0 {
      assert t != [] by { NoNewlines(t); }
      NewlinesFront(t);
      var k' := if t[0] == NEWLINE then k - 1 else k;
      DropCounts(t[1..], k');
      assert |t| > 1 ==> t[1..][|t| - 2] == t[|t| - 1];
    }
  }

  lemma LinesGrow(x: seq<Byte>, y: seq<Byte>)
    ensures Lines(x) <= Lines(x + y)
    ensures y != [] ==> Lines(x + y) == Newlines(x) + Newlines(y) + Unfinished(y)
  {
    NewlinesConcat(x, y);
    if y == [] {
      assert x + y == x;
    } else {
      assert (x + y)[|x + y| - 1] == y[|y| - 1];
    }
  }

  // What was dropped before makes no difference.
  lemma LastLinesMore(x: seq<Byte>, y: seq<Byte>, count: nat)
    requires count >= 1
    ensures LastLines(x + y, count) == LastLines(LastLines(x, count) + y, count)
  {
    if Lines(x) > count {
      var k := Lines(x) - count;
      var kept := DropLines(x, k);
      assert k <= Newlines(x);
      DropCounts(x, k);
      assert Lines(kept) == count;
      LinesGrow(kept, y);
      LinesShift(x, kept, y, k);
      var m := Lines(kept + y) - count;
      DropMore(x, y, k, m);
      assert DropLines(kept + y, 0) == kept + y;
    }
  }

  lemma LinesShift(x: seq<Byte>, kept: seq<Byte>, y: seq<Byte>, k: nat)
    requires k < Lines(x) && k <= Newlines(x) && kept == DropLines(x, k)
    ensures Lines(x + y) == Lines(kept + y) + k
  {
    DropCounts(x, k);
    NewlinesConcat(x, y);
    NewlinesConcat(kept, y);
    if y == [] {
      assert x + y == x && kept + y == kept;
    } else {
      LinesGrow(x, y);
      LinesGrow(kept, y);
    }
  }

  lemma NothingRead(count: nat)
    ensures LastLines([], count) == [] && Newlines([]) == 0
  {
  }

  lemma {:induction false} DropAll(t: seq<Byte>, k: nat)
    requires k >= Lines(t)
    ensures DropLines(t, k) == []
    decreases |t|
  {
    if t != [] {
      NewlinesFront(t);
      assert |t| > 1 ==> t[1..][|t| - 2] == t[|t| - 1];
      if |t| == 1 {
        NothingRead(0);
      }
      DropAll(t[1..], if t[0] == NEWLINE && k > 0 then k - 1 else k);
    }
  }

  lemma NoLinesKept(t: seq<Byte>)
    ensures LastLines(t, 0) == []
  {
    DropAll(t, Lines(t));
    if t != [] {
      NewlinesFront(t);
    }
  }

  // `r` is the end of `t` from the start of some line on.
  ghost predicate EndsWithLines(t: seq<Byte>, r: seq<Byte>)
  {
    |r| <= |t| && t[|t| - |r|..] == r && (|r| == |t| || t[|t| - |r| - 1] == NEWLINE)
  }

  lemma {:induction false} DropIsEnd(t: seq<Byte>, k: nat)
    requires k <= Newlines(t)
    ensures EndsWithLines(t, DropLines(t, k))
    ensures k > 0 ==> |DropLines(t, k)| < |t|
    decreases |t|
  {
    if k > 0 {
      assert t != [] by { NoNewlines(t); }
      NewlinesFront(t);
      var k' := if t[0] == NEWLINE then k - 1 else k;
      var r := DropLines(t[1..], k');
      DropIsEnd(t[1..], k');
      assert t[|t| - |r|..] == t[1..][|t| - 1 - |r|..];
      assert |r| < |t| - 1 ==> t[|t| - |r| - 1] == t[1..][|t| - 1 - |r| - 1];
    }
  }

  // What the last lines are: whole lines from the end, `count` of them if there
  // are so many.
  lemma LastLinesMeans(t: seq<Byte>, count: nat)
    requires count >= 1
    ensures EndsWithLines(t, LastLines(t, count))
    ensures Lines(LastLines(t, count)) == if Lines(t) <= count then Lines(t) else count
  {
    if Lines(t) > count {
      DropIsEnd(t, Lines(t) - count);
      DropCounts(t, Lines(t) - count);
    }
  }

  lemma DropNone(t: seq<Byte>)
    ensures DropLines(t, 0) == t
  {
  }

  lemma FewLines(t: seq<Byte>, count: nat)
    requires Newlines(t) < count
    ensures LastLines(t, count) == t
  {
  }

  // ---------- the buffer ----------

  class LineBuffer {
    const count: nat           // lines to keep
    const bufsiz: nat          // BUFSIZ
    var tailbuf: array<Byte>   // its length is tailbufsize
    var taillen: nat
    var newlinesSeen: nat
    ghost var text: seq<Byte>  // all bytes read so far

    ghost predicate Valid()
      reads this, tailbuf
    {
      && taillen + bufsiz <= tailbuf.Length
      && tailbuf[..taillen] == LastLines(text, count)
      && newlinesSeen == Newlines(tailbuf[..taillen])
    }

    constructor (lines: nat, size: nat)
      ensures Valid() && text == [] && count == lines && bufsiz == size && fresh(tailbuf)
    {
      count, bufsiz := lines, size;
      tailbuf := new Byte[size];
      taillen, newlinesSeen := 0, 0;
      text := [];
      new;
      NothingRead(lines);
    }

    // Count the newlines in what was just read.
    method CountNewlines(nread: nat) returns (n: nat)
      requires 1 <= nread && taillen + nread <= tailbuf.Length
      ensures n == Newlines(tailbuf[taillen..taillen + nread])
    {
      ghost var chunk := tailbuf[taillen..taillen + nread];
      var k := nread;
      n := 0;
      while true
        invariant 1 <= k <= nread && n == Newlines(chunk[k..])
        decreases k
      {
        k := k - 1;
        NewlinesFront(chunk[k..]);
        assert chunk[k..][1..] == chunk[k + 1..];
        if tailbuf[taillen + k] == NEWLINE {
          n := n + 1;
        }
        if k == 0 {
          break;
        }
      }
      assert chunk[0..] == chunk;
    }

    // The position behind the first `drop` lines.
    method SkipLines(drop: nat, end: nat) returns (s: nat)
      requires end <= tailbuf.Length && drop <= Newlines(tailbuf[..end])
      ensures s <= end && tailbuf[s..end] == DropLines(tailbuf[..end], drop)
    {
      ghost var t := tailbuf[..end];
      var k := drop;
      s := 0;
      assert t[0..] == t;
      while k > 0
        invariant s <= end && 0 <= k <= Newlines(t[s..])
        invariant DropLines(t[s..], k) == DropLines(t, drop)
        decreases end - s
      {
        assert s < end by { NoNewlines(t[s..]); }
        NewlinesFront(t[s..]);
        assert t[s..][1..] == t[s + 1..];
        if tailbuf[s] == NEWLINE {
          k := k - 1;
        }
        s := s + 1;
      }
      assert tailbuf[s..end] == t[s..];
    }

    // Move the kept bytes to the front.
    method MoveToFront(s: nat, len: nat)
      requires s + len <= tailbuf.Length
      modifies tailbuf
      ensures tailbuf[..len] == old(tailbuf[s..s + len])
    {
      ghost var t := tailbuf[..];
      var i := 0;
      while i < len
        invariant 0 <= i <= len
        invariant forall j :: 0 <= j < i ==> tailbuf[j] == t[s + j]
        invariant forall j :: i <= j < tailbuf.Length ==> tailbuf[j] == t[j]
      {
        assert tailbuf[s + i] == t[s + i];
        tailbuf[i] := tailbuf[s + i];
        i := i + 1;
      }
      assert tailbuf[..len] == t[s..s + len];
    }

    // Drop the lines that are too many.
    method Trim(nread: nat, newlinesInBuf: nat, ghost all: seq<Byte>)
      requires 1 <= nread && taillen + nread <= tailbuf.Length && tailbuf[..taillen + nread] == all
      requires newlinesSeen + newlinesInBuf == Newlines(all) >= count >= 1
      modifies this`taillen, this`newlinesSeen, tailbuf
      ensures taillen <= tailbuf.Length && tailbuf[..taillen] == LastLines(all, count)
      ensures newlinesSeen == Newlines(tailbuf[..taillen])
    {
      hide Newlines, DropLines;
      var extra := if tailbuf[taillen + nread - 1] != NEWLINE then 1 else 0;
      assert all[|all| - 1] == tailbuf[taillen + nread - 1];
      var k := newlinesSeen + newlinesInBuf + extra - count;
      var s := SkipLines(k, taillen + nread);
      DropCounts(all, k);
      assert DropLines(all, 0) == all by { DropNone(all); }
      taillen := taillen + nread - s;
      MoveToFront(s, taillen);
      newlinesSeen := count - extra;
    }

    // Take in a chunk of any size that fits, right behind what is kept.
    method Read(chunk: seq<Byte>)
      requires Valid() && 1 <= |chunk| <= tailbuf.Length - taillen
      modifies this, tailbuf
      ensures Valid() && text == old(text) + chunk
      ensures tailbuf == old(tailbuf) || fresh(tailbuf)
    {
      hide Newlines, LastLines;
      ghost var kept := tailbuf[..taillen];
      var nread := |chunk|;
      PutChunk(chunk);
      if count == 0 {
        NoLinesKept(text);
        NoLinesKept(text + chunk);
        text := text + chunk;
        return;
      }
      ghost var all := kept + chunk;
      assert tailbuf[..taillen + nread] == all;
      var newlinesInBuf := CountNewlines(nread);
      NewlinesConcat(kept, chunk);
      LastLinesMore(text, chunk, count);
      text := text + chunk;
      if newlinesSeen + newlinesInBuf < count {
        FewLines(all, count);
        newlinesSeen := newlinesSeen + newlinesInBuf;
        taillen := taillen + nread;
      } else {
        Trim(nread, newlinesInBuf, all);
      }
      Grow();
    }

    // What the read call stores.
    method PutChunk(chunk: seq<Byte>)
      requires taillen + |chunk| <= tailbuf.Length
      modifies tailbuf
      ensures tailbuf[..taillen] == old(tailbuf[..taillen]) && tailbuf[taillen..taillen + |chunk|] == chunk
    {
      ghost var t := tailbuf[..];
      var i := 0;
      while i < |chunk|
        invariant 0 <= i <= |chunk|
        invariant forall j :: 0 <= j < taillen ==> tailbuf[j] == t[j]
        invariant forall j :: 0 <= j < i ==> tailbuf[taillen + j] == chunk[j]
      {
        tailbuf[taillen + i] := chunk[i];
        i := i + 1;
      }
    }

    // Make room for a full read.
    method Grow()
      requires taillen <= tailbuf.Length
      modifies this`tailbuf
      ensures taillen + bufsiz <= tailbuf.Length && tailbuf[..taillen] == old(tailbuf[..taillen])
      ensures tailbuf == old(tailbuf) || fresh(tailbuf)
    {
      if tailbuf.Length < taillen + bufsiz {
        var small := tailbuf;
        var bigger := new Byte[taillen + bufsiz];
        var i := 0;
        while i < taillen
          invariant 0 <= i <= taillen && forall j :: 0 <= j < i ==> bigger[j] == small[j]
        {
          bigger[i] := small[i];
          i := i + 1;
        }
        assert bigger[..taillen] == small[..taillen];
        tailbuf := bigger;
      }
    }
  }

  // The output for any way of cutting the input into reads: each delivers some
  // of the remaining bytes, as many as there is room for at most.
  method TailLines(data: seq<Byte>, count: nat, bufsiz: nat) returns (out: seq<Byte>)
    requires bufsiz >= 1
    ensures out == LastLines(data, count)
  {
    hide LastLines, Newlines;
    var b := new LineBuffer(count, bufsiz);
    var pos := 0;
    while pos < |data|
      invariant 0 <= pos <= |data| && b.Valid() && b.count == count && b.bufsiz == bufsiz && b.text == data[..pos]
      invariant fresh(b) && fresh(b.tailbuf)
    {
      var nread :| 1 <= nread <= b.tailbuf.Length - b.taillen && pos + nread <= |data|;
      assert data[..pos] + data[pos..pos + nread] == data[..pos + nread];
      b.Read(data[pos..pos + nread]);
      pos := pos + nread;
    }
    assert data[..pos] == data;
    out := b.tailbuf[..b.taillen];
  }
}
