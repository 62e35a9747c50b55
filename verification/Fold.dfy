/** fold: adjust_column and the character loop of fold_main. */
module Fold {
  import opened Bits

  const TAB: Byte := 9
  const BACKSPACE: Byte := 8
  const NEWLINE: Byte := 10
  const RETURN: Byte := 13
  const SPACE: Byte := 32

  datatype Options = Options(countBytes: bool, breakSpaces: bool, unicode: bool)

  predicate IsBlank(c: Byte)
  {
    c == SPACE || c == TAB
  }

  // The column that printing `c` moves the cursor to.
  function AdjustColumn(o: Options, column: nat, c: Byte): nat
  {
    if o.countBytes then column + 1
    else if c == TAB then column + 8 - column % 8
    else if c == BACKSPACE then if column == 0 then 0 else column - 1
    else if c == RETURN then 0
    else if o.unicode && c / 64 == 2 then column
    else column + 1
  }

  function Column(o: Options, line: seq<Byte>, start: nat): nat
  {
    if line == [] then start else AdjustColumn(o, Column(o, line[..|line| - 1], start), line[|line| - 1])
  }

  // Starting further left never ends further right.
  lemma AdjustMono(o: Options, a: nat, b: nat, c: Byte)
    requires a <= b
    ensures AdjustColumn(o, a, c) <= AdjustColumn(o, b, c)
  {
  }

  lemma {:induction false} ColumnMono(o: Options, line: seq<Byte>, a: nat, b: nat)
    requires a <= b
    ensures Column(o, line, a) <= Column(o, line, b)
    decreases |line|
  {
    hide AdjustColumn;
    if line != [] {
      ColumnMono(o, line[..|line| - 1], a, b);
      AdjustMono(o, Column(o, line[..|line| - 1], a), Column(o, line[..|line| - 1], b), line[|line| - 1]);
    }
  }

  lemma {:induction false} ColumnConcat(o: Options, x: seq<Byte>, y: seq<Byte>, start: nat)
    ensures Column(o, x + y, start) == Column(o, y, Column(o, x, start))
    decreases |y|
  {
    hide AdjustColumn;
    if y == [] {
      assert x + y == x;
    } else {
      assert (x + y)[..|x + y| - 1] == x + y[..|y| - 1];
      ColumnConcat(o, x, y[..|y| - 1], start);
    }
  }

  // ---------- lines that fit ----------

  ghost predicate Within(o: Options, width: nat, line: seq<Byte>, i: nat)
    requires i <= |line|
  {
    Column(o, line[..i], 0) <= width
  }

  // No character passes the width, except that a tab may do so as the first.
  ghost predicate Fits(o: Options, width: nat, line: seq<Byte>)
  {
    && (forall i :: 2 <= i <= |line| ==> Within(o, width, line, i))
    && (line != [] ==> Within(o, width, line, 1) || line[0] == TAB)
    && NEWLINE !in line
  }

  lemma FitsMore(o: Options, width: nat, line: seq<Byte>, c: Byte)
    requires Fits(o, width, line) && c != NEWLINE && width >= 1
    requires Column(o, line + [c], 0) <= width || line == []
    ensures Fits(o, width, line + [c])
  {
    hide AdjustColumn;
    var more := line + [c];
    forall i | 2 <= i <= |more|
      ensures Within(o, width, more, i)
    {
      if i == |more| {
        assert more[..i] == more;
      } else {
        assert more[..i] == line[..i];
        assert Within(o, width, line, i);
      }
    }
    if line != [] {
      assert more[..1] == line[..1];
    } else {
      FirstColumn(o, c);
      assert more[..1] == [c];
    }
  }

  lemma FirstColumn(o: Options, c: Byte)
    ensures c != TAB ==> Column(o, [c], 0) <= 1
  {
    assert [c][..0] == [];
    assert Column(o, [], 0) == 0;
  }

  lemma ColumnNext(o: Options, line: seq<Byte>, c: Byte)
    ensures Column(o, line + [c], 0) == AdjustColumn(o, Column(o, line, 0), c)
  {
    assert (line + [c])[..|line|] == line;
  }

  // What is moved to the next line fits there, since it starts further left.
  lemma RemainderFits(o: Options, width: nat, line: seq<Byte>, end: nat)
    requires Fits(o, width, line) && 1 <= end <= |line|
    ensures Fits(o, width, line[..end]) && Fits(o, width, line[end..])
  {
    hide AdjustColumn, Column;
    var head, rest := line[..end], line[end..];
    forall i | 2 <= i <= |head|
      ensures Within(o, width, head, i)
    {
      assert head[..i] == line[..i];
      assert Within(o, width, line, i);
    }
    assert head[..1] == line[..1];
    forall i | 1 <= i <= |rest|
      ensures Within(o, width, rest, i)
    {
      assert line[..end + i] == head + rest[..i];
      assert Within(o, width, line, end + i);
      ColumnConcat(o, head, rest[..i], 0);
      ColumnMono(o, rest[..i], 0, Column(o, head, 0));
    }
  }

  // ---------- what the output stands for ----------

  // A line of output; `hard` tells that its newline comes from the input.
  datatype Line = Line(text: seq<Byte>, hard: bool)

  function Output(lines: seq<Line>): seq<Byte>
  {
    if lines == [] then []
    else Output(lines[..|lines| - 1]) + lines[|lines| - 1].text + [NEWLINE]
  }

  // The output without the newlines that were inserted.
  function Original(lines: seq<Line>): seq<Byte>
  {
    if lines == [] then []
    else
      var last := lines[|lines| - 1];
      Original(lines[..|lines| - 1]) + last.text + if last.hard then [NEWLINE] else []
  }

  ghost predicate HasBlank(line: seq<Byte>)
  {
    exists i :: 0 <= i < |line| && IsBlank(line[i])
  }

  // Behind `line`, which ends at position `at` of the input, come `k` characters
  // that cannot be separated from the next one, and that one does not fit any more.
  ghost predicate Overfull(o: Options, width: nat, input: seq<Byte>, line: seq<Byte>, at: nat, k: nat)
  {
    && at + k < |input|
    && !HasBlank(input[at..at + k]) && NEWLINE !in input[at..at + k]
    && Column(o, line + input[at..at + k] + [input[at + k]], 0) > width
  }

  // A newline is only inserted where the width asks for it: right before the
  // character that does not fit, or, breaking at spaces, behind the last blank
  // before it if there is one.
  ghost predicate BreakOk(o: Options, width: nat, input: seq<Byte>, line: seq<Byte>, at: nat)
  {
    exists k: nat :: BreakAt(o, width, input, line, at, k)
  }

  ghost predicate BreakAt(o: Options, width: nat, input: seq<Byte>, line: seq<Byte>, at: nat, k: nat)
  {
    && line != [] && Overfull(o, width, input, line, at, k)
    && if o.breakSpaces then IsBlank(line[|line| - 1]) || (k == 0 && !HasBlank(line)) else k == 0
  }

  ghost predicate LineOk(o: Options, width: nat, input: seq<Byte>, lines: seq<Line>, i: nat)
    requires i < |lines|
  {
    && Fits(o, width, lines[i].text)
    && (!lines[i].hard ==> BreakOk(o, width, input, lines[i].text, |Original(lines[..i + 1])|))
  }

  ghost predicate LinesOk(o: Options, width: nat, input: seq<Byte>, lines: seq<Line>)
  {
    forall i :: 0 <= i < |lines| ==> LineOk(o, width, input, lines, i)
  }

  lemma LineStays(o: Options, width: nat, input: seq<Byte>, lines: seq<Line>, line: Line, i: nat)
    requires i < |lines| && LineOk(o, width, input, lines, i)
    ensures LineOk(o, width, input, lines + [line], i)
  {
    hide Fits, BreakOk, Original;
    assert (lines + [line])[..i + 1] == lines[..i + 1];
  }

  lemma LinesNext(o: Options, width: nat, input: seq<Byte>, lines: seq<Line>, line: Line)
    requires LinesOk(o, width, input, lines) && Fits(o, width, line.text)
    requires !line.hard ==> BreakOk(o, width, input, line.text, |Original(lines)| + |line.text|)
    ensures LinesOk(o, width, input, lines + [line])
    ensures Output(lines + [line]) == Output(lines) + line.text + [NEWLINE]
    ensures Original(lines + [line]) == Original(lines) + line.text + if line.hard then [NEWLINE] else []
  {
    hide LineOk, Original, Output;
    var more := lines + [line];
    TextNext(lines, line);
    forall i | 0 <= i < |more|
      ensures LineOk(o, width, input, more, i)
    {
      if i < |lines| {
        LineStays(o, width, input, lines, line, i);
      } else {
        LastLineOk(o, width, input, lines, line);
      }
    }
  }

  lemma LastLineOk(o: Options, width: nat, input: seq<Byte>, lines: seq<Line>, line: Line)
    requires Fits(o, width, line.text)
    requires !line.hard ==> BreakOk(o, width, input, line.text, |Original(lines)| + |line.text|)
    ensures LineOk(o, width, input, lines + [line], |lines|)
  {
    hide Fits, BreakOk, Original;
    TextNext(lines, line);
    assert (lines + [line])[..|lines| + 1] == lines + [line];
  }

  lemma TextNext(lines: seq<Line>, line: Line)
    ensures Output(lines + [line]) == Output(lines) + line.text + [NEWLINE]
    ensures Original(lines + [line]) == Original(lines) + line.text + if line.hard then [NEWLINE] else []
    ensures !line.hard ==> |Original(lines + [line])| == |Original(lines)| + |line.text|
  {
    assert (lines + [line])[..|lines|] == lines;
  }

  // ---------- the character loop ----------

  // The index behind the last blank, or 0.
  method LastBlank(line: seq<Byte>) returns (end: nat)
    ensures end <= |line|
    ensures end > 0 ==> IsBlank(line[end - 1])
    ensures !HasBlank(line[end..])
  {
    end := |line|;
    while end > 0
      invariant end <= |line| && forall i :: end <= i < |line| ==> !IsBlank(line[i])
    {
      if IsBlank(line[end - 1]) {
        return;
      }
      end := end - 1;
    }
  }

  // What holds between characters: `lines` are out, `line` is buffered, and
  // together they are the input up to `pos`.
  ghost predicate Folding(o: Options, width: nat, input: seq<Byte>, lines: seq<Line>, line: seq<Byte>, pos: nat)
  {
    && pos <= |input| && Original(lines) + line == input[..pos]
    && LinesOk(o, width, input, lines) && Fits(o, width, line)
  }

  lemma FoldAccept(o: Options, width: nat, input: seq<Byte>, lines: seq<Line>, line: seq<Byte>, pos: nat)
    requires Folding(o, width, input, lines, line, pos) && pos < |input| && input[pos] != NEWLINE && width >= 1
    requires Column(o, line + [input[pos]], 0) <= width || line == []
    ensures Folding(o, width, input, lines, line + [input[pos]], pos + 1)
  {
    hide Fits, LinesOk, Original, Column;
    FitsMore(o, width, line, input[pos]);
    assert Original(lines) + (line + [input[pos]]) == (Original(lines) + line) + [input[pos]];
    assert input[..pos + 1] == input[..pos] + [input[pos]];
  }

  lemma FoldNewline(o: Options, width: nat, input: seq<Byte>, lines: seq<Line>, line: seq<Byte>, pos: nat)
    requires Folding(o, width, input, lines, line, pos) && pos < |input| && input[pos] == NEWLINE
    ensures Folding(o, width, input, lines + [Line(line, true)], [], pos + 1)
    ensures Output(lines + [Line(line, true)]) == Output(lines) + line + [NEWLINE]
  {
    hide Fits, LinesOk, Original, Output;
    LinesNext(o, width, input, lines, Line(line, true));
    NothingFits(o, width);
    assert input[..pos + 1] == input[..pos] + [input[pos]];
  }

  lemma NothingFits(o: Options, width: nat)
    ensures Fits(o, width, [])
  {
  }

  // Break after `end` characters.
  lemma FoldBreak(o: Options, width: nat, input: seq<Byte>, lines: seq<Line>, line: seq<Byte>, pos: nat, end: nat)
    requires Folding(o, width, input, lines, line, pos) && 1 <= end <= |line|
    requires BreakOk(o, width, input, line[..end], |Original(lines)| + end)
    ensures Folding(o, width, input, lines + [Line(line[..end], false)], line[end..], pos)
    ensures Output(lines + [Line(line[..end], false)]) == Output(lines) + line[..end] + [NEWLINE]
  {
    hide Fits, LinesOk, Original, Output, BreakOk;
    RemainderFits(o, width, line, end);
    LinesNext(o, width, input, lines, Line(line[..end], false));
    assert line[..end] + line[end..] == line;
    assert (Original(lines) + line[..end] + []) + line[end..] == Original(lines) + line;
  }

  lemma FoldingSize(o: Options, width: nat, input: seq<Byte>, lines: seq<Line>, line: seq<Byte>, pos: nat)
    requires Folding(o, width, input, lines, line, pos)
    ensures |Original(lines)| + |line| == pos
  {
  }

  // Take in the character at `pos`, breaking the line as often as needed.
  method FoldChar(o: Options, width: nat, input: seq<Byte>, pos: nat, line0: seq<Byte>, column0: nat, ghost lines0: seq<Line>)
    returns (out: seq<Byte>, line: seq<Byte>, column: nat, ghost lines: seq<Line>)
    requires width >= 1 && pos < |input| && Folding(o, width, input, lines0, line0, pos) && column0 == Column(o, line0, 0)
    ensures Folding(o, width, input, lines, line, pos + 1) && column == Column(o, line, 0)
    ensures Output(lines) == Output(lines0) + out
  {
    hide Folding, Column, AdjustColumn, Output, Original, BreakOk, HasBlank;
    out, line, column, lines := [], line0, column0, lines0;
    var c := input[pos];
    while true
      invariant Folding(o, width, input, lines, line, pos) && column == Column(o, line, 0)
      invariant Output(lines) == Output(lines0) + out
      decreases |line|
    {
      if c == NEWLINE {
        FoldNewline(o, width, input, lines, line, pos);
        lines := lines + [Line(line, true)];
        out := out + line + [NEWLINE];
        line, column := [], 0;
        NoColumn(o);
        return;
      }
      ColumnNext(o, line, c);
      column := AdjustColumn(o, column, c);
      if column <= width || line == [] {
        FoldAccept(o, width, input, lines, line, pos);
        line := line + [c];
        return;
      }
      FoldingSize(o, width, input, lines, line, pos);
      var end := |line|;
      if o.breakSpaces {
        var blank := LastBlank(line);
        if blank > 0 {
          end := blank;
        }
      }
      BreakIsOk(o, width, input, lines, line, pos, end);
      FoldBreak(o, width, input, lines, line, pos, end);
      lines := lines + [Line(line[..end], false)];
      out := out + line[..end] + [NEWLINE];
      line := line[end..];
      column := Recount(o, line);
    }
  }

  lemma NoColumn(o: Options)
    ensures Column(o, [], 0) == 0
  {
  }

  lemma BreakIsOk(o: Options, width: nat, input: seq<Byte>, lines: seq<Line>, line: seq<Byte>, pos: nat, end: nat)
    requires Folding(o, width, input, lines, line, pos) && pos < |input| && 1 <= end <= |line|
    requires Column(o, line + [input[pos]], 0) > width
    requires if o.breakSpaces then
               (IsBlank(line[end - 1]) && !HasBlank(line[end..])) || (end == |line| && !HasBlank(line))
             else end == |line|
    ensures BreakOk(o, width, input, line[..end], |Original(lines)| + end)
  {
    hide Column, Original, LinesOk, Within;
    var at, k := |Original(lines)| + end, |line| - end;
    RestOfLine(input, Original(lines), line, pos, end);
    assert line[..end] + line[end..] == line;
    assert HasBlank([]) == false;
    assert Overfull(o, width, input, line[..end], at, k);
    if end == |line| {
      assert line[..end] == line;
    }
    assert BreakAt(o, width, input, line[..end], at, k);
  }

  lemma RestOfLine(input: seq<Byte>, before: seq<Byte>, line: seq<Byte>, pos: nat, end: nat)
    requires pos <= |input| && before + line == input[..pos] && end <= |line|
    ensures |before| + |line| == pos && input[|before| + end..pos] == line[end..]
  {
    assert input[|before| + end..pos] == input[..pos][|before| + end..];
  }

  // The column of what was moved to the next line.
  method Recount(o: Options, line: seq<Byte>) returns (column: nat)
    ensures column == Column(o, line, 0)
  {
    hide AdjustColumn, Column;
    column := 0;
    NoColumn(o);
    var i := 0;
    while i < |line|
      invariant 0 <= i <= |line| && column == Column(o, line[..i], 0)
    {
      ColumnNext(o, line[..i], line[i]);
      assert line[..i] + [line[i]] == line[..i + 1];
      column := AdjustColumn(o, column, line[i]);
      i := i + 1;
    }
    assert line[..i] == line;
  }

  // `out` is made of lines that fit, the last one unfinished; with the inserted
  // newlines removed it is the input.
  ghost predicate Folded(o: Options, width: nat, input: seq<Byte>, out: seq<Byte>)
  {
    exists lines: seq<Line>, last: seq<Byte> :: FoldedAs(o, width, input, out, lines, last)
  }

  ghost predicate FoldedAs(o: Options, width: nat, input: seq<Byte>, out: seq<Byte>, lines: seq<Line>, last: seq<Byte>)
  {
    && out == Output(lines) + last && Original(lines) + last == input
    && LinesOk(o, width, input, lines) && Fits(o, width, last)
  }

  method FoldFile(o: Options, width: nat, input: seq<Byte>) returns (out: seq<Byte>)
    requires width >= 1
    ensures Folded(o, width, input, out)
  {
    hide Column, AdjustColumn, Output, Original, LinesOk, Fits;
    out := [];
    ghost var lines := [];
    var line, column := [], 0;
    FoldStart(o, width, input);
    var pos := 0;
    while pos < |input|
      invariant 0 <= pos <= |input| && Folding(o, width, input, lines, line, pos) && column == Column(o, line, 0)
      invariant out == Output(lines)
    {
      var more;
      more, line, column, lines := FoldChar(o, width, input, pos, line, column, lines);
      out := out + more;
      pos := pos + 1;
    }
    assert input[..pos] == input;
    if |line| > 0 {
      out := out + line;
    } else {
      assert out + line == out;
    }
    assert FoldedAs(o, width, input, out, lines, line);
  }

  lemma FoldStart(o: Options, width: nat, input: seq<Byte>)
    ensures Folding(o, width, input, [], [], 0) && Column(o, [], 0) == 0 && Output([]) == []
  {
  }
}
