/**
 Offsets, line/character positions and lines of a source text (packages/compiler/src/locations.ts,
 packages/compiler/src/form-index.ts), and the translation of positions from an embedded text into its host
 (packages/cli/src/typescript-template-form-index.ts).
 */
module Positions {
  import opened Texts
  import opened Ranges

  const LF: CodeUnit := 10
  const CR: CodeUnit := 13

  // A line break ends just before this offset. CR LF is one break.
  predicate BreakEndsAt(text: Text, offset: nat)
    requires offset <= |text|
  {
    && 0 < offset
    && (text[offset - 1] == LF || (text[offset - 1] == CR && !(offset < |text| && text[offset] == LF)))
  }

  predicate InsideCrLf(text: Text, offset: nat)
    requires offset <= |text|
  {
    0 < offset < |text| && text[offset - 1] == CR && text[offset] == LF
  }

  // The offsets, up to and including a bound, at which a line starts.
  function LineStarts(text: Text, bound: nat): (starts: seq<nat>)
    requires bound <= |text|
    ensures starts != [] && starts[0] == 0
    ensures forall k :: 0 <= k < |starts| ==> starts[k] <= bound
  {
    if bound == 0 then [0] else LineStarts(text, bound - 1) + (if BreakEndsAt(text, bound) then [bound] else [])
  }

  function Last(s: seq<nat>): nat
    requires s != []
  {
    s[|s| - 1]
  }

  // The line of an offset is the number of breaks before it.
  function PositionOf(text: Text, offset: nat): Position
    requires offset <= |text|
  {
    var starts := LineStarts(text, offset);
    Position(|starts| - 1, offset - Last(starts))
  }

  ghost predicate Increasing(starts: seq<nat>) {
    forall i, j :: 0 <= i < j < |starts| ==> starts[i] < starts[j]
  }

  lemma {:induction false} LineStartsIncrease(text: Text, bound: nat)
    requires bound <= |text|
    ensures Increasing(LineStarts(text, bound))
  {
    if bound > 0 {
      LineStartsIncrease(text, bound - 1);
    }
  }

  // The starts up to an offset are the first of all starts.
  lemma {:induction false} LineStartsPrefix(text: Text, lower: nat, upper: nat)
    requires lower <= upper <= |text|
    ensures LineStarts(text, lower) <= LineStarts(text, upper)
    ensures forall k :: |LineStarts(text, lower)| <= k < |LineStarts(text, upper)| ==> lower < LineStarts(text, upper)[k]
    decreases upper
  {
    if lower < upper {
      LineStartsPrefix(text, lower, upper - 1);
    }
  }

  // ----- The two loops of the line table -----

  // One pass over the text, stepping over the second half of CR LF.
  method LineStartsFor(text: Text) returns (starts: seq<nat>)
    ensures starts == LineStarts(text, |text|)
  {
    starts := [0];
    var index := 0;
    while index < |text|
      invariant index <= |text|
      invariant starts == LineStarts(text, index)
      invariant !InsideCrLf(text, index)
    {
      var code := text[index];
      if code == CR {
        if index + 1 < |text| && text[index + 1] == LF {
          index := index + 1;
        }
        starts := starts + [index + 1];
      } else if code == LF {
        starts := starts + [index + 1];
      }
      index := index + 1;
    }
  }

  // Binary search for the last line that starts at or before the offset.
  method PositionAt(starts: seq<nat>, offset: nat) returns (p: Position)
    requires starts != [] && starts[0] == 0 && Increasing(starts)
    ensures p.line < |starts| && starts[p.line] + p.character == offset
    ensures forall k :: 0 <= k < |starts| ==> (starts[k] <= offset <==> k <= p.line)
  {
    var low, high := 0, |starts|;
    while low < high
      invariant 0 <= low <= high <= |starts|
      invariant forall k :: 0 <= k < low ==> starts[k] <= offset
      invariant forall k :: high <= k < |starts| ==> offset < starts[k]
    {
      var middle := (low + high) / 2;
      if starts[middle] <= offset {
        low := middle + 1;
      } else {
        high := middle;
      }
    }
    assert 0 < low;
    p := Position(low - 1, offset - starts[low - 1]);
  }

  // The search in the table of the whole text finds the position that counting breaks gives.
  lemma SearchFindsPosition(text: Text, offset: nat, p: Position)
    requires offset <= |text|
    requires
      var starts := LineStarts(text, |text|);
      && p.line < |starts| && starts[p.line] + p.character == offset
      && forall k :: 0 <= k < |starts| ==> (starts[k] <= offset <==> k <= p.line)
    ensures p == PositionOf(text, offset)
  {
    var starts, before := LineStarts(text, |text|), LineStarts(text, offset);
    LineStartsPrefix(text, offset, |text|);
    assert starts[|before| - 1] == before[|before| - 1] <= offset;
    assert |before| < |starts| ==> offset < starts[|before|];
  }

  method PositionOfOffset(text: Text, offset: nat) returns (p: Position)
    requires offset <= |text|
    ensures p == PositionOf(text, offset)
  {
    var starts := LineStartsFor(text);
    LineStartsIncrease(text, |text|);
    p := PositionAt(starts, offset);
    SearchFindsPosition(text, offset, p);
  }

  // Later offsets have later positions, so no two offsets share one.
  lemma PositionsIncrease(text: Text, a: nat, b: nat)
    requires a < b <= |text|
    ensures
      var p, q := PositionOf(text, a), PositionOf(text, b);
      p.line < q.line || (p.line == q.line && p.character < q.character)
  {
    LineStartsPrefix(text, a, b);
    var starts, later := LineStarts(text, a), LineStarts(text, b);
    assert later[|starts| - 1] == starts[|starts| - 1];
  }

  // ----- The lines of a text, and the positions that are accepted in it -----

  function BreakLength(text: Text, i: nat): nat
    requires i < |text|
  {
    if text[i] == CR && i + 1 < |text| && text[i + 1] == LF then 2 else if text[i] == CR || text[i] == LF then 1 else 0
  }

  // Splitting at every CR LF, LF or CR; the current line began at `start`.
  function SplitLines(text: Text, start: nat, i: nat): (lines: seq<Text>)
    requires start <= i <= |text|
    ensures lines != []
    decreases |text| - i
  {
    if i == |text| then [text[start..]]
    else if BreakLength(text, i) == 0 then SplitLines(text, start, i + 1)
    else [text[start..i]] + SplitLines(text, i + BreakLength(text, i), i + BreakLength(text, i))
  }

  function Lines(text: Text): seq<Text> {
    SplitLines(text, 0, 0)
  }

  // The lines from the current one on, and what surrounds each of them in the text.
  ghost predicate LinesMatch(text: Text, starts: seq<nat>, lines: seq<Text>) {
    && |starts| == |lines|
    && (forall k :: 0 <= k < |lines| ==> LineFits(text, starts, lines[k], k))
  }

  ghost predicate LineFits(text: Text, starts: seq<nat>, line: Text, k: nat)
    requires k < |starts|
  {
    var end := starts[k] + |line|;
    && end <= |text| && text[starts[k]..end] == line
    && (forall i :: starts[k] <= i < end ==> BreakLength(text, i) == 0)
    && if k + 1 < |starts| then end < |text| && BreakLength(text, end) > 0 && starts[k + 1] == end + BreakLength(text, end)
       else end == |text|
  }

  lemma BreakAdds(text: Text, i: nat)
    requires i < |text| && !InsideCrLf(text, i) && BreakLength(text, i) > 0
    ensures i + BreakLength(text, i) <= |text| && !InsideCrLf(text, i + BreakLength(text, i))
    ensures LineStarts(text, i + BreakLength(text, i)) == LineStarts(text, i) + [i + BreakLength(text, i)]
  {
    if BreakLength(text, i) == 2 {
      assert !BreakEndsAt(text, i + 1);
    }
  }

  lemma LastLine(text: Text, start: nat)
    requires start <= |text| && (forall j :: start <= j < |text| ==> BreakLength(text, j) == 0)
    ensures LinesMatch(text, [start], [text[start..]])
  {
  }

  lemma {:induction false} SplitMatches(text: Text, start: nat, i: nat, k: nat)
    requires start <= i <= |text| && !InsideCrLf(text, i)
    requires forall j :: start <= j < i ==> BreakLength(text, j) == 0
    requires k + 1 == |LineStarts(text, i)| && LineStarts(text, i)[k] == start
    ensures k < |LineStarts(text, |text|)|
    ensures LinesMatch(text, LineStarts(text, |text|)[k..], SplitLines(text, start, i))
    decreases |text| - i
  {
    if i == |text| {
      LastLine(text, start);
      assert LineStarts(text, |text|)[k..] == [start];
    } else if BreakLength(text, i) == 0 {
      SplitMatches(text, start, i + 1, k);
    } else {
      BreakAdds(text, i);
      var next, all := i + BreakLength(text, i), LineStarts(text, |text|);
      SplitMatches(text, next, next, k + 1);
      KeptStart(text, i, next, k);
      LineAdded(text, start, i, all[k + 1..], SplitLines(text, next, next));
    }
  }

  lemma KeptStart(text: Text, i: nat, next: nat, k: nat)
    requires i <= next <= |text| && k + 1 == |LineStarts(text, i)|
    requires LineStarts(text, next) == LineStarts(text, i) + [next]
    ensures
      var all := LineStarts(text, |text|);
      k + 1 < |all| && all[k + 1] == next && all[k..] == [LineStarts(text, i)[k]] + all[k + 1..]
  {
    LineStartsPrefix(text, next, |text|);
    var all := LineStarts(text, |text|);
    assert all[k] == LineStarts(text, next)[k] && all[k + 1] == LineStarts(text, next)[k + 1];
  }

  lemma LineAdded(text: Text, start: nat, end: nat, starts: seq<nat>, lines: seq<Text>)
    requires start <= end < |text| && BreakLength(text, end) > 0
    requires forall j :: start <= j < end ==> BreakLength(text, j) == 0
    requires LinesMatch(text, starts, lines) && starts != [] && starts[0] == end + BreakLength(text, end)
    ensures LinesMatch(text, [start] + starts, [text[start..end]] + lines)
  {
    var longer, more := [start] + starts, [text[start..end]] + lines;
    forall k | 0 <= k < |more|
      ensures LineFits(text, longer, more[k], k)
    {
      if k > 0 {
        assert LineFits(text, starts, lines[k - 1], k - 1);
      }
    }
  }

  // One line for every line start, each the text between its start and the break before the next.
  lemma LinesFollowStarts(text: Text)
    ensures LinesMatch(text, LineStarts(text, |text|), Lines(text))
  {
    LineStartsPrefix(text, 0, |text|);
    SplitMatches(text, 0, 0, 0);
    assert LineStarts(text, |text|)[0..] == LineStarts(text, |text|);
  }

  predicate AcceptedPosition(p: Position, lines: seq<Text>) {
    p.line < |lines| && p.character <= |lines[p.line]|
  }

  // The position of an offset is accepted unless the offset lies between the halves of a CR LF.
  lemma OffsetAccepted(text: Text, offset: nat)
    requires offset <= |text|
    ensures AcceptedPosition(PositionOf(text, offset), Lines(text)) <==> !InsideCrLf(text, offset)
  {
    var starts, lines, p := LineStarts(text, |text|), Lines(text), PositionOf(text, offset);
    LinesFollowStarts(text);
    LineStartsPrefix(text, offset, |text|);
    assert starts[p.line] + p.character == offset;
    assert LineFits(text, starts, lines[p.line], p.line);
    var end := starts[p.line] + |lines[p.line]|;
    assert p.line + 1 < |starts| ==> offset < starts[p.line + 1];
    if InsideCrLf(text, offset) {
      assert BreakLength(text, offset - 1) == 2;
    }
  }

  // The positions accepted in a text are exactly those of the offsets that do not split a CR LF.
  lemma AcceptedExactly(text: Text, p: Position)
    ensures AcceptedPosition(p, Lines(text)) <==>
      exists offset: nat :: offset <= |text| && !InsideCrLf(text, offset) && PositionOf(text, offset) == p
  {
    if AcceptedPosition(p, Lines(text)) {
      var starts, lines := LineStarts(text, |text|), Lines(text);
      LinesFollowStarts(text);
      LineStartsIncrease(text, |text|);
      assert LineFits(text, starts, lines[p.line], p.line);
      var offset := starts[p.line] + p.character;
      assert forall k :: 0 <= k < |starts| ==> (starts[k] <= offset <==> k <= p.line);
      SearchFindsPosition(text, offset, p);
      OffsetAccepted(text, offset);
    } else {
      forall offset: nat | offset <= |text| && !InsideCrLf(text, offset)
        ensures PositionOf(text, offset) != p
      {
        OffsetAccepted(text, offset);
      }
    }
  }

  // ----- Embedded texts -----

  function OffsetPosition(position: Position, base: Position): Position {
    Position(
      base.line + position.line,
      if position.line == 0 then base.character + position.character else position.character)
  }

  function Shift(starts: seq<nat>, distance: nat): seq<nat> {
    seq(|starts|, i requires 0 <= i < |starts| => starts[i] + distance)
  }

  lemma SameBreak(text: Text, from: nat, to: nat, offset: nat)
    requires from <= to <= |text| && from + offset <= to && offset > 0
    requires offset == to - from ==> !InsideCrLf(text, to)
    ensures BreakEndsAt(text, from + offset) == BreakEndsAt(text[from..to], offset)
  {
    assert text[from..to][offset - 1] == text[from + offset - 1];
    if offset < to - from {
      assert text[from..to][offset] == text[from + offset];
    }
  }

  // The line starts inside an embedded text are those of its host, except at the end of a text that ends
  // between the halves of a CR LF.
  lemma {:induction false} EmbeddedStarts(text: Text, from: nat, to: nat, offset: nat)
    requires from <= to <= |text| && from + offset <= to
    requires offset == to - from && offset > 0 ==> !InsideCrLf(text, to)
    ensures LineStarts(text, from + offset) == LineStarts(text, from) + Shift(LineStarts(text[from..to], offset)[1..], from)
    decreases offset
  {
    if offset > 0 {
      EmbeddedStarts(text, from, to, offset - 1);
      var slice := text[from..to];
      SameBreak(text, from, to, offset);
      var shorter, longer := LineStarts(slice, offset - 1), LineStarts(slice, offset);
      if BreakEndsAt(slice, offset) {
        assert longer[1..] == shorter[1..] + [offset];
        assert Shift(longer[1..], from) == Shift(shorter[1..], from) + [from + offset];
      }
    }
  }

  // Translating a position from an embedded text gives the position in the host, exactly when the embedded text does
  // not end between the halves of a CR LF or the position is not at that end. Where it begins does not matter.
  lemma PositionsTranslate(text: Text, from: nat, to: nat, offset: nat)
    requires from <= to <= |text| && from + offset <= to
    ensures
      OffsetPosition(PositionOf(text[from..to], offset), PositionOf(text, from)) == PositionOf(text, from + offset)
      <==> !(0 < offset == to - from && InsideCrLf(text, to))
  {
    if 0 < offset == to - from && InsideCrLf(text, to) {
      EndCut(text, from, to);
    } else {
      PlaceKept(text, from, to, offset);
    }
  }

  lemma EndCut(text: Text, from: nat, to: nat)
    requires from < to <= |text| && InsideCrLf(text, to)
    ensures OffsetPosition(PositionOf(text[from..to], to - from), PositionOf(text, from)) != PositionOf(text, to)
  {
    var slice, offset := text[from..to], to - from;
    EmbeddedStarts(text, from, to, offset - 1);
    assert BreakEndsAt(slice, offset) && !BreakEndsAt(text, to);
    assert |LineStarts(slice, offset)| == |LineStarts(slice, offset - 1)| + 1;
  }

  lemma PlaceKept(text: Text, from: nat, to: nat, offset: nat)
    requires from <= to <= |text| && from + offset <= to
    requires !(0 < offset == to - from && InsideCrLf(text, to))
    ensures OffsetPosition(PositionOf(text[from..to], offset), PositionOf(text, from)) == PositionOf(text, from + offset)
  {
    EmbeddedStarts(text, from, to, offset);
    var inner := LineStarts(text[from..to], offset);
    if |inner| > 1 {
      assert Last(Shift(inner[1..], from)) == Last(inner) + from;
    }
  }

  const CR_LF: Text := [CR, LF]

  // The text CR of the host CR LF: its end is the start of a line, and no line starts there in the host.
  lemma CutLineBreak()
    ensures OffsetPosition(PositionOf(CR_LF[0..1], 1), PositionOf(CR_LF, 0)) == Position(1, 0)
    ensures PositionOf(CR_LF, 1) == Position(0, 1)
  {
    var half := CR_LF[0..1];
    assert half[0] == CR && |half| == 1;
    assert LineStarts(half, 0) == LineStarts(CR_LF, 0) == [0];
    assert BreakEndsAt(half, 1) && !BreakEndsAt(CR_LF, 1);
    assert LineStarts(half, 1) == [0, 1] && LineStarts(CR_LF, 1) == [0];
  }
}
