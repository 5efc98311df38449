/**
 * The multi-line buffer (Go `ui.MultiLine`): a non-empty sequence of lines and the index of the
 * active line. Every operation is a pure function from the old buffer to the new one and is built,
 * as in the Go code, from the single-line operations.
 */
module MultiLineBuffer {
  import opened Text
  import SL = SingleLineBuffer

  /** `cursor` is the index of the active line. */
  datatype MultiLine = MultiLine(lines: seq<SL.SingleLine>, cursor: int) {
    /** At least one line, the active index in range, and each line's own cursor invariant. */
    predicate Valid() {
      && |lines| >= 1
      && 0 <= cursor < |lines|
      && forall i | 0 <= i < |lines| :: lines[i].Valid()
    }
  }

  function Min(a: int, b: int): int {
    if a <= b then a else b
  }

  /** The texts of the lines, in order. */
  function Contents(lines: seq<SL.SingleLine>): seq<string> {
    seq(|lines|, i requires 0 <= i < |lines| => lines[i].content)
  }

  /**
   * `content()`: the lines' texts joined by newlines, with no cursor marker and no trailing newline.
   * When no line holds a newline, splitting the text at its newlines gives back exactly the lines.
   */
  function Content(m: MultiLine): (c: string)
    ensures |m.lines| >= 1 && (forall i | 0 <= i < |m.lines| :: '\n' !in m.lines[i].content) ==>
      SplitLines(c) == Contents(m.lines)
  {
    var cs := Contents(m.lines);
    if |cs| >= 1 && forall i | 0 <= i < |cs| :: '\n' !in cs[i] then
      SplitLinesJoin(cs);
      Join(cs)
    else
      Join(cs)
  }

  function NewMultiLine(): (m: MultiLine)
    ensures m.Valid() && |m.lines| == 1 && m.cursor == 0
    ensures m.lines[0].content == "" && m.lines[0].cursor == 0
  {
    MultiLine([SL.NewSingleLine()], 0)
  }

  /** Whatever the buffer held, afterwards it is one empty line with the cursor at its start. */
  function Clear(m: MultiLine): (m': MultiLine)
    ensures m'.Valid()
    ensures |m'.lines| == 1 && m'.cursor == 0 && m'.lines[0].cursor == 0
    ensures Content(m') == ""
  {
    MultiLine([SL.NewSingleLine()], 0)
  }

  /** Makes the last line active with its cursor at its end; nothing else changes. */
  function MoveCursorToEnd(m: MultiLine): (m': MultiLine)
    requires |m.lines| >= 1
    ensures |m'.lines| == |m.lines| && m'.cursor == |m.lines| - 1
    ensures m'.lines[m'.cursor].cursor == |m'.lines[m'.cursor].content|
    ensures Contents(m'.lines) == Contents(m.lines)
    ensures forall i | 0 <= i < |m.lines| - 1 :: m'.lines[i] == m.lines[i]
    ensures (forall i | 0 <= i < |m.lines| :: m.lines[i].Valid()) ==> m'.Valid()
  {
    var last := |m.lines| - 1;
    var m' := MultiLine(m.lines[last := SL.MoveCursorToEnd(m.lines[last])], last);
    assert Contents(m'.lines) == Contents(m.lines);
    m'
  }

  /**
   * Rebuilds the buffer from `s`: one line per newline-separated piece, every line's cursor at its
   * end, the last line active.
   */
  function Reset(s: string): (m: MultiLine)
    ensures m.Valid()
    ensures Contents(m.lines) == SplitLines(s)
    ensures m.cursor == |m.lines| - 1
    ensures forall i | 0 <= i < |m.lines| :: m.lines[i].cursor == |m.lines[i].content|
  {
    var parts := SplitLines(s);
    var lines := seq(|parts|, i requires 0 <= i < |parts| =>
      SL.MoveCursorToEnd(SL.NewSingleLineWithContent(parts[i])));
    assert Contents(lines) == parts;
    MoveCursorToEnd(MultiLine(lines, |parts| - 1))
  }

  /** Types `r` into the active line; no other line changes. */
  function Add(m: MultiLine, r: char): (m': MultiLine)
    requires m.Valid()
    ensures m'.Valid() && |m'.lines| == |m.lines| && m'.cursor == m.cursor
    ensures m'.lines[m.cursor] == SL.Add(m.lines[m.cursor], r)
    ensures forall i | 0 <= i < |m.lines| && i != m.cursor :: m'.lines[i] == m.lines[i]
  {
    m.(lines := m.lines[m.cursor := SL.Add(m.lines[m.cursor], r)])
  }

  /**
   * Backspace. Inside a line it deletes the character before the cursor. At the start of a line it
   * merges the line into the previous one, leaving the cursor at the junction; at the start of the
   * first line it does nothing.
   */
  function Remove(m: MultiLine): (m': MultiLine)
    requires m.Valid()
    ensures m'.Valid()
    ensures m.lines[m.cursor].cursor > 0 ==>
      && |m'.lines| == |m.lines| && m'.cursor == m.cursor
      && m'.lines[m.cursor] == SL.Remove(m.lines[m.cursor]).0
      && forall i | 0 <= i < |m.lines| && i != m.cursor :: m'.lines[i] == m.lines[i]
    ensures m.lines[m.cursor].cursor == 0 && m.cursor == 0 ==> m' == m
    ensures m.lines[m.cursor].cursor == 0 && m.cursor > 0 ==>
      && |m'.lines| == |m.lines| - 1 && m'.cursor == m.cursor - 1
      && m'.lines[m'.cursor] == SL.Merge(m.lines[m.cursor - 1], m.lines[m.cursor])
      && (forall i | 0 <= i < m'.cursor :: m'.lines[i] == m.lines[i])
      && (forall i | m.cursor <= i < |m'.lines| :: m'.lines[i] == m.lines[i + 1])
  {
    var (line, handled) := SL.Remove(m.lines[m.cursor]);
    if handled then
      m.(lines := m.lines[m.cursor := line])
    else if m.cursor == 0 then
      m
    else
      var merged := SL.Merge(m.lines[m.cursor - 1], m.lines[m.cursor]);
      MultiLine(m.lines[..m.cursor - 1] + [merged] + m.lines[m.cursor + 1..], m.cursor - 1)
  }

  /** Left arrow: inside the line one step left, at its start to the end of the previous line. */
  function MoveCursorLeft(m: MultiLine): (m': MultiLine)
    requires m.Valid()
    ensures m'.Valid() && |m'.lines| == |m.lines| && Contents(m'.lines) == Contents(m.lines)
    ensures m.lines[m.cursor].cursor > 0 ==>
      m'.cursor == m.cursor && m'.lines[m.cursor].cursor == m.lines[m.cursor].cursor - 1
    ensures m.lines[m.cursor].cursor == 0 && m.cursor == 0 ==> m' == m
    ensures m.lines[m.cursor].cursor == 0 && m.cursor > 0 ==>
      m'.cursor == m.cursor - 1 && m'.lines[m'.cursor].cursor == |m'.lines[m'.cursor].content|
    ensures forall i | 0 <= i < |m.lines| && i != m'.cursor :: m'.lines[i] == m.lines[i]
  {
    var (line, moved) := SL.MoveCursorLeft(m.lines[m.cursor]);
    var m' :=
      if moved then m.(lines := m.lines[m.cursor := line])
      else if m.cursor == 0 then m
      else MultiLine(m.lines[m.cursor - 1 := SL.MoveCursorToEnd(m.lines[m.cursor - 1])], m.cursor - 1);
    assert Contents(m'.lines) == Contents(m.lines);
    m'
  }

  /** Right arrow: inside the line one step right, at its end to the start of the next line. */
  function MoveCursorRight(m: MultiLine): (m': MultiLine)
    requires m.Valid()
    ensures m'.Valid() && |m'.lines| == |m.lines| && Contents(m'.lines) == Contents(m.lines)
    ensures m.lines[m.cursor].cursor < |m.lines[m.cursor].content| ==>
      m'.cursor == m.cursor && m'.lines[m.cursor].cursor == m.lines[m.cursor].cursor + 1
    ensures m.lines[m.cursor].cursor == |m.lines[m.cursor].content| && m.cursor == |m.lines| - 1 ==> m' == m
    ensures m.lines[m.cursor].cursor == |m.lines[m.cursor].content| && m.cursor < |m.lines| - 1 ==>
      m'.cursor == m.cursor + 1 && m'.lines[m'.cursor].cursor == 0
    ensures forall i | 0 <= i < |m.lines| && i != m'.cursor :: m'.lines[i] == m.lines[i]
  {
    var (line, moved) := SL.MoveCursorRight(m.lines[m.cursor]);
    var m' :=
      if moved then m.(lines := m.lines[m.cursor := line])
      else if m.cursor == |m.lines| - 1 then m
      else MultiLine(m.lines[m.cursor + 1 := SL.MoveCursorToStart(m.lines[m.cursor + 1])], m.cursor + 1);
    assert Contents(m'.lines) == Contents(m.lines);
    m'
  }

  /**
   * Up arrow: the previous line becomes active with its cursor in the current column, clamped
   * to that line's length; no-op on the first line.
   */
  function MoveCursorUp(m: MultiLine): (m': MultiLine)
    requires m.Valid()
    ensures m'.Valid() && |m'.lines| == |m.lines| && Contents(m'.lines) == Contents(m.lines)
    ensures m.cursor == 0 ==> m' == m
    ensures m.cursor > 0 ==>
      && m'.cursor == m.cursor - 1
      && m'.lines[m'.cursor].cursor == Min(m.lines[m.cursor].cursor, |m.lines[m.cursor - 1].content|)
    ensures forall i | 0 <= i < |m.lines| && i != m'.cursor :: m'.lines[i] == m.lines[i]
  {
    var next := m.cursor - 1;
    if next < 0 then m
    else
      var m' := MultiLine(m.lines[next := SL.MoveCursor(m.lines[next], m.lines[m.cursor].cursor)], next);
      assert Contents(m'.lines) == Contents(m.lines);
      m'
  }

  /**
   * Down arrow: the next line becomes active with its cursor in the current column, clamped to
   * that line's length; no-op on the last line.
   */
  function MoveCursorDown(m: MultiLine): (m': MultiLine)
    requires m.Valid()
    ensures m'.Valid() && |m'.lines| == |m.lines| && Contents(m'.lines) == Contents(m.lines)
    ensures m.cursor == |m.lines| - 1 ==> m' == m
    ensures m.cursor < |m.lines| - 1 ==>
      && m'.cursor == m.cursor + 1
      && m'.lines[m'.cursor].cursor == Min(m.lines[m.cursor].cursor, |m.lines[m.cursor + 1].content|)
    ensures forall i | 0 <= i < |m.lines| && i != m'.cursor :: m'.lines[i] == m.lines[i]
  {
    var next := m.cursor + 1;
    if next >= |m.lines| then m
    else
      var m' := MultiLine(m.lines[next := SL.MoveCursor(m.lines[next], m.lines[m.cursor].cursor)], next);
      assert Contents(m'.lines) == Contents(m.lines);
      m'
  }

  /**
   * Enter: cuts the active line at its cursor and inserts the cut-off rest as a new line right after
   * it, which becomes active with its cursor at its start.
   */
  function Split(m: MultiLine): (m': MultiLine)
    requires m.Valid()
    ensures m'.Valid() && |m'.lines| == |m.lines| + 1 && m'.cursor == m.cursor + 1
    ensures (m'.lines[m.cursor], m'.lines[m.cursor + 1]) == SL.Split(m.lines[m.cursor])
    ensures forall i | 0 <= i < m.cursor :: m'.lines[i] == m.lines[i]
    ensures forall i | m.cursor < i < |m.lines| :: m'.lines[i + 1] == m.lines[i]
  {
    var (kept, next) := SL.Split(m.lines[m.cursor]);
    MultiLine(m.lines[..m.cursor] + [kept, next] + m.lines[m.cursor + 1..], m.cursor + 1)
  }

  /** Every line followed by a newline, the active one (index `active`) with its cursor marker. */
  function RenderLines(lines: seq<SL.SingleLine>, active: int): string
    requires forall i | 0 <= i < |lines| :: lines[i].Valid()
  {
    if |lines| == 0 then ""
    else
      (if active == 0 then SL.ContentWithCursor(lines[0]) else lines[0].content)
      + "\n" + RenderLines(lines[1..], active - 1)
  }

  /**
   * `ContentWithCursor()`: the display text of the buffer. It is the newline-joined text with the
   * active line shown with its marker, plus one final newline.
   */
  function ContentWithCursor(m: MultiLine): (r: string)
    requires m.Valid()
    ensures var cs := Contents(m.lines);
      r == Before(cs, m.cursor) + SL.ContentWithCursor(m.lines[m.cursor]) + After(cs, m.cursor) + "\n"
  {
    RenderActive(m.lines, m.cursor);
    RenderLines(m.lines, m.cursor)
  }

  /** Dropping the first line drops the first text. */
  lemma ContentsTail(lines: seq<SL.SingleLine>)
    requires |lines| >= 1
    ensures Contents(lines[1..]) == Contents(lines)[1..]
  {
    var (cs, ct) := (Contents(lines), Contents(lines[1..]));
    assert |ct| == |cs[1..]|;
    forall i | 0 <= i < |ct|
      ensures ct[i] == cs[1..][i]
    {
      assert ct[i] == lines[1..][i].content == lines[i + 1].content;
    }
  }

  /** Rendering an inactive run of lines: every line's text followed by a newline. */
  lemma {:induction false} RenderPlain(lines: seq<SL.SingleLine>, active: int)
    requires forall i | 0 <= i < |lines| :: lines[i].Valid()
    requires |lines| >= 1 && active < 0
    ensures RenderLines(lines, active) == Join(Contents(lines)) + "\n"
  {
    var cs := Contents(lines);
    if |lines| > 1 {
      RenderPlain(lines[1..], active - 1);
      ContentsTail(lines);
    }
  }

  /** One step of the rendering: the first line, then the rest with the active index shifted. */
  lemma RenderStep(lines: seq<SL.SingleLine>, active: int)
    requires forall i | 0 <= i < |lines| :: lines[i].Valid()
    requires |lines| >= 1
    ensures RenderLines(lines, active)
      == (if active == 0 then SL.ContentWithCursor(lines[0]) else lines[0].content)
        + "\n" + RenderLines(lines[1..], active - 1)
  {
  }

  /** Rendering with the first line active: its marked text, then the plain rest. */
  lemma RenderFirst(lines: seq<SL.SingleLine>)
    requires forall i | 0 <= i < |lines| :: lines[i].Valid()
    requires |lines| >= 1
    ensures RenderLines(lines, 0)
      == Before(Contents(lines), 0) + SL.ContentWithCursor(lines[0]) + After(Contents(lines), 0) + "\n"
  {
    var (w, t) := (SL.ContentWithCursor(lines[0]), RenderLines(lines[1..], -1));
    var a := After(Contents(lines), 0);
    assert Before(Contents(lines), 0) == "";
    assert RenderLines(lines, 0) == w + "\n" + t by {
      RenderStep(lines, 0);
    }
    assert "\n" + t == a + "\n" by {
      RenderAfterFirst(lines);
    }
    Regroup(w, t, a, RenderLines(lines, 0));
  }

  /** A newline in front of `t` that equals one behind `a` can be regrouped behind any head `w`. */
  lemma Regroup(w: string, t: string, a: string, r: string)
    requires "\n" + t == a + "\n" && r == w + "\n" + t
    ensures r == "" + w + a + "\n"
  {
    assert w + "\n" + t == w + ("\n" + t);
    assert "" + w == w;
  }

  /** The plain lines after the first one render as the text after it, newline-terminated. */
  lemma RenderAfterFirst(lines: seq<SL.SingleLine>)
    requires forall i | 0 <= i < |lines| :: lines[i].Valid()
    requires |lines| >= 1
    ensures "\n" + RenderLines(lines[1..], -1) == After(Contents(lines), 0) + "\n"
  {
    var cs := Contents(lines);
    if |lines| > 1 {
      assert RenderLines(lines[1..], -1) == Join(cs[1..]) + "\n" by {
        RenderPlain(lines[1..], -1);
        ContentsTail(lines);
      }
    }
  }

  /** Prefixing a rendering with one more plain line moves its frame by that line. */
  lemma Reframe(x: string, b: string, w: string, a: string, b': string, a': string, r: string, r': string)
    requires r == b + w + a + "\n" && r' == x + "\n" + r
    requires b' == x + "\n" + b && a' == a
    ensures r' == b' + w + a' + "\n"
  {
  }

  /**
   * One step of the induction behind `RenderActive`: if the lines after the first render with the
   * marker in their line `active - 1`, the whole run renders with it in line `active`.
   */
  lemma RenderShift(lines: seq<SL.SingleLine>, active: int)
    requires forall i | 0 <= i < |lines| :: lines[i].Valid()
    requires 0 < active < |lines|
    requires var cs := Contents(lines[1..]);
      RenderLines(lines[1..], active - 1)
        == Before(cs, active - 1) + SL.ContentWithCursor(lines[active]) + After(cs, active - 1) + "\n"
    ensures var cs := Contents(lines);
      RenderLines(lines, active)
        == Before(cs, active) + SL.ContentWithCursor(lines[active]) + After(cs, active) + "\n"
  {
    var cs := Contents(lines);
    var rest := lines[1..];
    var w := SL.ContentWithCursor(lines[active]);
    var b, a := Before(cs[1..], active - 1), After(cs[1..], active - 1);
    assert RenderLines(rest, active - 1) == b + w + a + "\n" by {
      ContentsTail(lines);
    }
    assert RenderLines(lines, active) == cs[0] + "\n" + RenderLines(rest, active - 1) by {
      RenderStep(lines, active);
    }
    assert Before(cs, active) == cs[0] + "\n" + b by {
      BeforeTail(cs, active);
    }
    assert After(cs, active) == a by {
      AfterTail(cs, active);
    }
    Reframe(cs[0], b, w, a, Before(cs, active), After(cs, active), RenderLines(rest, active - 1), RenderLines(lines, active));
  }

  /** Rendering with line `active` marked: the marker sits in that line only. */
  lemma {:induction false} RenderActive(lines: seq<SL.SingleLine>, active: int)
    requires forall i | 0 <= i < |lines| :: lines[i].Valid()
    requires 0 <= active < |lines|
    ensures var cs := Contents(lines);
      RenderLines(lines, active)
        == Before(cs, active) + SL.ContentWithCursor(lines[active]) + After(cs, active) + "\n"
  {
    if active == 0 {
      RenderFirst(lines);
    } else {
      var cs := Contents(lines[1..]);
      assert RenderLines(lines[1..], active - 1)
          == Before(cs, active - 1) + SL.ContentWithCursor(lines[active]) + After(cs, active - 1) + "\n" by {
        RenderActive(lines[1..], active - 1);
        assert lines[1..][active - 1] == lines[active];
      }
      RenderShift(lines, active);
    }
  }


  /** `Reset` followed by `content()` gives back the text, for every text. */
  lemma ResetThenContent(s: string)
    ensures Content(Reset(s)) == s
  {
    JoinSplitLines(s);
  }

  /** A buffer whose lines hold no newline is rebuilt line for line by resetting it to its own text. */
  lemma ResetOwnContent(m: MultiLine)
    requires m.Valid()
    requires forall i | 0 <= i < |m.lines| :: '\n' !in m.lines[i].content
    ensures Contents(Reset(Content(m)).lines) == Contents(m.lines)
  {
    SplitLinesJoin(Contents(m.lines));
  }

  /** Typing a character and deleting it again restores the buffer exactly. */
  lemma AddThenRemove(m: MultiLine, r: char)
    requires m.Valid()
    ensures Remove(Add(m, r)) == m
  {
    SL.AddThenRemove(m.lines[m.cursor], r);
    assert m.lines[m.cursor := m.lines[m.cursor]] == m.lines;
  }

  /** Enter followed by Backspace restores the buffer exactly: lines, active index and column. */
  lemma SplitThenRemove(m: MultiLine)
    requires m.Valid()
    ensures Remove(Split(m)) == m
  {
    var s := Split(m);
    SL.SplitThenMerge(m.lines[m.cursor]);
    var r := Remove(s);
    assert r.lines == m.lines;
  }

  /**
   * Up then Down from an interior line comes back to the same line, in the original column when
   * the line above is at least that long and otherwise clamped to its length.
   */
  lemma UpThenDown(m: MultiLine)
    requires m.Valid() && m.cursor > 0
    ensures var r := MoveCursorDown(MoveCursorUp(m));
      && Contents(r.lines) == Contents(m.lines)
      && r.cursor == m.cursor
      && r.lines[r.cursor].cursor == Min(m.lines[m.cursor].cursor, |m.lines[m.cursor - 1].content|)
  {
  }

  /** Down then Up, the mirror image of `UpThenDown`. */
  lemma DownThenUp(m: MultiLine)
    requires m.Valid() && m.cursor < |m.lines| - 1
    ensures var r := MoveCursorUp(MoveCursorDown(m));
      && Contents(r.lines) == Contents(m.lines)
      && r.cursor == m.cursor
      && r.lines[r.cursor].cursor == Min(m.lines[m.cursor].cursor, |m.lines[m.cursor + 1].content|)
  {
  }

  /** `Reset("a\nb\nc")` gives the lines "a", "b", "c", the last one active with its cursor at its end. */
  lemma ResetExample()
    ensures var m := Reset("a\nb\nc");
      && Contents(m.lines) == ["a", "b", "c"]
      && m.cursor == 2
      && m.lines[2].cursor == 1
  {
    var parts := ["a", "b", "c"];
    assert parts[1..][1..] == ["c"];
    assert Join(parts) == "a\nb\nc";
    SplitLinesJoin(parts);
  }
}
