/**
 * One line of text with a cursor (Go `ui.SingleLine`). The pointer-receiver methods become pure
 * functions from the old line to the new one; the boolean some of them return is `true` when the
 * operation was handled inside the line and `false` when it hit the line's boundary.
 */
module SingleLineBuffer {

  /** `cursor` is an offset into `content`: 0 is before the first character. */
  datatype SingleLine = SingleLine(content: string, cursor: int) {
    /** The invariant every operation keeps. */
    predicate Valid() {
      0 <= cursor <= |content|
    }
  }

  function NewSingleLine(): (l: SingleLine)
    ensures l.Valid() && |l.content| == 0 && l.cursor == 0
  {
    SingleLine("", 0)
  }

  /** A line holding `content` with the cursor at its start. */
  function NewSingleLineWithContent(content: string): (l: SingleLine)
    ensures l.Valid() && l.content == content && l.cursor == 0
  {
    SingleLine(content, 0)
  }

  /** Inserts `r` at the cursor and steps past it. */
  function Add(l: SingleLine, r: char): (l': SingleLine)
    requires l.Valid()
    ensures l'.Valid()
    ensures |l'.content| == |l.content| + 1 && l'.cursor == l.cursor + 1
    ensures l'.content[l.cursor] == r
    ensures forall i | 0 <= i < l.cursor :: l'.content[i] == l.content[i]
    ensures forall i | l.cursor <= i < |l.content| :: l'.content[i + 1] == l.content[i]
  {
    SingleLine(l.content[..l.cursor] + [r] + l.content[l.cursor..], l.cursor + 1)
  }

  /** Deletes the character before the cursor; `false` and no change when the cursor is at 0. */
  function Remove(l: SingleLine): (res: (SingleLine, bool))
    requires l.Valid()
    ensures res.0.Valid()
    ensures res.1 <==> l.cursor > 0
    ensures !res.1 ==> res.0 == l
    ensures res.1 ==> res.0.cursor == l.cursor - 1 && |res.0.content| == |l.content| - 1
    ensures res.1 ==> forall i | 0 <= i < l.cursor - 1 :: res.0.content[i] == l.content[i]
    ensures res.1 ==> forall i | l.cursor - 1 <= i < |res.0.content| :: res.0.content[i] == l.content[i + 1]
  {
    if l.cursor == 0 then (l, false)
    else
      var kept := l.content[..l.cursor - 1];
      var content := if l.cursor < |l.content| then kept + l.content[l.cursor..] else kept;
      (SingleLine(content, l.cursor - 1), true)
  }

  function MoveCursorToEnd(l: SingleLine): (l': SingleLine)
    ensures l'.Valid() && l'.content == l.content && l'.cursor == |l.content|
  {
    l.(cursor := |l.content|)
  }

  function MoveCursorToStart(l: SingleLine): (l': SingleLine)
    ensures l'.Valid() && l'.content == l.content && l'.cursor == 0
  {
    l.(cursor := 0)
  }

  /** One step left; `false` and no change at the start of the line. */
  function MoveCursorLeft(l: SingleLine): (res: (SingleLine, bool))
    ensures res.0.content == l.content
    ensures res.1 <==> l.cursor > 0
    ensures res.1 ==> res.0.cursor == l.cursor - 1
    ensures !res.1 ==> res.0 == l
    ensures l.Valid() ==> res.0.Valid()
  {
    if l.cursor > 0 then (l.(cursor := l.cursor - 1), true) else (l, false)
  }

  /** One step right; `false` and no change at the end of the line. */
  function MoveCursorRight(l: SingleLine): (res: (SingleLine, bool))
    ensures res.0.content == l.content
    ensures res.1 <==> l.cursor < |l.content|
    ensures res.1 ==> res.0.cursor == l.cursor + 1
    ensures !res.1 ==> res.0 == l
    ensures l.Valid() ==> res.0.Valid()
  {
    if l.cursor < |l.content| then (l.(cursor := l.cursor + 1), true) else (l, false)
  }

  /** Puts the cursor at `p` when that is inside the line; any other `p`, negative ones included, goes to the end. */
  function MoveCursor(l: SingleLine, p: int): (l': SingleLine)
    ensures l'.Valid() && l'.content == l.content
    ensures 0 <= p <= |l.content| ==> l'.cursor == p
    ensures !(0 <= p <= |l.content|) ==> l'.cursor == |l.content|
  {
    if p >= 0 && p <= |l.content| then l.(cursor := p) else MoveCursorToEnd(l)
  }

  /**
   * Cuts the line at the cursor: the first component keeps the text before the cursor with the
   * cursor at its end, the second holds the rest with its cursor at the start.
   */
  function Split(l: SingleLine): (res: (SingleLine, SingleLine))
    requires l.Valid()
    ensures res.0.Valid() && res.1.Valid()
    ensures res.0.content + res.1.content == l.content
    ensures |res.0.content| == l.cursor
    ensures res.0.cursor == |res.0.content|
    ensures res.1.cursor == 0
  {
    if l.cursor == 0 then
      (MoveCursorToStart(l.(content := "")), NewSingleLineWithContent(l.content))
    else if l.cursor == |l.content| then
      (MoveCursorToEnd(l), NewSingleLineWithContent(""))
    else
      (MoveCursorToEnd(l.(content := l.content[..l.cursor])), NewSingleLineWithContent(l.content[l.cursor..]))
  }

  /** Appends `other`'s text, leaving the cursor at the junction. */
  function Merge(l: SingleLine, other: SingleLine): (l': SingleLine)
    ensures l'.Valid()
    ensures l'.cursor == |l.content|
    ensures |l'.content| == |l.content| + |other.content|
    ensures l'.content[..|l.content|] == l.content && l'.content[|l.content|..] == other.content
  {
    SingleLine(l.content + other.content, |l.content|)
  }

  /** The text with a `|` marker at the cursor: deleting the marker gives back the text. */
  function ContentWithCursor(l: SingleLine): (r: string)
    requires l.Valid()
    ensures |r| == |l.content| + 1
    ensures r[l.cursor] == '|'
    ensures r[..l.cursor] + r[l.cursor + 1..] == l.content
  {
    l.content[..l.cursor] + "|" + l.content[l.cursor..]
  }

  /** Backspace right after typing a character restores the line. */
  lemma AddThenRemove(l: SingleLine, r: char)
    requires l.Valid()
    ensures Remove(Add(l, r)) == (l, true)
  {
    var a := Add(l, r);
    assert a.content[..a.cursor - 1] == l.content[..l.cursor];
    if a.cursor < |a.content| {
      assert a.content[a.cursor..] == l.content[l.cursor..];
      assert l.content == l.content[..l.cursor] + l.content[l.cursor..];
    } else {
      assert l.content[..l.cursor] == l.content;
    }
  }

  /** Merging back the line cut off by `Split` restores both the text and the cursor. */
  lemma SplitThenMerge(l: SingleLine)
    requires l.Valid()
    ensures Merge(Split(l).0, Split(l).1) == l
  {
  }

  /** A successful step left is undone by a step right. */
  lemma LeftThenRight(l: SingleLine)
    requires l.Valid() && l.cursor > 0
    ensures MoveCursorRight(MoveCursorLeft(l).0) == (l, true)
  {
  }
}
