/**
 * The flat view of a buffer: its text `Content(m)` and the position of the cursor in that text.
 * Seen this way every edit of the multi-line buffer is an edit of one string at one offset, which
 * is the reference the line-and-index operations are checked against.
 */
module CursorOffset {
  import opened Text
  import SL = SingleLineBuffer
  import opened MultiLineBuffer

  /** The cursor's position in the flattened text. */
  function Offset(m: MultiLine): (off: nat)
    requires m.Valid()
    ensures off <= |Content(m)|
  {
    JoinAt(Contents(m.lines), m.cursor);
    |Before(Contents(m.lines), m.cursor)| + m.lines[m.cursor].cursor
  }

  /** The flattened text is the active line framed by the text before and after it. */
  lemma Layout(m: MultiLine)
    requires m.Valid()
    ensures var cs := Contents(m.lines);
      && Content(m) == Before(cs, m.cursor) + cs[m.cursor] + After(cs, m.cursor)
      && Offset(m) == |Before(cs, m.cursor)| + m.lines[m.cursor].cursor
  {
    JoinAt(Contents(m.lines), m.cursor);
  }

  /** Putting `ins` between the two halves of `l` cut at `c`, inside the frame `b`, `a`. */
  lemma InsertAt(b: string, l: string, a: string, c: int, ins: string)
    requires 0 <= c <= |l|
    ensures b + (l[..c] + ins + l[c..]) + a == (b + l + a)[..|b| + c] + ins + (b + l + a)[|b| + c..]
  {
    assert b + l + a == (b + l[..c]) + (l[c..] + a);
    assert (b + l + a)[..|b| + c] == b + l[..c];
    assert (b + l + a)[|b| + c..] == l[c..] + a;
  }

  /**
   * A text `t` with cursor `o`, laid out as `b + l + a` with the cursor at column `c` of `l`,
   * turns into `t'` with cursor `o'` by inserting `ins` at the cursor and stepping past it.
   */
  lemma InsertedAt(t: string, o: int, t': string, o': int, b: string, l: string, a: string, c: int, ins: string)
    requires 0 <= c <= |l|
    requires t == b + l + a && o == |b| + c
    requires t' == b + (l[..c] + ins + l[c..]) + a && o' == |b| + c + |ins|
    ensures 0 <= o <= |t|
    ensures t' == t[..o] + ins + t[o..] && o' == o + |ins|
  {
    InsertAt(b, l, a, c, ins);
  }

  /**
   * The converse: `t` holds `ins` just before its cursor `o`, and `t'` is `t` without it, with the
   * cursor stepped back over it.
   */
  lemma DeletedAt(t: string, o: int, t': string, o': int, b: string, x: string, ins: string, y: string, a: string)
    requires t == b + (x + ins + y) + a && o == |b| + |x| + |ins|
    requires t' == b + (x + y) + a && o' == |b| + |x|
    ensures |ins| <= o <= |t|
    ensures t' == t[..o - |ins|] + t[o..] && o' == o - |ins|
  {
    assert t == (b + x) + ins + (y + a);
    assert t[..o - |ins|] == b + x && t[o..] == y + a;
  }

  /** The cursor is at the very start of the text exactly on the first line's first column. */
  lemma OffsetAtStart(m: MultiLine)
    requires m.Valid()
    ensures Offset(m) == 0 <==> m.cursor == 0 && m.lines[m.cursor].cursor == 0
  {
  }

  /** The cursor is at the very end of the text exactly on the last line's last column. */
  lemma OffsetAtEnd(m: MultiLine)
    requires m.Valid()
    ensures Offset(m) == |Content(m)| <==>
      m.cursor == |m.lines| - 1 && m.lines[m.cursor].cursor == |m.lines[m.cursor].content|
  {
    Layout(m);
    AfterEmpty(Contents(m.lines), m.cursor);
  }

  /** The line texts after typing: the active text with the character inserted at the cursor. */
  lemma AddContents(m: MultiLine, r: char)
    requires m.Valid()
    ensures var (cs, i, c) := (Contents(m.lines), m.cursor, m.lines[m.cursor].cursor);
      Contents(Add(m, r).lines) == cs[i := cs[i][..c] + [r] + cs[i][c..]]
  {
    var (cs, i, c) := (Contents(m.lines), m.cursor, m.lines[m.cursor].cursor);
    var cs' := cs[i := cs[i][..c] + [r] + cs[i][c..]];
    assert forall j | 0 <= j < |cs'| :: Contents(Add(m, r).lines)[j] == cs'[j];
  }

  /** Typing a character inserts it into the text at the cursor and moves the cursor past it. */
  lemma AddInsertsAtOffset(m: MultiLine, r: char)
    requires m.Valid()
    ensures Content(Add(m, r)) == Content(m)[..Offset(m)] + [r] + Content(m)[Offset(m)..]
    ensures Offset(Add(m, r)) == Offset(m) + 1
  {
    var (cs, i, c) := (Contents(m.lines), m.cursor, m.lines[m.cursor].cursor);
    var m' := Add(m, r);
    var (b, l, a) := (Before(cs, i), cs[i], After(cs, i));
    assert Content(m') == b + (l[..c] + [r] + l[c..]) + a && Offset(m') == |b| + c + 1 by {
      AddContents(m, r);
      JoinReplace(cs, i, l[..c] + [r] + l[c..]);
    }
    assert Content(m) == b + l + a && Offset(m) == |b| + c by {
      Layout(m);
    }
    InsertedAt(Content(m), Offset(m), Content(m'), Offset(m'), b, l, a, c, [r]);
  }

  /** The line texts after Enter: the active text cut in two at the cursor. */
  lemma SplitContents(m: MultiLine)
    requires m.Valid()
    ensures var (cs, i, c) := (Contents(m.lines), m.cursor, m.lines[m.cursor].cursor);
      && Contents(Split(m).lines) == cs[..i] + [cs[i][..c], cs[i][c..]] + cs[i + 1..]
      && Split(m).cursor == i + 1
      && Split(m).lines[i + 1].cursor == 0
  {
    var m' := Split(m);
    var (cs, i, c) := (Contents(m.lines), m.cursor, m.lines[m.cursor].cursor);
    var cs' := cs[..i] + [cs[i][..c], cs[i][c..]] + cs[i + 1..];
    assert forall j | 0 <= j < |cs'| :: Contents(m'.lines)[j] == cs'[j];
  }

  /** The flattened text and offset after Enter, in terms of the active line's surroundings. */
  lemma SplitLayout(m: MultiLine)
    requires m.Valid()
    ensures var (cs, i, c) := (Contents(m.lines), m.cursor, m.lines[m.cursor].cursor);
      && Content(Split(m)) == Before(cs, i) + (cs[i][..c] + "\n" + cs[i][c..]) + After(cs, i)
      && Offset(Split(m)) == |Before(cs, i)| + c + 1
  {
    SplitContents(m);
    JoinCut(Contents(m.lines), m.cursor, m.lines[m.cursor].cursor);
  }

  /** Enter inserts a newline into the text at the cursor and moves the cursor past it. */
  lemma SplitInsertsNewline(m: MultiLine)
    requires m.Valid()
    ensures Content(Split(m)) == Content(m)[..Offset(m)] + "\n" + Content(m)[Offset(m)..]
    ensures Offset(Split(m)) == Offset(m) + 1
  {
    var (cs, i, c) := (Contents(m.lines), m.cursor, m.lines[m.cursor].cursor);
    var m' := Split(m);
    var (b, l, a) := (Before(cs, i), cs[i], After(cs, i));
    assert Content(m') == b + (l[..c] + "\n" + l[c..]) + a && Offset(m') == |b| + c + 1 by {
      SplitLayout(m);
    }
    assert Content(m) == b + l + a && Offset(m) == |b| + c by {
      Layout(m);
    }
    InsertedAt(Content(m), Offset(m), Content(m'), Offset(m'), b, l, a, c, "\n");
  }

  /** The line texts after backspace inside a line: the character before the cursor is gone. */
  lemma RemoveInsideContents(m: MultiLine)
    requires m.Valid() && m.lines[m.cursor].cursor > 0
    ensures var (cs, i, c) := (Contents(m.lines), m.cursor, m.lines[m.cursor].cursor);
      && Contents(Remove(m).lines) == cs[i := cs[i][..c - 1] + cs[i][c..]]
      && Remove(m).cursor == i
      && Remove(m).lines[i].cursor == c - 1
  {
    var (cs, i, c) := (Contents(m.lines), m.cursor, m.lines[m.cursor].cursor);
    var l := cs[i];
    var cs' := cs[i := l[..c - 1] + l[c..]];
    var l' := Remove(m).lines[i].content;
    assert forall k | 0 <= k < |l'| :: l'[k] == (l[..c - 1] + l[c..])[k];
    assert l' == l[..c - 1] + l[c..];
    assert forall j | 0 <= j < |cs'| :: Contents(Remove(m).lines)[j] == cs'[j];
  }

  /** Backspace inside a line: the text loses the character before the cursor. */
  lemma RemoveInsideLine(m: MultiLine)
    requires m.Valid() && m.lines[m.cursor].cursor > 0
    ensures Content(Remove(m)) == Content(m)[..Offset(m) - 1] + Content(m)[Offset(m)..]
    ensures Offset(Remove(m)) == Offset(m) - 1
  {
    var (cs, i, c) := (Contents(m.lines), m.cursor, m.lines[m.cursor].cursor);
    var (b, l, a) := (Before(cs, i), cs[i], After(cs, i));
    RemoveInsideFrame(m);
    DeletedAt(Content(m), Offset(m), Content(Remove(m)), Offset(Remove(m)), b, l[..c - 1], [l[c - 1]], l[c..], a);
  }

  /** Both sides of backspace inside a line, framed by the text around the active line. */
  lemma RemoveInsideFrame(m: MultiLine)
    requires m.Valid() && m.lines[m.cursor].cursor > 0
    ensures var (cs, i, c) := (Contents(m.lines), m.cursor, m.lines[m.cursor].cursor);
      var (b, l, a) := (Before(cs, i), cs[i], After(cs, i));
      && Content(Remove(m)) == b + (l[..c - 1] + l[c..]) + a
      && Offset(Remove(m)) == |b| + c - 1
      && Content(m) == b + (l[..c - 1] + [l[c - 1]] + l[c..]) + a
      && Offset(m) == |b| + c
  {
    var (cs, i, c) := (Contents(m.lines), m.cursor, m.lines[m.cursor].cursor);
    var (b, l, a) := (Before(cs, i), cs[i], After(cs, i));
    var (x, y) := (l[..c - 1], l[c..]);
    assert Content(Remove(m)) == b + (x + y) + a && Offset(Remove(m)) == |b| + |x| by {
      RemoveInsideContents(m);
      JoinReplace(cs, i, x + y);
    }
    assert Content(m) == b + l + a && Offset(m) == |b| + c by {
      Layout(m);
    }
    Unsplice(l, c);
  }

  /** A text is the part before position `c - 1`, the character there, and the part after it. */
  lemma Unsplice(l: string, c: int)
    requires 0 < c <= |l|
    ensures l == l[..c - 1] + [l[c - 1]] + l[c..]
  {
    assert l == l[..c - 1] + l[c - 1..];
    assert l[c - 1..] == [l[c - 1]] + l[c..];
  }

  /** The line texts after backspace at a later line's start: the line glued to the previous one. */
  lemma MergeContents(m: MultiLine)
    requires m.Valid() && m.lines[m.cursor].cursor == 0 && m.cursor > 0
    ensures var (cs, i) := (Contents(m.lines), m.cursor);
      && Contents(Remove(m).lines) == cs[..i - 1] + [cs[i - 1] + cs[i]] + cs[i + 1..]
      && Remove(m).cursor == i - 1
      && Remove(m).lines[i - 1].cursor == |cs[i - 1]|
  {
    var m' := Remove(m);
    var (cs, i) := (Contents(m.lines), m.cursor);
    var cs' := cs[..i - 1] + [cs[i - 1] + cs[i]] + cs[i + 1..];
    assert forall j | 0 <= j < |cs'| :: Contents(m'.lines)[j] == cs'[j];
  }

  /** Backspace at the start of a later line: the text loses the newline before the cursor. */
  lemma RemoveMergesLines(m: MultiLine)
    requires m.Valid() && m.lines[m.cursor].cursor == 0 && m.cursor > 0
    ensures Content(Remove(m)) == Content(m)[..Offset(m) - 1] + Content(m)[Offset(m)..]
    ensures Offset(Remove(m)) == Offset(m) - 1
  {
    var (cs, i) := (Contents(m.lines), m.cursor);
    var m' := Remove(m);
    var (p, l) := (cs[i - 1], cs[i]);
    var (b, a) := (Before(cs, i - 1), After(cs, i));
    assert Content(m') == b + (p + l) + a && Offset(m') == |b| + |p| by {
      MergeContents(m);
      JoinGlue(cs, i);
    }
    assert Content(m) == b + (p + "\n" + l) + a && Offset(m) == |b| + |p| + 1 by {
      JoinNewline(cs, i);
      Layout(m);
    }
    DeletedAt(Content(m), Offset(m), Content(m'), Offset(m'), b, p, "\n", l, a);
  }

  /**
   * Backspace deletes the character before the cursor from the text and moves the cursor back
   * onto its place; at the very start of the text it changes nothing.
   */
  lemma RemoveDeletesBeforeOffset(m: MultiLine)
    requires m.Valid()
    ensures Offset(m) == 0 ==> Remove(m) == m
    ensures Offset(m) > 0 ==>
      && Content(Remove(m)) == Content(m)[..Offset(m) - 1] + Content(m)[Offset(m)..]
      && Offset(Remove(m)) == Offset(m) - 1
  {
    OffsetAtStart(m);
    if m.lines[m.cursor].cursor > 0 {
      RemoveInsideLine(m);
    } else if m.cursor > 0 {
      RemoveMergesLines(m);
    }
  }

  /** Left arrow never changes the text and moves the cursor one position back, stopping at 0. */
  lemma LeftStepsBack(m: MultiLine)
    requires m.Valid()
    ensures Content(MoveCursorLeft(m)) == Content(m)
    ensures Offset(MoveCursorLeft(m)) == if Offset(m) == 0 then 0 else Offset(m) - 1
  {
    var m' := MoveCursorLeft(m);
    var cs := Contents(m.lines);
    var (i, c) := (m.cursor, m.lines[m.cursor].cursor);
    if c == 0 && i > 0 {
      BeforeNext(cs, i - 1);
    }
  }

  /** Right arrow never changes the text and moves the cursor one position on, stopping at the end. */
  lemma RightStepsForward(m: MultiLine)
    requires m.Valid()
    ensures Content(MoveCursorRight(m)) == Content(m)
    ensures Offset(MoveCursorRight(m)) == if Offset(m) == |Content(m)| then Offset(m) else Offset(m) + 1
  {
    var m' := MoveCursorRight(m);
    var cs := Contents(m.lines);
    var (i, c) := (m.cursor, m.lines[m.cursor].cursor);
    OffsetAtEnd(m);
    if c == |cs[i]| && i < |cs| - 1 {
      BeforeNext(cs, i);
    }
  }

  /** After `Reset(s)` the text is `s` and the cursor is at its very end. */
  lemma ResetPutsCursorAtEnd(s: string)
    ensures Content(Reset(s)) == s && Offset(Reset(s)) == |s|
  {
    ResetThenContent(s);
    OffsetAtEnd(Reset(s));
  }

  /**
   * The display text is the flattened text with the `|` marker at the cursor offset and one more
   * newline at the end: every line is newline-terminated and only the active line is marked.
   */
  lemma RenderMarksOffset(m: MultiLine)
    requires m.Valid()
    ensures ContentWithCursor(m) == Content(m)[..Offset(m)] + "|" + Content(m)[Offset(m)..] + "\n"
  {
    var cs := Contents(m.lines);
    var (i, c, l) := (m.cursor, m.lines[m.cursor].cursor, m.lines[m.cursor].content);
    var (b, a) := (Before(cs, i), After(cs, i));
    var w := SL.ContentWithCursor(m.lines[i]);
    assert ContentWithCursor(m) == b + w + a + "\n";
    assert Content(m) == b + l + a && Offset(m) == |b| + c by {
      Layout(m);
    }
    assert w == l[..c] + "|" + l[c..];
    InsertedAt(Content(m), Offset(m), b + w + a, |b| + c + 1, b, l, a, c, "|");
  }
}
