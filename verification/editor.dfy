/**
 * The editor controller (Go `ui.MultiLineEditor`) without its widget: the command tokens, their
 * detection and stripping at the end of the buffer's text, the key switch, and the event step that
 * runs after every key. The registered callback becomes the returned `Option<Fired>`.
 */
module Editor {
  import opened Wrappers
  import opened Text
  import opened MultiLineBuffer
  import opened CursorOffset

  /** A command, recognised by its literal token at the very end of the buffer's text. */
  datatype Event = Submit | Next | Copy

  function Token(e: Event): string {
    match e
    case Submit => ":submit"
    case Next => ":next"
    case Copy => ":copy"
  }

  /** What the callback receives: the event and the text with the token stripped. */
  datatype Fired = Fired(event: Event, text: string)

  /** The key kinds the switch distinguishes; `Other` stands for every key it ignores. */
  datatype Key = Left | Right | Up | Down | Enter | Tab | Rune(r: char) | Backspace | Backspace2 | Other

  /** No text ends with two different tokens. */
  lemma TokensExclusive(s: string, e1: Event, e2: Event)
    requires EndsWith(s, Token(e1)) && EndsWith(s, Token(e2))
    ensures e1 == e2
  {
    var (t1, t2) := (Token(e1), Token(e2));
    assert s[|s| - |t1|..][|t1| - 1] == t1[|t1| - 1];
    assert s[|s| - |t2|..][|t2| - 1] == t2[|t2| - 1];
    assert s[|s| - |t1|..][|t1| - 5] == t1[|t1| - 5];
    assert s[|s| - |t2|..][|t2| - 5] == t2[|t2| - 5];
  }

  /** The check order of `findEvent` is immaterial: at most one token ends any text. */
  lemma TokensExclusiveAll(s: string)
    ensures forall e1, e2 | EndsWith(s, Token(e1)) && EndsWith(s, Token(e2)) :: e1 == e2
  {
    forall e1, e2 | EndsWith(s, Token(e1)) && EndsWith(s, Token(e2)) {
      TokensExclusive(s, e1, e2);
    }
  }

  /** `findEvent`: the event whose token ends the text, or none when no token does. */
  function FindEvent(content: string): (r: Option<Event>)
    ensures forall e :: r == Some(e) <==> EndsWith(content, Token(e))
  {
    TokensExclusiveAll(content);
    if EndsWith(content, Token(Submit)) then Some(Submit)
    else if EndsWith(content, Token(Next)) then Some(Next)
    else if EndsWith(content, Token(Copy)) then Some(Copy)
    else None
  }

  /** `removeEvent`: drops as many trailing characters as the token has; Go panics on a shorter text. */
  function RemoveEvent(content: string, e: Event): (r: string)
    requires |Token(e)| <= |content|
    ensures |r| == |content| - |Token(e)|
    ensures r <= content
    ensures EndsWith(content, Token(e)) ==> r + Token(e) == content
  {
    content[..|content| - |Token(e)|]
  }

  /** The key switch of `init`: each key kind mapped to its buffer operation. */
  function ApplyKey(m: MultiLine, k: Key): (m': MultiLine)
    requires m.Valid()
    ensures m'.Valid()
  {
    match k
    case Left => MoveCursorLeft(m)
    case Right => MoveCursorRight(m)
    case Up => MoveCursorUp(m)
    case Down => MoveCursorDown(m)
    case Enter => Split(m)
    case Tab => Add(Add(m, ' '), ' ')
    case Rune(r) => Add(m, r)
    case Backspace => Remove(m)
    case Backspace2 => Remove(m)
    case Other => m
  }

  /**
   * `handleEvent`: when a token ends the text, the buffer is reset to the text without it and the
   * callback fires once with the event and that text; otherwise nothing happens.
   */
  function HandleEvent(m: MultiLine): (res: (MultiLine, Option<Fired>))
    requires m.Valid()
    ensures res.0.Valid()
    ensures res.1.None? <==> forall e :: !EndsWith(Content(m), Token(e))
    ensures res.1.None? ==> res.0 == m
    ensures res.1.Some? ==>
      && EndsWith(Content(m), Token(res.1.value.event))
      && res.1.value.text + Token(res.1.value.event) == Content(m)
      && Content(res.0) == res.1.value.text
      && Offset(res.0) == |res.1.value.text|
    ensures res.1.Some? ==>
      && Contents(res.0.lines) == SplitLines(res.1.value.text)
      && res.0.cursor == |res.0.lines| - 1
      && forall i | 0 <= i < |res.0.lines| :: res.0.lines[i].cursor == |res.0.lines[i].content|
  {
    var content := Content(m);
    match FindEvent(content)
    case None => (m, None)
    case Some(e) =>
      var stripped := RemoveEvent(content, e);
      ResetPutsCursorAtEnd(stripped);
      (Reset(stripped), Some(Fired(e, stripped)))
  }

  /** One key press: the key's edit, then event detection on the new text. */
  function Step(m: MultiLine, k: Key): (res: (MultiLine, Option<Fired>))
    requires m.Valid()
    ensures res.0.Valid()
    ensures res.1.None? <==> forall e :: !EndsWith(Content(ApplyKey(m, k)), Token(e))
    ensures res.1.None? ==> res.0 == ApplyKey(m, k)
    ensures res.1.Some? ==>
      && res.1.value.text + Token(res.1.value.event) == Content(ApplyKey(m, k))
      && Content(res.0) == res.1.value.text
      && Offset(res.0) == |res.1.value.text|
    ensures res.1.Some? ==>
      && Contents(res.0.lines) == SplitLines(res.1.value.text)
      && res.0.cursor == |res.0.lines| - 1
      && forall i | 0 <= i < |res.0.lines| :: res.0.lines[i].cursor == |res.0.lines[i].content|
  {
    HandleEvent(ApplyKey(m, k))
  }

  /** The buffer seen as one string and one cursor position in it. */
  datatype Flat = Flat(text: string, offset: int)

  function View(m: MultiLine): (f: Flat)
    requires m.Valid()
    ensures 0 <= f.offset <= |f.text|
  {
    Flat(Content(m), Offset(m))
  }

  /** Keys whose effect does not depend on how the text is laid out in lines. */
  predicate LayoutFree(k: Key) {
    !k.Up? && !k.Down?
  }

  /**
   * The reference behaviour of a layout-free key on the flat text: insertions at the cursor,
   * deletion before it, and cursor steps clamped to the text.
   */
  function FlatApply(f: Flat, k: Key): Flat
    requires 0 <= f.offset <= |f.text| && LayoutFree(k)
  {
    var (t, o) := (f.text, f.offset);
    match k
    case Left => Flat(t, if o == 0 then 0 else o - 1)
    case Right => Flat(t, if o == |t| then o else o + 1)
    case Enter => Flat(t[..o] + "\n" + t[o..], o + 1)
    case Tab => Flat(t[..o] + "  " + t[o..], o + 2)
    case Rune(r) => Flat(t[..o] + [r] + t[o..], o + 1)
    case Backspace => if o == 0 then f else Flat(t[..o - 1] + t[o..], o - 1)
    case Backspace2 => if o == 0 then f else Flat(t[..o - 1] + t[o..], o - 1)
    case Other => f
  }

  /** Two insertions in a row at an advancing cursor insert both characters in order. */
  lemma InsertTwice(t: string, o: int, x: char, y: char)
    requires 0 <= o <= |t|
    ensures var t1 := t[..o] + [x] + t[o..];
      t1[..o + 1] + [y] + t1[o + 1..] == t[..o] + [x, y] + t[o..]
  {
    var t1 := t[..o] + [x] + t[o..];
    assert t1[..o + 1] == t[..o] + [x];
    assert t1[o + 1..] == t[o..];
  }

  /** Tab inserts two spaces at the cursor and moves past them. */
  lemma TabInsertsTwoSpaces(m: MultiLine)
    requires m.Valid()
    ensures View(ApplyKey(m, Tab)) == FlatApply(View(m), Tab)
  {
    var (t, o) := (Content(m), Offset(m));
    var m1 := Add(m, ' ');
    var m2 := Add(m1, ' ');
    assert Content(m1) == t[..o] + [' '] + t[o..] && Offset(m1) == o + 1 by {
      AddInsertsAtOffset(m, ' ');
    }
    assert Content(m2) == Content(m1)[..o + 1] + [' '] + Content(m1)[o + 1..] && Offset(m2) == o + 2 by {
      AddInsertsAtOffset(m1, ' ');
    }
    InsertTwice(t, o, ' ', ' ');
    assert ApplyKey(m, Tab) == m2;
  }

  /**
   * The key switch agrees with the flat reference for every layout-free key, and the vertical
   * keys never change the text.
   */
  lemma ApplyKeyMatchesFlat(m: MultiLine, k: Key)
    requires m.Valid()
    ensures LayoutFree(k) ==> View(ApplyKey(m, k)) == FlatApply(View(m), k)
    ensures !LayoutFree(k) ==> Content(ApplyKey(m, k)) == Content(m)
  {
    match k
    case Left => LeftStepsBack(m);
    case Right => RightStepsForward(m);
    case Up =>
    case Down =>
    case Enter => SplitInsertsNewline(m);
    case Tab => TabInsertsTwoSpaces(m);
    case Rune(r) => AddInsertsAtOffset(m, r);
    case Backspace => RemoveDeletesBeforeOffset(m);
    case Backspace2 => RemoveDeletesBeforeOffset(m);
    case Other =>
  }

  /**
   * End to end, a layout-free key press either leaves the flat reference's result in the buffer
   * (no token at its end), or fires the token ending that result with the text before it, which
   * the buffer then holds with the cursor at its end.
   */
  lemma StepMatchesFlat(m: MultiLine, k: Key)
    requires m.Valid() && LayoutFree(k)
    ensures var (m', fired) := Step(m, k);
      var f := FlatApply(View(m), k);
      && (fired.None? ==> View(m') == f && forall e :: !EndsWith(f.text, Token(e)))
      && (fired.Some? ==>
            && fired.value.text + Token(fired.value.event) == f.text
            && View(m') == Flat(fired.value.text, |fired.value.text|))
  {
    ApplyKeyMatchesFlat(m, k);
  }

  /** A token at the end of the text fires its event with the text before it. */
  lemma HandleEventFires(m: MultiLine, e: Event)
    requires m.Valid() && EndsWith(Content(m), Token(e))
    ensures HandleEvent(m).1 == Some(Fired(e, RemoveEvent(Content(m), e)))
  {
    assert FindEvent(Content(m)) == Some(e);
  }

  /**
   * Typing the last character of a token with the cursor at the end of the text fires that
   * token's event with everything before the token.
   */
  lemma TypingTokenFires(m: MultiLine, c: char, e: Event)
    requires m.Valid() && Offset(m) == |Content(m)|
    requires EndsWith(Content(m) + [c], Token(e))
    ensures Step(m, Rune(c)).1 == Some(Fired(e, (Content(m) + [c])[..|Content(m)| + 1 - |Token(e)|]))
  {
    var t := Content(m);
    var m' := Add(m, c);
    assert ApplyKey(m, Rune(c)) == m';
    assert Content(m') == t + [c] by {
      AddInsertsAtOffset(m, c);
      assert t[..|t|] + [c] + t[|t|..] == t + [c];
    }
    HandleEventFires(m', e);
  }

  /**
   * Detection looks at the end of the whole text after every key, even a key that edits nothing.
   * So when the text left by a fired event still ends with a token, the next key press of any
   * kind fires that token too.
   */
  lemma IgnoredKeyStillFires(m: MultiLine, e: Event)
    requires m.Valid() && EndsWith(Content(m), Token(e))
    ensures Step(m, Other).1 == Some(Fired(e, RemoveEvent(Content(m), e)))
  {
    assert ApplyKey(m, Other) == m;
    assert FindEvent(Content(m)) == Some(e);
  }

  /** Concrete cases of detection and stripping. */
  lemma DetectionExamples()
    ensures FindEvent("hello:submit") == Some(Submit) && RemoveEvent("hello:submit", Submit) == "hello"
    ensures FindEvent("hello:next") == Some(Next) && RemoveEvent("hello:next", Next) == "hello"
    ensures FindEvent("plain text") == None
    ensures FindEvent("a:sub") == None
  {
    assert EndsWith("hello:submit", Token(Submit));
    assert EndsWith("hello:next", Token(Next));
    assert !EndsWith("plain text", Token(Submit)) && !EndsWith("plain text", Token(Next));
    assert !EndsWith("plain text", Token(Copy));
    assert !EndsWith("a:sub", Token(Submit)) && !EndsWith("a:sub", Token(Next));
    assert !EndsWith("a:sub", Token(Copy));
  }
}
