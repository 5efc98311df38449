# Multi-line text buffer with a command channel

This project models the text-input core of a terminal code-generation tool written in Go. It
also models the conversation log that the tool keeps for its generation backend.

The core has these parts:

- **`SingleLineBuffer`** (`ui/single_line.go`) is one line of text with a cursor. It has insert,
  backspace, cursor moves, absolute positioning, split and merge. Backspace and the left/right
  moves return `true` when handled inside the line and `false` when they hit the line's boundary.
- **`MultiLineBuffer`** (`ui/multile_line.go`) is a non-empty sequence of lines plus the index of
  the active line. It builds the multi-line behaviour from the line operations:
  - Enter splits the active line.
  - Backspace at the start of a line merges it into the previous line.
  - Left/right cross into the neighbouring line; up/down keep the column.
  - `Reset` rebuilds the buffer from a string; `Clear` empties it.
  - `content()` flattens the buffer; `ContentWithCursor()` renders it.
- **`Editor`** (`ui/multi_line_editor.go`) holds the three command tokens `:submit`, `:next` and
  `:copy`, which are recognised only at the very end of the buffer's flattened text. It also holds
  the key switch and the event step that runs after every key. The registered callback becomes a
  returned `Option<Fired>`.
- **`Generator`** (`generator/messages.go`) is the append-only, role-tagged message log, with its
  "last assistant message" search.

The model adds two modules:

- **`Text`** holds Go's `strings.HasSuffix`, `strings.Split(s, "\n")` and the newline join of
  `content()`.
- **`CursorOffset`** is a reference view of a buffer. It is one string (`Content`) with one cursor
  position in it (`Offset`). Every key is proved to be the expected edit of that string at that
  position: insert at the cursor, delete before it, or step by one, clamped to the text. Up and
  down are the exception: they depend on the line layout and are stated on the lines.

All operations are pure functions from the old state to the new one. Each mirrors one Go method
with a pointer receiver. The invariants are:

- `SingleLine.Valid`: `0 <= cursor <= |content|`.
- `MultiLine.Valid`: at least one line, the active index in range, and every line valid.

Every buffer operation is proved to preserve them.

Three behaviours of the Go code are kept as written:

- `MoveCursor(p)` sends every out-of-range `p` to the end of the line, negative `p` included. It
  does not clamp a negative `p` to 0.
- `ContentWithCursor()` ends every line with a newline, the last line included. It does not join
  the lines with newlines.
- `Reset(s)` followed by `content()` gives back `s` for every `s`, including text that contains a
  command token.

## Model

| member | source | states |
|---|---|---|
| SingleLineBuffer.NewSingleLine | ui/single_line.go:9-15 | a new line is empty with the cursor at 0 |
| SingleLineBuffer.NewSingleLineWithContent | ui/single_line.go:17-23 | a line built from text holds exactly that text, cursor at its start |
| SingleLineBuffer.Add | ui/single_line.go:25-29 | the rune lands at the old cursor, characters before it keep their places, characters after it shift by one, the cursor advances by one |
| SingleLineBuffer.Remove | ui/single_line.go:31-45 | handled exactly when the cursor is past 0; at 0 nothing changes; otherwise exactly the character before the cursor is gone and the cursor steps back |
| SingleLineBuffer.MoveCursorToEnd | ui/single_line.go:47-50 | cursor at the end, text unchanged |
| SingleLineBuffer.MoveCursorToStart | ui/single_line.go:52-55 | cursor at 0, text unchanged |
| SingleLineBuffer.MoveCursorLeft | ui/single_line.go:57-64 | moves one left and reports true exactly when the cursor was past 0, otherwise unchanged; text never changes |
| SingleLineBuffer.MoveCursorRight | ui/single_line.go:66-73 | moves one right and reports true exactly when the cursor was before the end, otherwise unchanged; text never changes |
| SingleLineBuffer.MoveCursor | ui/single_line.go:75-82 | an in-range position is taken as is; any other, negative included, puts the cursor at the end |
| SingleLineBuffer.Split | ui/single_line.go:84-103 | kept text and cut-off text concatenate to the original, the cut is at the cursor, kept cursor at its end, new line's cursor at 0 |
| SingleLineBuffer.Merge | ui/single_line.go:105-109 | the other line's text is appended and the cursor sits at the junction |
| SingleLineBuffer.ContentWithCursor | ui/single_line.go:111-114 | one bar marker at the cursor position; deleting it gives back the text |
| SingleLineBuffer.AddThenRemove | ui/single_line.go:25-45 | backspace right after typing restores text and cursor and reports handled |
| SingleLineBuffer.SplitThenMerge | ui/single_line.go:84-109 | merging back the line cut off by a split restores text and cursor |
| SingleLineBuffer.LeftThenRight | ui/single_line.go:57-73 | a successful step left is undone by a step right |
| Text.SplitLines | ui/multile_line.go:28 | the pieces of a newline split are at least one and contain no newline |
| Text.JoinSplitLines | ui/multile_line.go:145-155 | joining the pieces of a split with newlines gives back the original string |
| Text.SplitLinesJoin | ui/multile_line.go:28 | splitting a join of newline-free pieces recovers the pieces |
| Text.JoinAt | ui/multile_line.go:145-155 | each line's text sits in the flattened text between the text before and after it |
| MultiLineBuffer.Content | ui/multile_line.go:145-155 | `content()` joins the lines with newlines: when no line holds a newline, splitting it at its newlines gives back exactly the line texts |
| MultiLineBuffer.ContentWithCursor | ui/multile_line.go:129-143 | `ContentWithCursor()` is the joined text with only the active line replaced by its marked form, plus one final newline |
| MultiLineBuffer.RenderPlain | ui/multile_line.go:129-143 | without an active line, every line's text is followed by a newline |
| MultiLineBuffer.RenderActive | ui/multile_line.go:129-143 | the marker appears in the active line only, every line newline-terminated |
| MultiLineBuffer.NewMultiLine | ui/multile_line.go:14-20 | a new buffer is one empty line, active, cursor at 0 |
| MultiLineBuffer.Clear | ui/multile_line.go:22-25 | whatever the prior state: one line, active index 0, cursor 0, flattened text empty |
| MultiLineBuffer.MoveCursorToEnd | ui/multile_line.go:123-127 | last line active with its cursor at its end; texts and earlier lines unchanged |
| MultiLineBuffer.Reset | ui/multile_line.go:27-38 | one valid line per newline-separated piece, each cursor at its line's end, last line active |
| MultiLineBuffer.Add | ui/multile_line.go:40-43 | the rune goes into the active line; line count, active index and other lines unchanged |
| MultiLineBuffer.Remove | ui/multile_line.go:45-67 | inside a line deletes in that line; at a line start merges into the previous line, drops the line and steps the index back; no-op at the first line's start |
| MultiLineBuffer.MoveCursorLeft | ui/multile_line.go:69-81 | one step left, or to the previous line's end at a line start, no-op at the document start; texts unchanged |
| MultiLineBuffer.MoveCursorRight | ui/multile_line.go:83-95 | one step right, or to the next line's start at a line end, no-op at the document end; texts unchanged |
| MultiLineBuffer.MoveCursorUp | ui/multile_line.go:97-108 | no-op on the first line; otherwise the line above is active with cursor min(column, its length); texts unchanged |
| MultiLineBuffer.MoveCursorDown | ui/multile_line.go:110-121 | no-op on the last line; otherwise the line below is active with cursor min(column, its length); texts unchanged |
| MultiLineBuffer.Split | ui/multile_line.go:157-174 | the active line is split at its cursor, the rest inserted right after it and made active; lines before and after keep their places |
| MultiLineBuffer.ResetThenContent | ui/multile_line.go:27-38 | `content()` after `Reset(s)` is exactly `s`, for every `s` |
| MultiLineBuffer.ResetOwnContent | ui/multile_line.go:27-38 | resetting a buffer of newline-free lines to its own text rebuilds the same line texts |
| MultiLineBuffer.AddThenRemove | ui/multile_line.go:40-67 | typing then backspace restores the whole buffer |
| MultiLineBuffer.SplitThenRemove | ui/multile_line.go:157-174 | Enter then backspace restores the whole buffer: lines, active index and column |
| MultiLineBuffer.UpThenDown | ui/multile_line.go:97-121 | up then down returns to the line, column kept when the line above is long enough, else clamped |
| MultiLineBuffer.DownThenUp | ui/multile_line.go:97-121 | down then up returns to the line, column kept when the line below is long enough, else clamped |
| MultiLineBuffer.ResetExample | ui/multile_line.go:27-38 | "a\nb\nc" gives lines a, b, c, the last active with cursor 1 |
| CursorOffset.Offset | ui/multile_line.go:145-155 | the cursor's position lies within the flattened text |
| CursorOffset.Layout | ui/multile_line.go:145-155 | the flattened text is the active line framed by the text before and after it |
| CursorOffset.OffsetAtEnd | ui/multile_line.go:123-127 | the cursor is at the end of the text exactly on the last line's end |
| CursorOffset.AddInsertsAtOffset | ui/multile_line.go:40-43 | typing inserts the rune into the flattened text at the cursor and advances it by one |
| CursorOffset.SplitInsertsNewline | ui/multile_line.go:157-174 | Enter inserts a newline into the flattened text at the cursor and advances it by one |
| CursorOffset.RemoveInsideLine | ui/multile_line.go:45-49 | backspace inside a line deletes the character before the cursor from the flattened text |
| CursorOffset.RemoveMergesLines | ui/multile_line.go:51-66 | backspace at a later line's start deletes the newline before the cursor from the flattened text |
| CursorOffset.RemoveDeletesBeforeOffset | ui/multile_line.go:45-67 | backspace deletes the character before the cursor and steps back; at the very start nothing changes |
| CursorOffset.LeftStepsBack | ui/multile_line.go:69-81 | left never changes the text and moves back one position, stopping at 0 |
| CursorOffset.RightStepsForward | ui/multile_line.go:83-95 | right never changes the text and moves on one position, stopping at the end |
| CursorOffset.ResetPutsCursorAtEnd | ui/multile_line.go:27-38 | after `Reset(s)` the text is `s` and the cursor is at its very end |
| CursorOffset.RenderMarksOffset | ui/multile_line.go:129-143 | the display text is the flattened text with the bar marker at the cursor plus a final newline |
| Editor.TokensExclusive | ui/multi_line_editor.go:14-18 | the event tokens (`Editor.Token`: ":submit", ":next", ":copy") are such that no string ends with two different ones |
| Editor.TokensExclusiveAll | ui/multi_line_editor.go:114-125 | at most one token ends any text, so the check order is immaterial |
| Editor.FindEvent | ui/multi_line_editor.go:114-125 | returns event e exactly when the text ends with e's token, none when it ends with no token |
| Editor.RemoveEvent | ui/multi_line_editor.go:110-112 | drops exactly the token's length from the end; for a text ending in the token, result + token is the text |
| Editor.ApplyKey | ui/multi_line_editor.go:59-77 | every key keeps the buffer invariants |
| Editor.HandleEventFires | ui/multi_line_editor.go:87-100 | whenever a token ends the text, that token's event fires with the text before the token |
| Editor.HandleEvent | ui/multi_line_editor.go:87-100 | no token: buffer unchanged and no callback; token: callback exactly once with the event and stripped text, and the buffer is rebuilt from the stripped text: one line per newline-separated piece, every line's cursor at its end, the last line active, so the cursor is at the text's end |
| Editor.Step | ui/multi_line_editor.go:57-84 | detection runs after every key's edit: an event fires exactly when a token ends the edited text, strips that token, and rebuilds the lines from the stripped text as `Reset` does; otherwise the edited buffer is kept |
| Editor.TabInsertsTwoSpaces | ui/multi_line_editor.go:70-72 | Tab inserts two spaces at the cursor and moves past them |
| Editor.ApplyKeyMatchesFlat | ui/multi_line_editor.go:59-77 | every layout-free key is its flat-text edit: arrows step, Enter inserts a newline, a rune inserts it, backspace deletes, other keys do nothing; up/down keep the text |
| Editor.StepMatchesFlat | ui/multi_line_editor.go:59-99 | a key press leaves the flat edit's result when no token ends it, else fires that token with the text before it, cursor at the end |
| Editor.TypingTokenFires | ui/multi_line_editor.go:87-100 | typing a token's last character at the end of the text fires that event with the preceding text |
| Editor.IgnoredKeyStillFires | ui/multi_line_editor.go:79-99 | a key the switch ignores still runs detection, so a token left at the end fires |
| Editor.DetectionExamples | ui/multi_line_editor.go:110-125 | "hello:submit" gives submit and "hello", "hello:next" gives next and "hello", "plain text" and "a:sub" give none |
| Generator.NewMessages | generator/messages.go:10-17 | a new log is exactly one system message with the given content |
| Generator.AddUserMessage | generator/messages.go:19-25 | appends one user message at the end, earlier messages unchanged |
| Generator.AddAssistantMessage | generator/messages.go:27-33 | appends one assistant message at the end, earlier messages unchanged |
| Generator.LastAssistantIndex | generator/messages.go:40-48 | the position the backward scan stops at: an assistant message with none after it, or -1 when the log has none |
| Generator.LastAssistantIn | generator/messages.go:40-48 | the content of the highest-index assistant message, or "" when there is none |
| Generator.LastAssistantMessage | generator/messages.go:40-48 | `LastAsistantMessage()` of a log is the content at the position its backward scan stops at, or "" when the log holds no assistant message |
| Generator.NewHasNoAssistantMessage | generator/messages.go:10-48 | a fresh log's last assistant message is "" |
| Generator.AddAssistantThenLast | generator/messages.go:27-48 | after adding an assistant message, it is the last assistant message |
| Generator.AddUserKeepsLast | generator/messages.go:19-48 | adding a user message never changes the last assistant message |
| Generator.ReplayLog | generator/messages.go:35-38 | `GetMessages()` (`Generator.GetMessages`) of a log built by `NewMessages` and additions lists the system prompt and then one message per addition in order: length 1 + additions |

## Left out

- Text is a sequence of characters, each one unit. The Go code slices strings by byte, so typing
  a multi-byte rune advances the cursor by 1 and not by the rune's byte length. UTF-8 is not
  modelled.
- The terminal widget is left out: `NewMultiLineEditor`, `SetText`, `GetText`, `SetInputCapture`,
  `View`, `OnFocus`, and the editor's `Clear`/`Reset` wrappers, which only delegate and redraw.
  Only the buffer state and the rendered string are modelled.
- The callback is not called. `HandleEvent` and `Step` return the event it would receive. What
  the callbacks do (focus changes, clipboard writes, calls to the generation backend in
  `ui/core/core.go`) is outside the model.
- `ui/core/core.go`, `openai/openai.go`, `generator/backend/generator.go`,
  `generator/backend/system.go` and `main.go` are not modelled. They are application wiring, an
  HTTP/JSON client, network round trips, a prompt constant and process startup.
- `openai.Role` is modelled as a three-constructor datatype, not as a struct holding a name
  string.
- Go `int` is 64-bit; cursors and indices are unbounded integers here. No length in the model
  approaches the Go limit.
- A rune key may carry a newline character. It then becomes part of one line's text, as in the
  Go code. `MultiLineBuffer.ResetOwnContent` therefore requires newline-free lines.
- Editor.ApplyKeyMatchesFlat: for Up and Down it states only that the text is unchanged, because
  their cursor position depends on the line layout. The column rule is stated by
  `MultiLineBuffer.MoveCursorUp` and `MultiLineBuffer.MoveCursorDown`.
