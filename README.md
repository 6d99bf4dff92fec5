# Arduinoplus editor features, modelled in Dafny

Arduinoplus is a VS Code extension that adds conveniences for Arduino sketches. This
project models the state and logic of its five editor features:

- **Anchors**: named line bookmarks.
  - They are kept per document URI in one JSON checkpoint file.
  - A cleanup pass at start-up drops files that no longer exist.
  - A periodic step moves the anchors of an unsaved sketch (a URI containing
    `.arduinoIDE-unsaved`) to the saved file whose name it contains.
- **Snippet library**: a list of `{ id, name, content, created }` records kept in a JSON
  file, with add, delete-by-id and update-content operations. A new snippet is named
  `Snippet <n>`, where `n` is one more than the current number of snippets.
- **Snippet panel**: the webview side of the library.
  - It dispatches `copy`, `insert`, `delete` and `update` messages.
  - It has the commands that copy the selected text into the library, or move it there
    (copy, then delete from the document).
  - HTML escaping is used when the panel is rendered.
- **Toggle line comment**:
  - If every selected line is blank or starts (after indentation) with `//`, the first
    `//` of each line is removed, together with one following space.
  - Otherwise `// ` is inserted at each line's first non-blank character, and on empty
    lines.
- **Duplicate line**:
  - With an empty selection, the cursor's line is copied below it and the cursor follows.
  - Otherwise the selected text is inserted after the selection, preceded by a line break.

The model is split into modules:

- `Wrappers`: `Option`.
- `Strings`: the JavaScript string operations the features use: `trim`, `trimStart`,
  `indexOf`, `includes`, `search(/\S/)`, `substring` and decimal rendering.
- `TextBuffer`: a VS Code document as a sequence of lines, plus its flat text, offsets,
  positions and a `TextEditor` class with a selection and a single-range `Edit`.
- `Anchors`, `Snippets`, `SnippetPanel`, `ToggleLineComment` and `DuplicateLine`: one
  module per source file.

**Persistence.** The JSON files are modelled by a `file` field: the last content written,
or what was read at start-up. A `writable` flag says whether the file system accepts
writes, and a ghost `saves` counter records every save attempt.

**Parameters in place of the environment.** The clock (`Date.now()` and
`new Date().toISOString()`) and the user's answers to the warning and the input box are
passed in as parameters. So are the file-system checks (`vscode.Uri.parse` succeeding,
`fs.existsSync`), `path.basename`, and the enumeration order of the anchor store's keys.

## Model

All source paths are under `arduinoplus/extension/out/features/`, written here in full.

| member | source | states |
|---|---|---|
| Strings.Trim | arduinoplus/extension/out/features/anchorManager.js:112 | the result has no whitespace at either end; it occurs in the line just after its leading whitespace, and only whitespace follows it |
| Strings.TrimEnd | arduinoplus/extension/out/features/anchorManager.js:112 | the result is a prefix of the input, everything cut off is whitespace, and the result does not end with whitespace |
| Strings.Prefix | arduinoplus/extension/out/features/anchorManager.js:127 | `substring(0, n)`: the first `n` characters, or the whole string when it is shorter |
| Strings.ContainsInfix | arduinoplus/extension/out/features/anchorManager.js:99 | `includes` holds of any string that occurs in the text at some position |
| Strings.TrimStart | arduinoplus/extension/out/features/toggleLineComment.js:32 | the result is a suffix of the input, everything cut off is whitespace, and the result does not begin with whitespace |
| Strings.IndexOf | arduinoplus/extension/out/features/toggleLineComment.js:47 | -1 exactly when the pattern does not occur; otherwise the pattern occurs at the result and nowhere before it |
| Strings.FirstNonWhitespace | arduinoplus/extension/out/features/toggleLineComment.js:61 | -1 exactly when the line is all whitespace; otherwise the first non-whitespace index, with only whitespace before it |
| Strings.DecimalRoundTrip | arduinoplus/extension/out/features/snippetManager.js:96 | reading back the decimal rendering of a natural number gives that number |
| TextBuffer.LinesOfJoin | arduinoplus/extension/out/features/duplicateLine.js:27-32 | splitting the joined text of a document's lines at line breaks gives back the same lines |
| TextBuffer.JoinOfLines | arduinoplus/extension/out/features/duplicateLine.js:27-32 | joining the lines of any text gives back that text, so the line view and the text view of a document are interchangeable |
| TextBuffer.TextEditor.Edit | arduinoplus/extension/out/features/snippetPanel.js:207-213 | one insert, delete or replace: the text becomes the old text with the range replaced, the lines are that text split at line breaks, and the selection is kept |
| TextBuffer.TextEditor.SelectedText | arduinoplus/extension/out/features/snippetPanel.js:243 | `getText(selection)` is empty exactly when the selection is empty |
| Anchors.Load | arduinoplus/extension/out/features/anchorManager.js:48-60 | a missing or unparseable file loads as the empty store; a parsed file loads as its content |
| Anchors.AnchorManager.constructor | arduinoplus/extension/out/features/anchorManager.js:21-30 | the store is the loaded file with cleanup applied; it is saved once exactly when cleanup removed something |
| Anchors.AnchorManager.LoadAnchors | arduinoplus/extension/out/features/anchorManager.js:48-60 | the store becomes what the backing file holds; nothing is written |
| Anchors.AnchorManager.SaveAnchors | arduinoplus/extension/out/features/anchorManager.js:65-84 | returns whether the write succeeded; on success the file holds the store, and on failure the file is unchanged |
| Anchors.NewAnchor | arduinoplus/extension/out/features/anchorManager.js:124-128 | the preview is a prefix of the trimmed line of at most 50 characters: the whole trimmed line when it is that short, otherwise exactly 50 characters |
| Anchors.AddedSpec | arduinoplus/extension/out/features/anchorManager.js:131-135 | adding appends the anchor to the file's list, creating the list if absent; no other file's list changes, and no empty list appears |
| Anchors.AnchorManager.AddAnchor | arduinoplus/extension/out/features/anchorManager.js:89-140 | with no editor, a declined unsaved-sketch warning or an empty name, nothing changes and nothing is saved; otherwise the new anchor is appended to the file's list and the store is saved once |
| Anchors.Lookup | arduinoplus/extension/out/features/anchorManager.js:150 | a file's list, or the empty list for a file with no entry |
| Anchors.AnchorManager.AnchorsForCurrentFile | arduinoplus/extension/out/features/anchorManager.js:145-151 | empty without an active editor; otherwise the active document's list |
| Anchors.RemoveAt | arduinoplus/extension/out/features/anchorManager.js:185 | the list loses exactly the element at the index; the elements before it keep their places and the ones after it move down by one |
| Anchors.DeletedSpec | arduinoplus/extension/out/features/anchorManager.js:183-195 | an index outside the list, or a file without an entry, leaves the store as it is; otherwise that one anchor is removed; other files are untouched, and no empty list is left behind |
| Anchors.DeleteLastAnchor | arduinoplus/extension/out/features/anchorManager.js:188-190 | deleting a file's only anchor removes the file's entry from the store |
| Anchors.AnchorManager.DeleteAnchor | arduinoplus/extension/out/features/anchorManager.js:183-195 | the store becomes the deleted store, and it is saved exactly when an anchor was removed |
| Anchors.CleanedSpec | arduinoplus/extension/out/features/anchorManager.js:310-332 | cleanup keeps exactly the entries whose key parses as a URI and names an existing file, with their lists untouched; running it again removes nothing |
| Anchors.AnchorManager.CleanupAnchors | arduinoplus/extension/out/features/anchorManager.js:310-332 | the store becomes the cleaned store, and it is saved exactly when something was removed |
| Anchors.TempUris | arduinoplus/extension/out/features/anchorManager.js:348-350 | the result holds exactly the store's unsaved-sketch keys |
| Anchors.TempUrisConcat | arduinoplus/extension/out/features/anchorManager.js:348-350 | the filter keeps the keys in their enumeration order: filtering a concatenation filters each part |
| Anchors.FirstMatchIs | arduinoplus/extension/out/features/anchorManager.js:356-374 | the first (editor, unsaved URI) pair found by scanning editors in order, and unsaved URIs in order for each editor, is the first match |
| Anchors.MigratedSpec | arduinoplus/extension/out/features/anchorManager.js:365-372 | with no match the store is unchanged; otherwise the first matching unsaved URI's list moves to the saved editor's URI, replacing what it held, and every other key keeps its list; the store never grows and no empty list appears |
| Anchors.NoTempNoMigration | arduinoplus/extension/out/features/anchorManager.js:348-351 | a store without unsaved-sketch keys is left as it is |
| Anchors.AnchorManager.CheckAndMigrateTempAnchors | arduinoplus/extension/out/features/anchorManager.js:346-376 | the store becomes the migrated store, and it is saved once exactly when a pair matched |
| Snippets.Load | arduinoplus/extension/out/features/snippetManager.js:42-55 | a missing or unparseable file loads as no snippets; a parsed file loads as its list |
| Snippets.SnippetManager.constructor | arduinoplus/extension/out/features/snippetManager.js:20-24 | the list is what the file holds, and nothing has been saved |
| Snippets.SnippetManager.LoadSnippets | arduinoplus/extension/out/features/snippetManager.js:42-55 | the list becomes what the file holds; nothing is written |
| Snippets.SnippetManager.SaveSnippets | arduinoplus/extension/out/features/snippetManager.js:60-86 | returns whether the write succeeded; on success the file holds the list, and on failure the file is unchanged |
| Snippets.SnippetNameNumbered | arduinoplus/extension/out/features/snippetManager.js:96 | a generated name is `Snippet ` followed by a decimal numeral that reads back as its number |
| Snippets.SnippetNameInjective | arduinoplus/extension/out/features/snippetManager.js:96 | different numbers give different names |
| Snippets.SnippetManager.AddSnippet | arduinoplus/extension/out/features/snippetManager.js:93-104 | the returned snippet has the clock's id and time, the given content and the next number's name; it is appended to the list, which is then saved once |
| Snippets.SnippetManager.GetAllSnippets | arduinoplus/extension/out/features/snippetManager.js:110-112 | the current list |
| Snippets.WithoutId | arduinoplus/extension/out/features/snippetManager.js:119 | a snippet is kept exactly when its id differs from the given one |
| Snippets.WithoutIdConcat | arduinoplus/extension/out/features/snippetManager.js:119 | filtering a concatenation filters each part, so the kept snippets stay in their original order |
| Snippets.WithoutAbsentId | arduinoplus/extension/out/features/snippetManager.js:119 | deleting an id no snippet has changes nothing |
| Snippets.WithoutIdIdempotent | arduinoplus/extension/out/features/snippetManager.js:119 | deleting the same id twice is the same as deleting it once |
| Snippets.SnippetManager.DeleteSnippet | arduinoplus/extension/out/features/snippetManager.js:118-121 | the list loses every snippet with the id, and it is saved once even when nothing was removed |
| Snippets.FindById | arduinoplus/extension/out/features/snippetManager.js:129 | the index of the first snippet with the id, or none when no snippet has it |
| Snippets.UpdatedSpec | arduinoplus/extension/out/features/snippetManager.js:128-134 | an absent id leaves the list as it is; otherwise only the first snippet with the id gets the new content, keeping its id, name and time |
| Snippets.SnippetManager.UpdateSnippet | arduinoplus/extension/out/features/snippetManager.js:128-134 | the list becomes the updated list, and it is saved exactly when a snippet with the id exists |
| ToggleLineComment.Indentation | arduinoplus/extension/out/features/toggleLineComment.js:60-61 | the leading whitespace of a line, which together with the trimmed line gives back the line |
| ToggleLineComment.CheckLine | arduinoplus/extension/out/features/toggleLineComment.js:31-34 | true exactly when the line is blank or begins, after whitespace, with `//` |
| ToggleLineComment.ScanAllCommented | arduinoplus/extension/out/features/toggleLineComment.js:29-37 | true exactly when every line of the range counts as commented |
| ToggleLineComment.UncommentLineSpec | arduinoplus/extension/out/features/toggleLineComment.js:47-58 | without `//` the line stays as it is; otherwise its first `//` is removed, together with a directly following space if there is one, and the rest of the line is kept |
| ToggleLineComment.CommentLineSpec | arduinoplus/extension/out/features/toggleLineComment.js:60-73 | `// ` goes in before the first non-whitespace character; an empty line becomes `// `; a non-empty blank line stays as it is |
| ToggleLineComment.ToggledFrame | arduinoplus/extension/out/features/toggleLineComment.js:41-75 | only the lines in the range change, each by the one direction chosen for the whole range; the line count is kept and no line break appears |
| ToggleLineComment.ToggleEach | arduinoplus/extension/out/features/toggleLineComment.js:41-75 | the edit loop produces the toggled lines |
| ToggleLineComment.ToggleLineComment | arduinoplus/extension/out/features/toggleLineComment.js:14-77 | the document's lines become the toggled lines of the selected line range, and the selection is kept |
| ToggleLineComment.CommentThenUncomment | arduinoplus/extension/out/features/toggleLineComment.js:45-73 | a commented line counts as commented, and uncommenting it gives back the original line |
| ToggleLineComment.BlankRangeUnchanged | arduinoplus/extension/out/features/toggleLineComment.js:29-58 | a range of blank lines counts as all commented, and toggling it changes nothing |
| ToggleLineComment.ToggleTwiceRestores | arduinoplus/extension/out/features/toggleLineComment.js:29-75 | toggling a range that is not all commented comments it completely, and toggling again restores the original lines |
| DuplicateLine.LineDuplicated | arduinoplus/extension/out/features/duplicateLine.js:27-32 | the document gains one line, a copy of the cursor's line, directly below it; the lines above keep their places and the lines below move down by one |
| DuplicateLine.DuplicateLineEdit | arduinoplus/extension/out/features/duplicateLine.js:27-32 | inserting a line break and the line's text at the end of the line gives the document with that line duplicated, whether or not it is the last line |
| DuplicateLine.SelectionDuplicated | arduinoplus/extension/out/features/duplicateLine.js:35-39 | the text up to the selection's end is kept, then come a line break and a copy of the selected text, then the rest of the document |
| DuplicateLine.DuplicateLine | arduinoplus/extension/out/features/duplicateLine.js:15-49 | a rejected edit changes nothing; with an empty selection the cursor's line is duplicated and the cursor moves one line down; otherwise the selected text is duplicated after the selection, which is kept |
| SnippetPanel.EscapeChar | arduinoplus/extension/out/features/snippetPanel.js:314-320 | the five special characters become entities that start with `&`; every other character stays as it is; no markup character remains |
| SnippetPanel.EscapeHtml | arduinoplus/extension/out/features/snippetPanel.js:313-322 | the result contains no `<`, `>` or quote character, and is never shorter than the input |
| SnippetPanel.EscapeHtmlConcat | arduinoplus/extension/out/features/snippetPanel.js:321 | escaping works character by character: escaping a concatenation is the concatenation of the escaped parts |
| SnippetPanel.EscapeHtmlLength | arduinoplus/extension/out/features/snippetPanel.js:313-322 | the length is kept exactly when no special character occurs, and then the text is unchanged |
| SnippetPanel.UnescapeEscape | arduinoplus/extension/out/features/snippetPanel.js:313-322 | decoding the five entities undoes escaping, so no information is lost |
| SnippetPanel.MovedContent | arduinoplus/extension/out/features/snippetPanel.js:281-289 | the stored text is the selected text, followed by a line break when the selection spans whole lines |
| SnippetPanel.FullDeleteEnd | arduinoplus/extension/out/features/snippetPanel.js:296-299 | a full-line deletion ends just after the last selected line's line break, or at the end of the document when that is the last line |
| SnippetPanel.MoveRange | arduinoplus/extension/out/features/snippetPanel.js:293-304 | the deleted range starts at the selection's start. It ends at the selection's end, or after the whole last line when the selection spans full lines |
| SnippetPanel.FullLineMoveLines | arduinoplus/extension/out/features/snippetPanel.js:294-300 | deleting full lines removes exactly those lines; moving the last line leaves an empty last line |
| SnippetPanel.MoveRestores | arduinoplus/extension/out/features/snippetPanel.js:281-304 | inserting the stored text back where the deleted range began restores the document; the one exception is a full-line move that includes the last line, which comes back with one extra line break |
| SnippetPanel.CopiedText | arduinoplus/extension/out/features/snippetPanel.js:187-189 | the clipboard gets the content of the snippet with the id, and stays as it was when there is none |
| SnippetPanel.Panel.constructor | arduinoplus/extension/out/features/snippetPanel.js:10-11 | no manager and no open panel |
| SnippetPanel.Panel.UpdatePanelContent | arduinoplus/extension/out/features/snippetPanel.js:50-54 | an open panel shows the manager's current list; a closed one changes nothing |
| SnippetPanel.Panel.ShowSnippetPanel | arduinoplus/extension/out/features/snippetPanel.js:17-45 | the manager is adopted, and the panel is open and showing its list, whether it was open before or not |
| SnippetPanel.Panel.Dispose | arduinoplus/extension/out/features/snippetPanel.js:38-40 | the panel is closed and nothing else changes |
| SnippetPanel.Panel.CopySnippetToClipboard | arduinoplus/extension/out/features/snippetPanel.js:186-192 | the clipboard becomes the copied text; the list and the panel are untouched |
| SnippetPanel.Panel.InsertSnippetToEditor | arduinoplus/extension/out/features/snippetPanel.js:197-216 | an unknown id changes nothing; otherwise the snippet's content is inserted at the cursor when the selection is empty, and replaces the selection otherwise |
| SnippetPanel.Panel.DeleteSnippetById | arduinoplus/extension/out/features/snippetPanel.js:221-225 | the list loses the id and is saved once, so a writable file then holds the new list; an open panel shows the new list |
| SnippetPanel.Panel.HandlePanelMessage | arduinoplus/extension/out/features/snippetPanel.js:166-181 | each of the four commands has its own effect and no other: copy, insert and unknown commands leave the manager untouched; delete always saves; update saves exactly when the id exists |
| SnippetPanel.Panel.AdoptManager | arduinoplus/extension/out/features/snippetPanel.js:260-262 | an existing manager is kept; otherwise the given one is adopted |
| SnippetPanel.Panel.CopyToSnippets | arduinoplus/extension/out/features/snippetPanel.js:230-253 | with no editor or an empty selection, the manager and the panel are unchanged; otherwise the selected text becomes a new snippet, the list is saved once, and the panel opens showing it; a manager that is passed in but not adopted is untouched |
| SnippetPanel.Panel.MovedSelection | arduinoplus/extension/out/features/snippetPanel.js:281-289 | the full-lines test and the text to store, as the move command computes them |
| SnippetPanel.Panel.DeleteMoved | arduinoplus/extension/out/features/snippetPanel.js:293-304 | the document loses exactly the move range, and the selection is kept |
| SnippetPanel.Panel.MoveSelection | arduinoplus/extension/out/features/snippetPanel.js:281-304 | the stored text becomes a new snippet and the list is saved once; the document loses the move range |
| SnippetPanel.Panel.MoveToSnippets | arduinoplus/extension/out/features/snippetPanel.js:258-308 | with no editor or an empty selection nothing changes; otherwise the stored text becomes a new snippet, the list is saved once, the move range is deleted, and the panel opens showing the list; a manager that is passed in but not adopted is untouched |

## Left out

- File I/O and JSON (de)serialization: the files are a field holding the last written or
  loaded value. `JSON.parse` yielding a value of the wrong shape is not modelled.
- `ensureDirectory` (both managers): its only effect is creating a directory.
- `startMigrationTimer`: the 10-second `setInterval` is a clock. Each tick is one call of
  `CheckAndMigrateTempAnchors`.
- User interface:
  - `showAnchorList`, `showDeleteAnchorList`, `jumpToAnchor`, `createStatusBar` and
    `updateStatusBar`, which are QuickPick and status-bar interaction;
  - informational and warning messages;
  - the input box's suggested value (the first 30 characters of the line).
  The user's answers arrive as the `choice` and `input` parameters of `AddAnchor`.
- `getAllAnchors`: it returns the store field as it is.
- `generatePanelHTML` and the webview page: `shown` records the list the page was last
  rendered from. Only the escaping function is modelled.
- How VS Code moves selections after an edit: the model keeps the selection as it was,
  clamped where it is used. The exception is `DuplicateLine`, which sets it as the
  source does.
- The edits of `insertSnippetToEditor`, `moveToSnippets` and `toggleLineComment` are
  modelled as always applied. `DuplicateLine` has an `accepted` parameter, because its
  follow-up depends on whether the edit succeeded.
- CRLF documents: a line break is always `\n`.
- UTF-16: strings are sequences of Unicode characters. JavaScript's `length` and `substring`,
  and VS Code's `character` positions, count UTF-16 code units instead. So outside the Basic
  Multilingual Plane, `substring(0, 50)` for the anchor preview can keep fewer characters than
  `NewAnchor` does, and can split a surrogate pair. Positions and lengths are counted in characters
  throughout the model.
- The enumeration order of a JavaScript object's keys: it is passed as `keyOrder`.
- Asynchronous interleaving: a command's awaits and a timer tick that could run in
  between are not modelled, because each operation is modelled as atomic.
- The system clipboard is a field, and `Date.now` and `toISOString` are parameters.
- `vscode.Uri.parse` and `fs.existsSync` are the predicates `parses` and `exists_`, and
  `path.basename` is a function parameter.
- `extension.js` (command registration and activation) is not part of this model.
- SnippetPanel.Panel.CopyToSnippets and SnippetPanel.Panel.MoveToSnippets: these
  require a manager, either the module's or the argument. With neither, the source
  throws a `TypeError`, but only when a non-empty selection reaches `addSnippet`; that
  failing path is not modelled.
