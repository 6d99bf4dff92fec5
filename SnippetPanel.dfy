/** The snippet panel: a webview listing the snippets, the messages it sends back
    (copy, insert, delete, update), and the two editor commands that turn the
    selection into a snippet (copy it, or move it out of the document). */
module SnippetPanel {
  import opened Wrappers
  import opened Strings
  import opened TextBuffer
  import opened Snippets

  // ---------------------------------------------------------------------------
  // escapeHtml

  /** The five characters `escapeHtml` replaces. */
  predicate IsSpecial(c: char) {
    c == '&' || c == '<' || c == '>' || c == '"' || c == '\''
  }

  /** The characters that could open or close markup or an attribute value. */
  predicate IsMarkup(c: char) {
    c == '<' || c == '>' || c == '"' || c == '\''
  }

  /** The replacement of one character: its entity, or the character itself. */
  function EscapeChar(c: char): (r: string)
    ensures IsSpecial(c) ==> |r| > 1 && r[0] == '&'
    ensures !IsSpecial(c) ==> r == [c]
    ensures forall i :: 0 <= i < |r| ==> !IsMarkup(r[i])
  {
    match c
    case '&' => "&amp;"
    case '<' => "&lt;"
    case '>' => "&gt;"
    case '"' => "&quot;"
    case '\'' => "&#039;"
    case _ => [c]
  }

  /** `escapeHtml(text)`: every special character replaced by its entity, every other
      character copied, in order. */
  function EscapeHtml(s: string): (r: string)
    ensures |r| >= |s|
    ensures forall i :: 0 <= i < |r| ==> !IsMarkup(r[i])
  {
    if s == [] then [] else EscapeChar(s[0]) + EscapeHtml(s[1..])
  }

  /** Escaping works character by character, so it distributes over concatenation. */
  lemma {:induction false} EscapeHtmlConcat(a: string, b: string)
    ensures EscapeHtml(a + b) == EscapeHtml(a) + EscapeHtml(b)
  {
    if a == [] {
      assert a + b == b;
    } else {
      assert (a + b)[0] == a[0];
      assert (a + b)[1..] == a[1..] + b;
      EscapeHtmlConcat(a[1..], b);
    }
  }

  /** The output is exactly as long as the input iff none of the five characters
      occurs, and then it is the input itself. */
  lemma {:induction false} EscapeHtmlLength(s: string)
    ensures |EscapeHtml(s)| == |s| <==> forall i :: 0 <= i < |s| ==> !IsSpecial(s[i])
    ensures (forall i :: 0 <= i < |s| ==> !IsSpecial(s[i])) ==> EscapeHtml(s) == s
  {
    if s != [] {
      EscapeHtmlLength(s[1..]);
      assert forall i :: 1 <= i < |s| ==> s[1..][i - 1] == s[i];
      if !IsSpecial(s[0]) {
        assert [s[0]] + s[1..] == s;
      }
    }
  }

  /** The browser's decoding of the five entities `escapeHtml` produces, read left to
      right; any other character stands for itself. */
  function UnescapeHtml(t: string): (s: string)
    ensures |s| <= |t|
    decreases |t|
  {
    if t == [] then []
    else if t[0] != '&' then [t[0]] + UnescapeHtml(t[1..])
    else if StartsWith(t, "&amp;") then "&" + UnescapeHtml(t[5..])
    else if StartsWith(t, "&lt;") then "<" + UnescapeHtml(t[4..])
    else if StartsWith(t, "&gt;") then ">" + UnescapeHtml(t[4..])
    else if StartsWith(t, "&quot;") then "\"" + UnescapeHtml(t[6..])
    else if StartsWith(t, "&#039;") then "'" + UnescapeHtml(t[6..])
    else [t[0]] + UnescapeHtml(t[1..])
  }

  lemma UnescapeAmp(rest: string)
    ensures UnescapeHtml("&amp;" + rest) == "&" + UnescapeHtml(rest)
  {
    var t := "&amp;" + rest;
    assert t[0] == '&' && t[..5] == "&amp;" && t[5..] == rest;
  }

  lemma UnescapeLt(rest: string)
    ensures UnescapeHtml("&lt;" + rest) == "<" + UnescapeHtml(rest)
  {
    var t := "&lt;" + rest;
    assert t[0] == '&' && t[1] == 'l' && t[..4] == "&lt;" && t[4..] == rest;
    assert !StartsWith(t, "&amp;") by { if 5 <= |t| { assert t[..5][1] == t[1]; } }
  }

  lemma UnescapeGt(rest: string)
    ensures UnescapeHtml("&gt;" + rest) == ">" + UnescapeHtml(rest)
  {
    var t := "&gt;" + rest;
    assert t[0] == '&' && t[1] == 'g' && t[..4] == "&gt;" && t[4..] == rest;
    assert !StartsWith(t, "&amp;") by { if 5 <= |t| { assert t[..5][1] == t[1]; } }
    assert !StartsWith(t, "&lt;") by { assert t[..4][1] == t[1]; }
  }

  lemma UnescapeQuot(rest: string)
    ensures UnescapeHtml("&quot;" + rest) == "\"" + UnescapeHtml(rest)
  {
    var t := "&quot;" + rest;
    assert t[0] == '&' && t[1] == 'q' && t[..6] == "&quot;" && t[6..] == rest;
    assert !StartsWith(t, "&amp;") by { assert t[..5][1] == t[1]; }
    assert !StartsWith(t, "&lt;") by { assert t[..4][1] == t[1]; }
    assert !StartsWith(t, "&gt;") by { assert t[..4][1] == t[1]; }
  }

  lemma UnescapeApos(rest: string)
    ensures UnescapeHtml("&#039;" + rest) == "'" + UnescapeHtml(rest)
  {
    var t := "&#039;" + rest;
    assert t[0] == '&' && t[1] == '#' && t[..6] == "&#039;" && t[6..] == rest;
    assert !StartsWith(t, "&amp;") by { assert t[..5][1] == t[1]; }
    assert !StartsWith(t, "&lt;") by { assert t[..4][1] == t[1]; }
    assert !StartsWith(t, "&gt;") by { assert t[..4][1] == t[1]; }
    assert !StartsWith(t, "&quot;") by { assert t[..6][1] == t[1]; }
  }

  lemma UnescapePlain(c: char, rest: string)
    requires c != '&'
    ensures UnescapeHtml([c] + rest) == [c] + UnescapeHtml(rest)
  {
    var t := [c] + rest;
    assert t[0] == c && t[1..] == rest;
  }

  /** Decoding one escaped character in front of more text gives that character back. */
  lemma UnescapeEscapeChar(c: char, rest: string)
    ensures UnescapeHtml(EscapeChar(c) + rest) == [c] + UnescapeHtml(rest)
  {
    if c == '&' {
      UnescapeAmp(rest);
    } else if c == '<' {
      UnescapeLt(rest);
    } else if c == '>' {
      UnescapeGt(rest);
    } else if c == '"' {
      UnescapeQuot(rest);
    } else if c == '\'' {
      UnescapeApos(rest);
    } else {
      UnescapePlain(c, rest);
    }
  }

  /** What the panel's text area shows is the snippet's content: decoding undoes
      escaping. */
  lemma {:induction false} UnescapeEscape(s: string)
    ensures UnescapeHtml(EscapeHtml(s)) == s
  {
    if s != [] {
      UnescapeEscapeChar(s[0], EscapeHtml(s[1..]));
      UnescapeEscape(s[1..]);
      assert [s[0]] + s[1..] == s;
    }
  }

  // ---------------------------------------------------------------------------
  // The full-line rule of moveToSnippets

  /** `isFullLines`: the selection starts at column 0 and ends at the end of its last
      line. */
  predicate IsFullLines(ls: seq<string>, st: Position, en: Position)
    requires ValidPosition(ls, en)
  {
    st.character == 0 && en.character == |ls[en.line]|
  }

  /** The offset of `(min(endLine + 1, lineCount), 0)` once the editor has validated
      it: just past the line break that ends line `e`, or the end of the document
      when `e` is the last line. */
  function FullDeleteEnd(ls: seq<string>, e: nat): (k: nat)
    requires e < |ls|
    ensures LineStart(ls, e) + |ls[e]| <= k <= |Join(ls)|
    ensures e + 1 < |ls| ==> k == LineStart(ls, e) + |ls[e]| + 1 && Join(ls)[k - 1] == '\n'
    ensures e + 1 == |ls| ==> k == |Join(ls)|
  {
    LineInText(ls, e);
    var k := OffsetAt(ls, Validate(ls, Position(Min(e + 1, |ls|), 0)));
    if e + 1 < |ls| then
      JoinSplit(ls, e + 1);
      JoinPrefixLength(ls, e);
      k
    else
      k
  }

  /** The offsets `moveToSnippets` deletes: whole lines with their line breaks when the
      selection is full lines, otherwise the selection. */
  function MoveRange(ls: seq<string>, st: Position, en: Position): (r: (nat, nat))
    requires ValidPosition(ls, st) && ValidPosition(ls, en) && BeforeOrEqual(st, en)
    ensures r.0 == OffsetAt(ls, st) <= OffsetAt(ls, en) <= r.1 <= |Join(ls)|
    ensures !IsFullLines(ls, st, en) ==> r.1 == OffsetAt(ls, en)
    ensures IsFullLines(ls, st, en) ==> r.1 == FullDeleteEnd(ls, en.line)
  {
    OffsetMonotone(ls, st, en);
    if IsFullLines(ls, st, en) then (LineStart(ls, st.line), FullDeleteEnd(ls, en.line))
    else (OffsetAt(ls, st), OffsetAt(ls, en))
  }

  lemma ConcatSlices(x: string, y: string)
    ensures (x + y)[..|x|] == x && (x + y)[|x|..] == y
  {
  }

  /** Lines `..e` are lines `..s`, a line break and lines `s..e`. */
  lemma JoinPrefixSplit(ls: seq<string>, s: nat, e: nat)
    requires 0 < s <= e < |ls|
    ensures Join(ls[..e + 1]) == Join(ls[..s]) + "\n" + Join(ls[s..e + 1])
  {
    var h := ls[..e + 1];
    assert h[..s] == ls[..s] && h[s..] == ls[s..e + 1];
    JoinSplit(h, s);
  }

  /** The text of lines `..e` begins the document. */
  lemma JoinPrefixOfText(ls: seq<string>, e: nat)
    requires e < |ls|
    ensures |Join(ls[..e + 1])| <= |Join(ls)|
    ensures Join(ls)[..|Join(ls[..e + 1])|] == Join(ls[..e + 1])
  {
    if e + 1 < |ls| {
      JoinSplit(ls, e + 1);
      ConcatSlices(Join(ls[..e + 1]), "\n" + Join(ls[e + 1..]));
      assert Join(ls) == Join(ls[..e + 1]) + ("\n" + Join(ls[e + 1..]));
    } else {
      assert ls[..e + 1] == ls;
    }
  }

  /** The text of a full-line selection of lines `s..e` is those lines joined. */
  lemma FullLinesText(ls: seq<string>, s: nat, e: nat)
    requires s <= e < |ls|
    ensures LineStart(ls, s) <= LineStart(ls, e) + |ls[e]| <= |Join(ls)|
    ensures Join(ls)[LineStart(ls, s)..LineStart(ls, e) + |ls[e]|] == Join(ls[s..e + 1])
  {
    var p1 := Join(ls[..e + 1]);
    JoinPrefixLength(ls, e);
    JoinPrefixOfText(ls, e);
    LineInText(ls, e);
    if s == 0 {
      assert ls[..e + 1] == ls[s..e + 1];
      assert Join(ls)[0..|p1|] == Join(ls)[..|p1|];
    } else {
      var p0 := Join(ls[..s]);
      JoinSplit(ls, s);
      JoinPrefixSplit(ls, s, e);
      assert Join(ls)[|p0| + 1..|p1|] == p1[|p0| + 1..];
      ConcatSlices(p0 + "\n", Join(ls[s..e + 1]));
    }
  }

  /** Cutting `t[a..b]` out of `t` leaves what came before `a` and what came after `b`. */
  lemma CutBetween(t: string, x: string, q: string, a: nat, b: nat)
    requires a <= b <= |t| && t[..a] == x && t[b..] == q
    ensures Spliced(t, a, b, "") == x + q
  {
  }

  /** The text before line `s`, `s > 0`, is lines `..s` and a line break. */
  lemma TextBeforeLine(ls: seq<string>, s: nat)
    requires 0 < s < |ls|
    ensures LineStart(ls, s) == |Join(ls[..s])| + 1 <= |Join(ls)|
    ensures Join(ls)[..LineStart(ls, s)] == Join(ls[..s]) + "\n"
  {
    JoinSplit(ls, s);
    ConcatSlices(Join(ls[..s]) + "\n", Join(ls[s..]));
  }

  /** The text after the line break that ends line `e` is lines `e + 1..`. */
  lemma TextAfterLine(ls: seq<string>, e: nat)
    requires e + 1 < |ls|
    ensures FullDeleteEnd(ls, e) == |Join(ls[..e + 1])| + 1
    ensures Join(ls)[FullDeleteEnd(ls, e)..] == Join(ls[e + 1..])
  {
    JoinPrefixLength(ls, e);
    JoinSplit(ls, e + 1);
    ConcatSlices(Join(ls[..e + 1]) + "\n", Join(ls[e + 1..]));
  }

  /** The text left by a full-line move of lines `s..e`, `s > 0`, when lines follow. */
  lemma MoveTextMiddle(ls: seq<string>, s: nat, e: nat)
    requires 0 < s <= e && e + 1 < |ls|
    ensures LineStart(ls, s) <= FullDeleteEnd(ls, e)
    ensures Spliced(Join(ls), LineStart(ls, s), FullDeleteEnd(ls, e), "") == Join(ls[..s] + ls[e + 1..])
  {
    var p0, q := Join(ls[..s]), Join(ls[e + 1..]);
    JoinPrefixSplit(ls, s, e);
    TextBeforeLine(ls, s);
    TextAfterLine(ls, e);
    CutBetween(Join(ls), p0 + "\n", q, LineStart(ls, s), FullDeleteEnd(ls, e));
    JoinConcat(ls[..s], ls[e + 1..]);
  }

  /** The text left by a full-line move of lines `0..e` when lines follow. */
  lemma MoveTextHead(ls: seq<string>, e: nat)
    requires e + 1 < |ls|
    ensures Spliced(Join(ls), LineStart(ls, 0), FullDeleteEnd(ls, e), "") == Join(ls[..0] + ls[e + 1..])
  {
    var p1, q := Join(ls[..e + 1]), Join(ls[e + 1..]);
    JoinSplit(ls, e + 1);
    ConcatSlices(p1 + "\n", q);
    assert ls[..0] + ls[e + 1..] == ls[e + 1..];
  }

  /** The text left by a full-line move of lines `s..` to the end, `s > 0`: the line
      break before line `s` stays. */
  lemma MoveTextTail(ls: seq<string>, s: nat)
    requires 0 < s < |ls|
    ensures LineStart(ls, s) <= FullDeleteEnd(ls, |ls| - 1)
    ensures Spliced(Join(ls), LineStart(ls, s), FullDeleteEnd(ls, |ls| - 1), "") == Join(ls[..s] + [""])
  {
    FullLinesText(ls, s, |ls| - 1);
    var p0 := Join(ls[..s]);
    JoinSplit(ls, s);
    ConcatSlices(p0 + "\n", Join(ls[s..]));
    JoinConcat(ls[..s], [""]);
  }

  /** The document text after a full-line delete of lines `s..e`. */
  lemma FullLineMoveText(ls: seq<string>, s: nat, e: nat)
    requires s <= e < |ls|
    ensures LineStart(ls, s) <= FullDeleteEnd(ls, e)
    ensures Spliced(Join(ls), LineStart(ls, s), FullDeleteEnd(ls, e), "") ==
      Join(if e + 1 < |ls| then ls[..s] + ls[e + 1..] else ls[..s] + [""])
  {
    FullLinesText(ls, s, e);
    if e + 1 < |ls| {
      if s == 0 {
        MoveTextHead(ls, e);
      } else {
        MoveTextMiddle(ls, s, e);
      }
    } else if s == 0 {
      assert ls[..s] + [""] == [""];
    } else {
      MoveTextTail(ls, s);
    }
  }

  /** Removing lines, or putting an empty line in their place, keeps lines free of
      line breaks. */
  lemma RemainingValid(ls: seq<string>, s: nat, e: nat)
    requires ValidLines(ls) && s <= e < |ls|
    ensures ValidLines(if e + 1 < |ls| then ls[..s] + ls[e + 1..] else ls[..s] + [""])
  {
    var r := if e + 1 < |ls| then ls[..s] + ls[e + 1..] else ls[..s] + [""];
    forall j | 0 <= j < |r| ensures '\n' !in r[j] {
      if j >= s && e + 1 < |ls| {
        assert r[j] == ls[j - s + e + 1];
      }
    }
  }

  /** A full-line delete of lines `s..e` leaves the other lines; when the last line goes,
      an empty line is left where the range began. */
  lemma FullLineMoveLines(ls: seq<string>, s: nat, e: nat)
    requires ValidLines(ls) && s <= e < |ls|
    ensures LineStart(ls, s) <= FullDeleteEnd(ls, e)
    ensures Lines(Spliced(Join(ls), LineStart(ls, s), FullDeleteEnd(ls, e), "")) ==
      if e + 1 < |ls| then ls[..s] + ls[e + 1..] else ls[..s] + [""]
  {
    FullLineMoveText(ls, s, e);
    RemainingValid(ls, s, e);
    LinesOfJoin(if e + 1 < |ls| then ls[..s] + ls[e + 1..] else ls[..s] + [""]);
  }

  /** The snippet `moveToSnippets` stores: the selected text, with a line break added
      when the selection is full lines, in which case it is the selected lines joined
      with a line break after the last. */
  function MovedContent(ls: seq<string>, st: Position, en: Position): (c: string)
    requires ValidPosition(ls, st) && ValidPosition(ls, en) && BeforeOrEqual(st, en)
    ensures !IsFullLines(ls, st, en) ==>
      OffsetAt(ls, st) + |c| == OffsetAt(ls, en) && c == Join(ls)[OffsetAt(ls, st)..OffsetAt(ls, en)]
    ensures IsFullLines(ls, st, en) ==>
      && |c| >= 1 && OffsetAt(ls, st) + |c| - 1 == OffsetAt(ls, en)
      && c == Join(ls)[OffsetAt(ls, st)..OffsetAt(ls, en)] + "\n"
    ensures IsFullLines(ls, st, en) ==> c == Join(ls[st.line..en.line + 1]) + "\n"
  {
    OffsetMonotone(ls, st, en);
    var text := Join(ls)[OffsetAt(ls, st)..OffsetAt(ls, en)];
    if IsFullLines(ls, st, en) then
      FullLinesText(ls, st.line, en.line);
      text + "\n"
    else
      text
  }

  /** Putting back what was cut at the place it was cut from restores the text. */
  lemma SplicedRestore(t: string, a: nat, b: nat, c: string)
    requires a <= b <= |t| && c == t[a..b]
    ensures Spliced(Spliced(t, a, b, ""), a, a, c) == t
  {
    var u := Spliced(t, a, b, "");
    assert u[..a] == t[..a] && u[a..] == t[b..];
    assert t[..a] + t[a..b] + t[b..] == t;
  }

  /** Cutting the end of a text and putting it back with `x` after it appends `x`. */
  lemma SplicedTailRestore(t: string, a: nat, b: nat, x: string, c: string)
    requires a <= b == |t| && c == t[a..b] + x
    ensures Spliced(Spliced(t, a, b, ""), a, a, c) == t + x
  {
    var u := Spliced(t, a, b, "");
    assert u == t[..a];
    assert t[..a] + (t[a..b] + x) == t + x;
  }

  /** Cutting `t[a..k]` with the line break at `k` and putting it back restores `t`. */
  lemma SplicedLineRestore(t: string, a: nat, k: nat, c: string)
    requires a <= k < |t| && t[k] == '\n' && c == t[a..k] + "\n"
    ensures Spliced(Spliced(t, a, k + 1, ""), a, a, c) == t
  {
    assert t[a..k + 1] == t[a..k] + [t[k]];
    SplicedRestore(t, a, k + 1, c);
  }

  /** Restoring after a full-line move of lines that are not the last. */
  lemma FullMoveRestores(ls: seq<string>, st: Position, en: Position)
    requires ValidPosition(ls, st) && ValidPosition(ls, en) && BeforeOrEqual(st, en)
    requires IsFullLines(ls, st, en) && en.line + 1 < |ls|
    ensures var t, r := Join(ls), MoveRange(ls, st, en);
      Spliced(Spliced(t, r.0, r.1, ""), r.0, r.0, MovedContent(ls, st, en)) == t
  {
    var t, r, c := Join(ls), MoveRange(ls, st, en), MovedContent(ls, st, en);
    var k := OffsetAt(ls, en);
    assert r.0 <= k && r.1 == k + 1 && t[k] == '\n';
    assert c == t[r.0..k] + "\n";
    SplicedLineRestore(t, r.0, k, c);
  }

  /** Restoring after a full-line move that includes the last line. */
  lemma LastMoveRestores(ls: seq<string>, st: Position, en: Position)
    requires ValidPosition(ls, st) && ValidPosition(ls, en) && BeforeOrEqual(st, en)
    requires IsFullLines(ls, st, en) && en.line + 1 == |ls|
    ensures var t, r := Join(ls), MoveRange(ls, st, en);
      Spliced(Spliced(t, r.0, r.1, ""), r.0, r.0, MovedContent(ls, st, en)) == t + "\n"
  {
    var t, r, c := Join(ls), MoveRange(ls, st, en), MovedContent(ls, st, en);
    assert r.0 <= r.1 && r.1 == OffsetAt(ls, en) == |t|;
    assert c == t[r.0..r.1] + "\n";
    SplicedTailRestore(t, r.0, r.1, "\n", c);
  }

  /** Moving is lossless: inserting the stored snippet where the deleted range began
      gives the document back, except that a full-line move that includes the last
      line comes back with one extra line break at the end. */
  lemma MoveRestores(ls: seq<string>, st: Position, en: Position)
    requires ValidPosition(ls, st) && ValidPosition(ls, en) && BeforeOrEqual(st, en)
    ensures var t, r := Join(ls), MoveRange(ls, st, en);
      Spliced(Spliced(t, r.0, r.1, ""), r.0, r.0, MovedContent(ls, st, en)) ==
        if IsFullLines(ls, st, en) && en.line + 1 == |ls| then t + "\n" else t
  {
    if !IsFullLines(ls, st, en) {
      var r := MoveRange(ls, st, en);
      SplicedRestore(Join(ls), r.0, r.1, MovedContent(ls, st, en));
    } else if en.line + 1 < |ls| {
      FullMoveRestores(ls, st, en);
    } else {
      LastMoveRestores(ls, st, en);
    }
  }

  // ---------------------------------------------------------------------------
  // The panel and its commands

  /** A message the webview posts: `{ command, id, content }`. */
  datatype PanelMessage = PanelMessage(command: string, id: int, content: string)

  /** The commands `handlePanelMessage` dispatches on. */
  predicate IsKnownCommand(command: string) {
    command == "copy" || command == "insert" || command == "delete" || command == "update"
  }

  /** The clipboard after copying snippet `id`: its content if some snippet has that id,
      otherwise what was there. */
  function CopiedText(ss: seq<Snippet>, id: int, clipboard: string): (r: string)
    ensures FindById(ss, id).None? ==> r == clipboard
    ensures FindById(ss, id).Some? ==> r == ss[FindById(ss, id).value].content
  {
    match FindById(ss, id)
    case None => clipboard
    case Some(i) => ss[i].content
  }

  /** The state of the panel module: `snippetManager`, whether `snippetPanel` is open,
      the snippet list its page was last rendered from, and the text the clipboard was
      last given. */
  class Panel {
    var manager: SnippetManager?
    var open: bool
    var shown: seq<Snippet>
    var clipboard: string

    /** An open panel always has a manager to render from. */
    ghost predicate Valid()
      reads this
    {
      open ==> manager != null
    }

    /** The module as loaded: no manager and no panel. */
    constructor (clip: string)
      ensures Valid()
      ensures manager == null && !open && shown == [] && clipboard == clip
    {
      manager := null;
      open := false;
      shown := [];
      clipboard := clip;
    }

    /** `updatePanelContent`: an open panel is rendered again from the current list. */
    method UpdatePanelContent()
      requires Valid()
      modifies this
      ensures Valid()
      ensures open ==> shown == manager.snippets
      ensures !open ==> shown == old(shown)
      ensures manager == old(manager) && open == old(open) && clipboard == old(clipboard)
    {
      if !open {
        return;
      }
      shown := manager.GetAllSnippets();
    }

    /** `showSnippetPanel(manager)`: reveal the panel, or create it, and render it. */
    method ShowSnippetPanel(m: SnippetManager)
      modifies this
      ensures Valid()
      ensures manager == m && open && shown == m.snippets && clipboard == old(clipboard)
    {
      manager := m;
      if open {
        UpdatePanelContent();
        return;
      }
      open := true;
      UpdatePanelContent();
    }

    /** The panel's `onDidDispose` handler. */
    method Dispose()
      modifies this
      ensures Valid()
      ensures !open && manager == old(manager) && shown == old(shown) && clipboard == old(clipboard)
    {
      open := false;
    }

    /** `copySnippetToClipboard(id)` */
    method CopySnippetToClipboard(id: int)
      requires manager != null
      modifies this
      ensures manager == old(manager) && open == old(open) && shown == old(shown)
      ensures clipboard == CopiedText(manager.snippets, id, old(clipboard))
    {
      var all := manager.GetAllSnippets();
      var found := FindById(all, id);
      if found.Some? {
        clipboard := all[found.value].content;
      }
    }

    /** `insertSnippetToEditor(id)`: the snippet's content goes in at the cursor when
        nothing is selected and replaces the selection otherwise; an unknown id or no
        editor does nothing. */
    method InsertSnippetToEditor(id: int, editor: TextEditor?)
      requires manager != null
      requires editor != null ==> editor.Valid()
      modifies editor
      ensures editor != null ==> editor.Valid() && editor.selection == old(editor.selection)
      ensures editor != null && FindById(manager.snippets, id).None? ==> editor.lines == old(editor.lines)
      ensures editor != null && FindById(manager.snippets, id).Some? ==>
        var content := manager.snippets[FindById(manager.snippets, id).value].content;
        && (old(editor.IsEmpty()) ==>
              var k := OffsetAt(old(editor.lines), Validate(old(editor.lines), old(editor.selection.active)));
              editor.Text() == old(editor.Text()[..k]) + content + old(editor.Text()[k..]))
        && (!old(editor.IsEmpty()) ==>
              editor.Text() == Spliced(old(editor.Text()), old(editor.StartOffset()), old(editor.EndOffset()), content))
    {
      var all := manager.GetAllSnippets();
      var found := FindById(all, id);
      if found.None? {
        return;
      }
      var snippet := all[found.value];
      if editor == null {
        return;
      }
      if editor.IsEmpty() {
        var k := OffsetAt(editor.lines, Validate(editor.lines, editor.selection.active));
        editor.Edit(k, k, snippet.content);
      } else {
        editor.Edit(editor.StartOffset(), editor.EndOffset(), snippet.content);
      }
    }

    /** `deleteSnippetById(id)`: delete, then render the panel again. */
    method DeleteSnippetById(id: int)
      requires Valid() && manager != null
      modifies this, manager
      ensures Valid()
      ensures manager == old(manager) && manager.snippets == WithoutId(old(manager.snippets), id)
      ensures manager.saves == old(manager.saves) + 1 && manager.writable == old(manager.writable)
      ensures manager.file == (if manager.writable then Parsed(manager.snippets) else old(manager.file))
      ensures open == old(open) && clipboard == old(clipboard)
      ensures open ==> shown == manager.snippets
      ensures !open ==> shown == old(shown)
    {
      manager.DeleteSnippet(id);
      UpdatePanelContent();
    }

    /** `handlePanelMessage(message)` */
    method HandlePanelMessage(msg: PanelMessage, editor: TextEditor?)
      requires Valid() && manager != null
      requires editor != null ==> editor.Valid()
      modifies this, manager, editor
      ensures Valid() && manager == old(manager) && open == old(open)
      ensures editor != null ==> editor.Valid() && editor.selection == old(editor.selection)
      ensures msg.command != "insert" && editor != null ==> editor.lines == old(editor.lines)
      ensures msg.command != "copy" ==> clipboard == old(clipboard)
      ensures msg.command != "delete" ==> shown == old(shown)
      ensures msg.command != "delete" && msg.command != "update" ==> unchanged(manager)
      ensures msg.command == "copy" ==> clipboard == CopiedText(manager.snippets, msg.id, old(clipboard))
      ensures msg.command == "insert" && editor != null ==>
        var found := FindById(manager.snippets, msg.id);
        && (found.None? ==> editor.lines == old(editor.lines))
        && (found.Some? ==>
              var content := manager.snippets[found.value].content;
              editor.Text() == Spliced(old(editor.Text()), old(editor.StartOffset()), old(editor.EndOffset()), content))
      ensures msg.command == "delete" ==>
        && manager.snippets == WithoutId(old(manager.snippets), msg.id)
        && manager.saves == old(manager.saves) + 1
        && manager.file == (if manager.writable then Parsed(manager.snippets) else old(manager.file))
        && (open ==> shown == manager.snippets)
      ensures msg.command == "update" ==>
        var found := FindById(old(manager.snippets), msg.id).Some?;
        && manager.snippets == Updated(old(manager.snippets), msg.id, msg.content)
        && manager.saves == old(manager.saves) + (if found then 1 else 0)
        && manager.file == (if found && manager.writable then Parsed(manager.snippets) else old(manager.file))
      ensures manager.writable == old(manager.writable)
    {
      if msg.command == "copy" {
        CopySnippetToClipboard(msg.id);
      } else if msg.command == "insert" {
        InsertSnippetToEditor(msg.id, editor);
      } else if msg.command == "delete" {
        DeleteSnippetById(msg.id);
      } else if msg.command == "update" {
        manager.UpdateSnippet(msg.id, msg.content);
      }
    }

    /** The part of `moveToSnippets` past its guards: store the snippet, then delete. */
    static method MoveSelection(g: SnippetManager, editor: TextEditor, text: string, now: int, isoNow: string)
      requires editor.Valid() && text == editor.SelectedText()
      modifies g, editor
      ensures editor.Valid() && editor.selection == old(editor.selection)
      ensures var ls, st, en := old(editor.lines), old(editor.Start()), old(editor.End());
        var r := MoveRange(ls, st, en);
        && g.snippets == old(g.snippets) + [Snippet(now, SnippetName(|old(g.snippets)| + 1), MovedContent(ls, st, en), isoNow)]
        && editor.Text() == Spliced(Join(ls), r.0, r.1, "")
      ensures g.saves == old(g.saves) + 1 && g.writable == old(g.writable)
      ensures g.file == (if g.writable then Parsed(g.snippets) else old(g.file))
    {
      var content, isFullLines := MovedSelection(editor, text);
      var _ := g.AddSnippet(content, now, isoNow);
      DeleteMoved(editor, isFullLines);
    }

    /** The manager the module keeps: the one passed in when it has none yet. */
    method AdoptManager(m: SnippetManager?)
      requires manager != null || m != null
      modifies this
      ensures manager == (if old(manager) == null then m else old(manager)) && manager != null
      ensures open == old(open) && shown == old(shown) && clipboard == old(clipboard)
    {
      if manager == null && m != null {
        manager := m;
      }
    }

    /** `copyToSnippets(manager)`: the selected text becomes a new snippet and the panel
        is shown; no editor or an empty selection adds nothing. */
    method CopyToSnippets(m: SnippetManager?, editor: TextEditor?, now: int, isoNow: string)
      requires manager != null || m != null
      requires editor != null ==> editor.Valid()
      modifies this, manager, m
      ensures manager == (if old(manager) == null then m else old(manager))
      ensures Valid() && clipboard == old(clipboard)
      ensures m != null && m != manager ==> unchanged(m)
      ensures editor == null || editor.SelectedText() == [] ==>
        unchanged(manager) && open == old(open) && shown == old(shown)
      ensures var g := manager;
        editor != null && editor.SelectedText() != [] ==>
          && g.snippets == old(g.snippets) + [Snippet(now, SnippetName(|old(g.snippets)| + 1), editor.SelectedText(), isoNow)]
          && g.saves == old(g.saves) + 1 && g.writable == old(g.writable)
          && g.file == (if g.writable then Parsed(g.snippets) else old(g.file))
          && open && shown == g.snippets
    {
      if manager == null && m != null {
        manager := m;
      }
      if editor == null {
        return;
      }
      var text := editor.SelectedText();
      if text == [] {
        return;
      }
      var _ := manager.AddSnippet(text, now, isoNow);
      ShowSnippetPanel(manager);
    }

    /** The text `moveToSnippets` stores, and whether the selection is full lines. */
    static method MovedSelection(editor: TextEditor, text: string) returns (content: string, isFullLines: bool)
      requires editor.Valid() && text == editor.SelectedText()
      ensures isFullLines == IsFullLines(editor.lines, editor.Start(), editor.End())
      ensures content == MovedContent(editor.lines, editor.Start(), editor.End())
    {
      var startPos, endPos := editor.Start(), editor.End();
      var lastLine := editor.lines[endPos.line];
      isFullLines := startPos.character == 0 && endPos.character == |lastLine|;
      content := text;
      if isFullLines {
        content := content + "\n";
      }
    }

    /** The edit `moveToSnippets` makes: whole lines with their line breaks when the
        selection is full lines, otherwise the selection, are deleted. */
    static method DeleteMoved(editor: TextEditor, isFullLines: bool)
      requires editor.Valid() && isFullLines == IsFullLines(editor.lines, editor.Start(), editor.End())
      modifies editor
      ensures editor.Valid() && editor.selection == old(editor.selection)
      ensures var r := MoveRange(old(editor.lines), old(editor.Start()), old(editor.End()));
        editor.Text() == Spliced(old(editor.Text()), r.0, r.1, "")
    {
      var startPos, endPos := editor.Start(), editor.End();
      ghost var r := MoveRange(editor.lines, startPos, endPos);
      if isFullLines {
        var a := OffsetAt(editor.lines, Position(startPos.line, 0));
        var b := OffsetAt(editor.lines, Validate(editor.lines, Position(Min(endPos.line + 1, |editor.lines|), 0)));
        assert a == r.0 && b == r.1;
        editor.Edit(a, b, "");
      } else {
        editor.Edit(editor.StartOffset(), editor.EndOffset(), "");
      }
    }

    /** `moveToSnippets(manager)`: the selected text becomes a new snippet and is deleted
        from the document; a selection of whole lines is stored with a line break after
        it and deleted with its line breaks. No editor or an empty selection changes
        nothing but the manager. */
    method MoveToSnippets(m: SnippetManager?, editor: TextEditor?, now: int, isoNow: string)
      requires manager != null || m != null
      requires editor != null ==> editor.Valid()
      modifies this, manager, m, editor
      ensures manager == (if old(manager) == null then m else old(manager))
      ensures Valid() && clipboard == old(clipboard)
      ensures editor != null ==> editor.Valid() && editor.selection == old(editor.selection)
      ensures m != null && m != manager ==> unchanged(m)
      ensures editor == null || old(editor.SelectedText()) == [] ==>
        && unchanged(manager) && open == old(open) && shown == old(shown)
        && (editor != null ==> editor.lines == old(editor.lines))
      ensures var g := manager;
        editor != null && old(editor.SelectedText()) != [] ==>
          var ls, st, en := old(editor.lines), old(editor.Start()), old(editor.End());
          var r := MoveRange(ls, st, en);
          && g.snippets == old(g.snippets) + [Snippet(now, SnippetName(|old(g.snippets)| + 1), MovedContent(ls, st, en), isoNow)]
          && editor.Text() == Spliced(Join(ls), r.0, r.1, "")
          && g.saves == old(g.saves) + 1 && g.writable == old(g.writable)
          && g.file == (if g.writable then Parsed(g.snippets) else old(g.file))
          && open && shown == g.snippets
    {
      AdoptManager(m);
      if editor == null {
        return;
      }
      var text := editor.SelectedText();
      if text == [] {
        return;
      }
      var g := manager;
      MoveSelection(g, editor, text, now, isoNow);
      ShowSnippetPanel(g);
    }
  }
}
