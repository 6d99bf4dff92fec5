/** Duplicate line: with no selection, copy the cursor's line below itself and move the
    cursor down onto the copy; with a selection, insert a line break and the selected
    text right after the selection. */
module DuplicateLine {
  import opened TextBuffer

  /** The lines with line `i` repeated right below itself. */
  function LineDuplicated(ls: seq<string>, i: nat): (r: seq<string>)
    requires i < |ls|
    ensures |r| == |ls| + 1 && r[i + 1] == ls[i]
    ensures forall j {:trigger r[j]} :: 0 <= j <= i ==> r[j] == ls[j]
    ensures forall j :: i + 1 < j < |r| ==> r[j] == ls[j - 1]
  {
    ls[..i + 1] + [ls[i]] + ls[i + 1..]
  }

  /** Inserting at the end of a text. */
  lemma SplicedAtEnd(p: string, x: string, e: nat)
    requires e == |p|
    ensures Spliced(p, e, e, x) == p + x
  {
    assert p[|p|..] == [] && p[..|p|] == p;
  }

  /** Inserting right before a line break. */
  lemma SplicedBeforeBreak(t: string, p: string, q: string, x: string, e: nat)
    requires t == p + "\n" + q && e == |p|
    ensures e <= |t| && Spliced(t, e, e, x) == p + x + "\n" + q
  {
    assert t[..|p|] == p && t[|p|..] == "\n" + q;
  }

  lemma DuplicatedValid(ls: seq<string>, i: nat)
    requires ValidLines(ls) && i < |ls|
    ensures ValidLines(LineDuplicated(ls, i))
  {
    var r := LineDuplicated(ls, i);
    forall j | 0 <= j < |r| ensures '\n' !in r[j] {
      if j <= i {
      } else if j == i + 1 {
      } else {
        assert r[j] == ls[j - 1];
      }
    }
  }

  /** The text of the lines with line `i` repeated, when `i` is not the last line. */
  lemma DuplicatedJoin(ls: seq<string>, i: nat)
    requires i + 1 < |ls|
    ensures Join(LineDuplicated(ls, i)) == Join(ls[..i + 1]) + ("\n" + ls[i]) + "\n" + Join(ls[i + 1..])
  {
    var head := ls[..i + 1];
    assert LineDuplicated(ls, i) == (head + [ls[i]]) + ls[i + 1..];
    JoinConcat(head + [ls[i]], ls[i + 1..]);
    JoinConcat(head, [ls[i]]);
  }

  /** The text edit of duplicating line `i`, when `i` is not the last line. */
  lemma DuplicateTextInner(ls: seq<string>, i: nat, e: nat)
    requires i + 1 < |ls| && e == LineStart(ls, i) + |ls[i]|
    ensures e <= |Join(ls)|
    ensures Spliced(Join(ls), e, e, "\n" + ls[i]) == Join(LineDuplicated(ls, i))
  {
    var p, q, x := Join(ls[..i + 1]), Join(ls[i + 1..]), "\n" + ls[i];
    JoinPrefixLength(ls, i);
    JoinSplit(ls, i + 1);
    SplicedBeforeBreak(Join(ls), p, q, x, e);
    DuplicatedJoin(ls, i);
    var u, w := Spliced(Join(ls), e, e, x), Join(LineDuplicated(ls, i));
    assert u == p + x + "\n" + q && w == p + x + "\n" + q;
  }

  /** Appending a line to a non-empty list of lines appends '\n' and that line to the text. */
  lemma JoinAppendLine(ls: seq<string>, x: string)
    requires |ls| >= 1
    ensures Join(ls + [x]) == Join(ls) + ("\n" + x)
  {
    var t := Join(ls);
    JoinConcat(ls, [x]);
    assert Join([x]) == x;
    ConcatAssoc(t, "\n", x);
    var u, w := Join(ls + [x]), t + ("\n" + x);
    assert u == t + "\n" + x && w == t + "\n" + x;
  }

  /** Kept as a lemma so that the associativity step is proved apart from the joins. */
  lemma ConcatAssoc(a: string, b: string, c: string)
    ensures a + b + c == a + (b + c)
  {
  }

  /** Duplicating the last line appends a copy of it. */
  lemma LastLineDuplicated(ls: seq<string>, i: nat)
    requires i + 1 == |ls|
    ensures LineDuplicated(ls, i) == ls + [ls[i]]
  {
    assert ls[..i + 1] == ls && ls[i + 1..] == [];
  }

  /** The text edit of duplicating the last line: it goes at the end of the text. */
  lemma DuplicateTextLast(ls: seq<string>, i: nat, e: nat)
    requires i + 1 == |ls| && e == LineStart(ls, i) + |ls[i]|
    ensures e == |Join(ls)|
    ensures Spliced(Join(ls), e, e, "\n" + ls[i]) == Join(ls + [ls[i]])
  {
    assert ls[..i + 1] == ls;
    JoinPrefixLength(ls, i);
    JoinAppendLine(ls, ls[i]);
    SplicedAtEnd(Join(ls), "\n" + ls[i], e);
  }

  /** Inserting '\n' and line `i` at the end of line `i` repeats that line below itself. */
  lemma DuplicateLineEdit(ls: seq<string>, i: nat, e: nat)
    requires ValidLines(ls) && i < |ls| && e == LineStart(ls, i) + |ls[i]|
    ensures e <= |Join(ls)|
    ensures Lines(Spliced(Join(ls), e, e, "\n" + ls[i])) == LineDuplicated(ls, i)
  {
    var t, x, d := Join(ls), "\n" + ls[i], LineDuplicated(ls, i);
    if i + 1 < |ls| {
      DuplicateTextInner(ls, i, e);
    } else {
      DuplicateTextLast(ls, i, e);
      LastLineDuplicated(ls, i);
    }
    var u := Spliced(t, e, e, x);
    assert u == Join(d);
    DuplicatedValid(ls, i);
    LinesOfJoin(d);
    assert Lines(u) == d;
  }

  /** The text with '\n' and `t[a..b]` inserted at `b`. */
  function SelectionDuplicated(t: string, a: nat, b: nat): (r: string)
    requires a <= b <= |t|
    ensures |r| == |t| + 1 + (b - a)
    ensures r[..b] == t[..b] && r[b] == '\n' && r[b + 1..b + 1 + (b - a)] == t[a..b]
    ensures r[b + 1 + (b - a)..] == t[b..]
  {
    Spliced(t, b, b, "\n" + t[a..b])
  }

  /** `duplicateLine` on the active editor; `accepted` is whether the editor applied
      the edit (the value `editor.edit` resolves to). */
  method DuplicateLine(editor: TextEditor?, accepted: bool)
    requires editor != null ==> editor.Valid()
    modifies editor
    ensures editor != null ==> editor.Valid()
    ensures editor != null && !accepted ==>
      editor.lines == old(editor.lines) && editor.selection == old(editor.selection)
    ensures editor != null && accepted && old(editor.IsEmpty()) ==>
      var p := old(editor.Start());
      && editor.lines == LineDuplicated(old(editor.lines), p.line)
      && editor.selection == Selection(Position(p.line + 1, p.character), Position(p.line + 1, p.character))
    ensures editor != null && accepted && !old(editor.IsEmpty()) ==>
      && editor.Text() == SelectionDuplicated(old(editor.Text()), old(editor.StartOffset()), old(editor.EndOffset()))
      && editor.selection == old(editor.selection)
  {
    if editor == null {
      return;
    }
    if !accepted {
      return;
    }
    if editor.IsEmpty() {
      var active := Validate(editor.lines, editor.selection.active);
      assert active == editor.Start();
      ghost var ls := editor.lines;
      var lineText := editor.lines[active.line];
      var lineEnd := OffsetAt(editor.lines, Position(active.line, |lineText|));
      assert lineEnd == LineStart(ls, active.line) + |ls[active.line]|;
      DuplicateLineEdit(ls, active.line, lineEnd);
      editor.Edit(lineEnd, lineEnd, "\n" + lineText);
      assert editor.lines == LineDuplicated(ls, active.line);
      var newPosition := Position(active.line + 1, active.character);
      editor.selection := Selection(newPosition, newPosition);
    } else {
      var selectedText := editor.SelectedText();
      var selectionEnd := editor.EndOffset();
      editor.Edit(selectionEnd, selectionEnd, "\n" + selectedText);
    }
  }
}
