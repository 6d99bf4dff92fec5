/** Toggle line comments: over the lines a selection touches, either remove the first
    "//" of every line (when every non-blank line already starts with "//") or put
    "// " in front of every line's text. */
module ToggleLineComment {
  import opened Strings
  import opened TextBuffer

  /** A line counts as commented when, after its leading white space, it is empty or
      starts with "//". */
  predicate IsCommented(line: string) {
    var t := TrimStart(line);
    |t| == 0 || StartsWith(t, "//")
  }

  /** Every line from `s` to `e` counts as commented: the toggle then removes comments. */
  predicate AllCommented(ls: seq<string>, s: nat, e: nat)
    requires e < |ls|
  {
    forall i :: s <= i <= e ==> IsCommented(ls[i])
  }

  /** The leading white space of a line. */
  function Indentation(t: string): (r: string)
    ensures AllWhitespace(r) && t == r + TrimStart(t)
  {
    t[..|t| - |TrimStart(t)|]
  }

  /** Remove mode, one line: the first "//" goes, with the space right after it if
      there is one. */
  function UncommentLine(t: string): (r: string)
    ensures '\n' !in t ==> '\n' !in r
  {
    var k := IndexOf(t, "//");
    if k == -1 then t
    else
      var n := if k + 2 < |t| && t[k + 2] == ' ' then 3 else 2;
      assert forall c :: c in t[..k] + t[k + n..] ==> c in t;
      t[..k] + t[k + n..]
  }

  /** Add mode, one line: "// " goes in after the indentation; an empty line becomes
      "// " and a line of white space only is left alone. */
  function CommentLine(t: string): (r: string)
    ensures '\n' !in t ==> '\n' !in r
  {
    var k := FirstNonWhitespace(t);
    if k != -1 then
      assert forall c :: c in t[..k] + "// " + t[k..] ==> c in t || c in "// ";
      t[..k] + "// " + t[k..]
    else if |t| == 0 then "// "
    else t
  }

  function ToggleLine(t: string, remove: bool): (r: string)
    ensures '\n' !in t ==> '\n' !in r
  {
    if remove then UncommentLine(t) else CommentLine(t)
  }

  /** The document after toggling lines `s` to `e`. */
  function Toggled(ls: seq<string>, s: nat, e: nat): (r: seq<string>)
    requires s <= e < |ls|
    ensures |r| == |ls|
  {
    var remove := AllCommented(ls, s, e);
    seq(|ls|, i requires 0 <= i < |ls| => if s <= i <= e then ToggleLine(ls[i], remove) else ls[i])
  }

  /** Only lines `s` to `e` change, all in the same mode, and the number of lines stays. */
  lemma ToggledFrame(ls: seq<string>, s: nat, e: nat)
    requires s <= e < |ls|
    ensures |Toggled(ls, s, e)| == |ls|
    ensures forall i :: 0 <= i < |ls| && !(s <= i <= e) ==> Toggled(ls, s, e)[i] == ls[i]
    ensures forall i :: s <= i <= e ==> Toggled(ls, s, e)[i] == ToggleLine(ls[i], AllCommented(ls, s, e))
    ensures ValidLines(ls) ==> ValidLines(Toggled(ls, s, e))
  {
  }

  /** Cutting `t[k..k + n]` out and putting it back gives `t`. */
  lemma CutAndRestore(t: string, k: nat, n: nat)
    requires k + n <= |t|
    ensures var r := t[..k] + t[k + n..]; k <= |r| && t == r[..k] + t[k..k + n] + r[k..]
  {
    var r := t[..k] + t[k + n..];
    assert r[..k] == t[..k];
    assert r[k..] == t[k + n..];
    assert t == t[..k] + t[k..k + n] + t[k + n..];
  }

  /** Remove mode on one line: the line is the result with "// " or "//" put back at
      the first "//" of the line, and "//" only when no space follows it. A line
      without "//" is unchanged. */
  lemma UncommentLineSpec(t: string)
    ensures IndexOf(t, "//") == -1 ==> UncommentLine(t) == t
    ensures IndexOf(t, "//") != -1 ==>
      var k, r := IndexOf(t, "//"), UncommentLine(t);
      && k <= |r|
      && ((t == r[..k] + "// " + r[k..]) || (t == r[..k] + "//" + r[k..] && !StartsWith(r[k..], " ")))
  {
    var k := IndexOf(t, "//");
    if k != -1 {
      if k + 2 < |t| && t[k + 2] == ' ' {
        UncommentWithSpace(t, k);
      } else {
        UncommentWithoutSpace(t, k);
      }
    }
  }

  lemma UncommentWithSpace(t: string, k: nat)
    requires OccursAt(t, "//", k) && k + 2 < |t| && t[k + 2] == ' '
    ensures var r := t[..k] + t[k + 3..]; k <= |r| && t == r[..k] + "// " + r[k..]
  {
    CutAndRestore(t, k, 3);
    assert t[k..k + 3] == t[k..k + 2] + [t[k + 2]];
  }

  lemma UncommentWithoutSpace(t: string, k: nat)
    requires OccursAt(t, "//", k) && !(k + 2 < |t| && t[k + 2] == ' ')
    ensures var r := t[..k] + t[k + 2..];
      k <= |r| && t == r[..k] + "//" + r[k..] && !StartsWith(r[k..], " ")
  {
    CutAndRestore(t, k, 2);
    var r := t[..k] + t[k + 2..];
    assert r[k..] == t[k + 2..];
  }

  /** Add mode on one line: a line with text keeps its indentation and gets "// " in
      front of its text; an empty line becomes "// "; a non-empty line of white space
      only is unchanged. */
  lemma CommentLineSpec(t: string)
    ensures !AllWhitespace(t) ==>
      CommentLine(t) == Indentation(t) + "// " + TrimStart(t) && TrimStart(t) != []
    ensures t == [] ==> CommentLine(t) == "// "
    ensures t != [] && AllWhitespace(t) ==> CommentLine(t) == t
  {
  }

  /** Where the first non-white-space character of `t[..k] + x` lies, when `t[..k]` is
      white space and `x` starts with a character that is not. */
  lemma FirstNonWhitespaceAfterIndent(c: string, k: nat)
    requires k < |c| && AllWhitespace(c[..k]) && !IsWhitespace(c[k])
    ensures FirstNonWhitespace(c) == k
  {
    var r := FirstNonWhitespace(c);
    assert forall j :: 0 <= j < k ==> c[..k][j] == c[j];
    assert forall j :: 0 <= j < r ==> c[..r][j] == c[j];
  }

  /** The first "//" of `c` is at `k` when `c[..k]` is white space. */
  lemma FirstMarkerAfterIndent(c: string, k: nat)
    requires OccursAt(c, "//", k) && AllWhitespace(c[..k])
    ensures IndexOf(c, "//") == k
  {
    assert Contains(c, "//");
    forall j | 0 <= j < k
      ensures !OccursAt(c, "//", j)
    {
      assert c[..k][j] == c[j];
      assert j + 2 <= |c| ==> c[j..j + 2][0] == c[j];
    }
  }

  /** A line of white space only holds no "//". */
  lemma BlankHasNoMarker(t: string)
    requires AllWhitespace(t)
    ensures !Contains(t, "//") && IsCommented(t)
  {
    forall j | 0 <= j <= |t|
      ensures !OccursAt(t, "//", j)
    {
      if j + 2 <= |t| {
        assert t[j..j + 2][0] == t[j];
      }
    }
  }

  /** The commented form of a line with text lays out as indentation, "// " and text. */
  lemma CommentedLayout(t: string, k: nat)
    requires k < |t|
    ensures var c := t[..k] + "// " + t[k..];
      && k + 3 < |c| && c[..k] == t[..k] && c[k..k + 2] == "//" && c[k + 2] == ' '
      && c[k..][..2] == "//" && c[k + 3..] == t[k..] && c[k + 3] == t[k]
  {
    var c := t[..k] + "// " + t[k..];
    assert c[..k] == t[..k] && c[k..k + 3] == "// " && c[k + 3..] == t[k..];
    assert c[k..][..2] == c[k..k + 3][..2];
  }

  /** A line with text counts as commented once commented. */
  lemma CommentedTextIsCommented(t: string, k: nat)
    requires k < |t| && AllWhitespace(t[..k]) && !IsWhitespace(t[k])
    ensures IsCommented(t[..k] + "// " + t[k..])
  {
    var c := t[..k] + "// " + t[k..];
    CommentedLayout(t, k);
    FirstNonWhitespaceAfterIndent(c, k);
    assert TrimStart(c) == c[k..];
  }

  /** Uncommenting the commented form of a line with text gives the line back. */
  lemma UncommentCommentedText(t: string, k: nat)
    requires k < |t| && AllWhitespace(t[..k])
    ensures UncommentLine(t[..k] + "// " + t[k..]) == t
  {
    var c := t[..k] + "// " + t[k..];
    CommentedLayout(t, k);
    FirstMarkerAfterIndent(c, k);
    var u := c[..k] + c[k + 3..];
    assert UncommentLine(c) == u;
    assert u == t[..k] + t[k..];
    assert t[..k] + t[k..] == t;
  }

  /** Commenting a line and then uncommenting it gives the line back, and a commented
      line counts as commented. */
  lemma CommentThenUncomment(t: string)
    ensures IsCommented(CommentLine(t))
    ensures UncommentLine(CommentLine(t)) == t
  {
    var k := FirstNonWhitespace(t);
    if k != -1 {
      CommentedTextIsCommented(t, k);
      UncommentCommentedText(t, k);
    } else if |t| == 0 {
      FirstNonWhitespaceAfterIndent("// ", 0);
      FirstMarkerAfterIndent("// ", 0);
    } else {
      BlankHasNoMarker(t);
    }
  }

  /** A range of blank or white-space-only lines is left unchanged. */
  lemma BlankRangeUnchanged(ls: seq<string>, s: nat, e: nat)
    requires s <= e < |ls|
    requires forall i :: s <= i <= e ==> AllWhitespace(ls[i])
    ensures AllCommented(ls, s, e)
    ensures Toggled(ls, s, e) == ls
  {
    forall i | s <= i <= e
      ensures IsCommented(ls[i]) && UncommentLine(ls[i]) == ls[i]
    {
      BlankHasNoMarker(ls[i]);
    }
  }

  /** Toggling a range that was toggled in add mode removes exactly what was added. */
  lemma ToggleTwiceRestores(ls: seq<string>, s: nat, e: nat)
    requires s <= e < |ls|
    requires !AllCommented(ls, s, e)
    ensures AllCommented(Toggled(ls, s, e), s, e)
    ensures Toggled(Toggled(ls, s, e), s, e) == ls
  {
    var once := Toggled(ls, s, e);
    forall i | s <= i <= e
      ensures once[i] == CommentLine(ls[i])
      ensures IsCommented(once[i]) && UncommentLine(once[i]) == ls[i]
    {
      CommentThenUncomment(ls[i]);
    }
  }

  /** The test the scan applies to one line: its text after the indentation is empty
      or starts with "//". */
  method CheckLine(line: string) returns (commented: bool)
    ensures commented <==> IsCommented(line)
  {
    var trimmed := TrimStart(line);
    commented := !(|trimmed| > 0 && !StartsWith(trimmed, "//"));
  }

  /** The first loop of `toggleLineComment`: does every line of the range count as
      commented? */
  method ScanAllCommented(ls: seq<string>, s: nat, e: nat) returns (all: bool)
    requires s <= e < |ls|
    ensures all <==> AllCommented(ls, s, e)
  {
    all := true;
    var i := s;
    while i <= e
      invariant s <= i <= e + 1
      invariant all
      invariant forall j :: s <= j < i ==> IsCommented(ls[j])
    {
      var commented := CheckLine(ls[i]);
      if !commented {
        all := false;
        break;
      }
      i := i + 1;
    }
  }

  /** The edit builder's loop: every line from `s` to `e` replaced, in the one mode. */
  method ToggleEach(ls: seq<string>, s: nat, e: nat, remove: bool) returns (r: seq<string>)
    requires s <= e < |ls| && remove == AllCommented(ls, s, e)
    ensures r == Toggled(ls, s, e)
  {
    ToggledFrame(ls, s, e);
    r := ls;
    var i := s;
    while i <= e
      invariant s <= i <= e + 1 && |r| == |ls|
      invariant forall j :: 0 <= j < |ls| ==> r[j] == if s <= j < i then ToggleLine(ls[j], remove) else ls[j]
    {
      r := r[i := ToggleLine(ls[i], remove)];
      i := i + 1;
    }
    assert forall j :: 0 <= j < |ls| ==> r[j] == Toggled(ls, s, e)[j];
  }

  /** `toggleLineComment` on the active editor, over the lines from the selection's
      start line to its end line. */
  method ToggleLineComment(editor: TextEditor?)
    requires editor != null ==> editor.Valid()
    modifies editor
    ensures editor != null ==>
      && editor.Valid()
      && editor.lines == Toggled(old(editor.lines), old(editor.Start().line), old(editor.End().line))
      && editor.selection == old(editor.selection)
  {
    if editor == null {
      return;
    }
    var startLine := editor.Start().line;
    var endLine := editor.End().line;
    var orig := editor.lines;
    var allCommented := ScanAllCommented(orig, startLine, endLine);
    var lines := ToggleEach(orig, startLine, endLine, allCommented);
    ToggledFrame(orig, startLine, endLine);
    editor.lines := lines;
  }
}
