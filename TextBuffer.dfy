/** The part of the editor API the features use: a document seen both as a list of
    lines and as one text with '\n' between them, positions (line, character),
    selections, and a single-range edit. */
module TextBuffer {
  import opened Strings

  datatype Position = Position(line: nat, character: nat)

  /** A selection runs from `anchor` to `active` (the cursor); either may come first. */
  datatype Selection = Selection(anchor: Position, active: Position)

  /** `p.isBeforeOrEqual(q)` */
  predicate BeforeOrEqual(p: Position, q: Position) {
    p.line < q.line || (p.line == q.line && p.character <= q.character)
  }

  /** A document has at least one line and no line holds a line break. */
  predicate ValidLines(ls: seq<string>) {
    |ls| >= 1 && forall i :: 0 <= i < |ls| ==> '\n' !in ls[i]
  }

  /** Splits a text into its lines at each '\n'. */
  function Lines(t: string): (r: seq<string>)
    ensures ValidLines(r)
  {
    if t == [] then [""]
    else if t[0] == '\n' then [""] + Lines(t[1..])
    else
      var rest := Lines(t[1..]);
      assert '\n' !in [t[0]] + rest[0];
      [[t[0]] + rest[0]] + rest[1..]
  }

  /** The text of a list of lines: the lines with '\n' between them. */
  function Join(ls: seq<string>): (t: string)
    ensures |ls| == 1 ==> t == ls[0]
  {
    if |ls| == 0 then ""
    else if |ls| == 1 then ls[0]
    else ls[0] + "\n" + Join(ls[1..])
  }

  lemma {:induction false} JoinConcat(a: seq<string>, b: seq<string>)
    requires |a| >= 1 && |b| >= 1
    ensures Join(a + b) == Join(a) + "\n" + Join(b)
  {
    if |a| == 1 {
      assert (a + b)[1..] == b;
    } else {
      assert (a + b)[1..] == a[1..] + b;
      JoinConcat(a[1..], b);
    }
  }

  /** The first character of a text either starts a new line or joins the first line. */
  function ConsLine(c: char, rest: seq<string>): seq<string>
    requires |rest| >= 1
  {
    if c == '\n' then [""] + rest else [[c] + rest[0]] + rest[1..]
  }

  lemma LinesCons(c: char, t: string)
    ensures Lines([c] + t) == ConsLine(c, Lines(t))
  {
    assert ([c] + t)[0] == c && ([c] + t)[1..] == t;
  }

  lemma ConsLineAppend(c: char, la: seq<string>, lb: seq<string>)
    requires |la| >= 1
    ensures ConsLine(c, la + lb) == ConsLine(c, la) + lb
  {
    var rest := la + lb;
    assert rest[0] == la[0] && rest[1..] == la[1..] + lb;
  }

  lemma {:induction false} LinesAppend(a: string, b: string)
    ensures Lines(a + "\n" + b) == Lines(a) + Lines(b)
  {
    if a == [] {
      assert a + "\n" + b == ['\n'] + b;
      LinesCons('\n', b);
    } else {
      var c, t := a[0], a[1..];
      assert a == [c] + t;
      assert a + "\n" + b == [c] + (t + "\n" + b);
      LinesAppend(t, b);
      LinesCons(c, t);
      LinesCons(c, t + "\n" + b);
      ConsLineAppend(c, Lines(t), Lines(b));
    }
  }

  lemma {:induction false} LinesNoBreak(s: string)
    requires '\n' !in s
    ensures Lines(s) == [s]
  {
    if s != [] {
      assert '\n' !in s[1..];
      LinesNoBreak(s[1..]);
      assert [s[0]] + s[1..] == s;
    }
  }

  /** Splitting the text of well-formed lines gives those lines back. */
  lemma {:induction false} LinesOfJoin(ls: seq<string>)
    requires ValidLines(ls)
    ensures Lines(Join(ls)) == ls
  {
    LinesNoBreak(ls[0]);
    if |ls| > 1 {
      assert ValidLines(ls[1..]);
      LinesOfJoin(ls[1..]);
      LinesAppend(ls[0], Join(ls[1..]));
      assert [ls[0]] + ls[1..] == ls;
    }
  }

  /** Joining the lines of a text gives that text back. */
  lemma {:induction false} JoinOfLines(t: string)
    ensures Join(Lines(t)) == t
  {
    if t != [] {
      var rest := Lines(t[1..]);
      JoinOfLines(t[1..]);
      if t[0] == '\n' {
        assert ([""] + rest)[1..] == rest;
        assert t == "\n" + t[1..];
      } else {
        var r := [[t[0]] + rest[0]] + rest[1..];
        if |rest| > 1 {
          assert r[1..] == rest[1..];
        }
        assert t == [t[0]] + t[1..];
      }
    }
  }

  /** The offset in the text at which line `l` begins. */
  function LineStart(ls: seq<string>, l: nat): nat
    requires l <= |ls|
  {
    if l == 0 then 0 else LineStart(ls, l - 1) + |ls[l - 1]| + 1
  }

  lemma {:induction false} JoinPrefixLength(ls: seq<string>, l: nat)
    requires l < |ls|
    ensures |Join(ls[..l + 1])| == LineStart(ls, l) + |ls[l]|
  {
    if l > 0 {
      JoinPrefixLength(ls, l - 1);
      assert ls[..l + 1] == ls[..l] + [ls[l]];
      JoinConcat(ls[..l], [ls[l]]);
    }
  }

  /** The text falls apart at the line break in front of line `l`. */
  lemma JoinSplit(ls: seq<string>, l: nat)
    requires 0 < l < |ls|
    ensures Join(ls) == Join(ls[..l]) + "\n" + Join(ls[l..])
    ensures LineStart(ls, l) == |Join(ls[..l])| + 1
  {
    assert ls == ls[..l] + ls[l..];
    JoinConcat(ls[..l], ls[l..]);
    JoinPrefixLength(ls, l - 1);
  }

  /** Line `l` lies inside the text, followed by '\n' unless it is the last. */
  lemma LineInText(ls: seq<string>, l: nat)
    requires l < |ls|
    ensures LineStart(ls, l) + |ls[l]| <= |Join(ls)|
    ensures l + 1 == |ls| ==> LineStart(ls, l) + |ls[l]| == |Join(ls)|
  {
    JoinPrefixLength(ls, l);
    if l + 1 < |ls| {
      JoinSplit(ls, l + 1);
      assert |Join(ls)| == |Join(ls[..l + 1])| + 1 + |Join(ls[l + 1..])|;
    } else {
      assert ls[..l + 1] == ls;
    }
  }

  lemma {:induction false} LineStartMonotone(ls: seq<string>, a: nat, b: nat)
    requires a < b <= |ls|
    ensures LineStart(ls, a) + |ls[a]| < LineStart(ls, b)
  {
    if a + 1 < b {
      LineStartMonotone(ls, a, b - 1);
    }
  }

  predicate ValidPosition(ls: seq<string>, p: Position) {
    p.line < |ls| && p.character <= |ls[p.line]|
  }

  /** `document.validatePosition(p)`: a line past the end means the end of the
      document, a character past the end of its line means the end of that line. */
  function Validate(ls: seq<string>, p: Position): (q: Position)
    requires |ls| >= 1
    ensures ValidPosition(ls, q)
    ensures ValidPosition(ls, p) ==> q == p
  {
    if p.line >= |ls| then Position(|ls| - 1, |ls[|ls| - 1]|)
    else Position(p.line, Min(p.character, |ls[p.line]|))
  }

  /** `document.offsetAt(p)` for a valid position. */
  function OffsetAt(ls: seq<string>, p: Position): (k: nat)
    requires ValidPosition(ls, p)
    ensures k <= |Join(ls)|
  {
    LineInText(ls, p.line);
    LineStart(ls, p.line) + p.character
  }

  /** Offsets grow with positions. */
  lemma OffsetMonotone(ls: seq<string>, p: Position, q: Position)
    requires ValidPosition(ls, p) && ValidPosition(ls, q) && BeforeOrEqual(p, q)
    ensures OffsetAt(ls, p) <= OffsetAt(ls, q)
    ensures p != q ==> OffsetAt(ls, p) < OffsetAt(ls, q)
  {
    if p.line < q.line {
      LineStartMonotone(ls, p.line, q.line);
    }
  }

  /** The text with `t[a..b]` replaced by `s`. */
  function Spliced(t: string, a: nat, b: nat, s: string): (r: string)
    requires a <= b <= |t|
    ensures |r| == |t| - (b - a) + |s|
    ensures r[..a] == t[..a] && r[a..a + |s|] == s && r[a + |s|..] == t[b..]
  {
    t[..a] + s + t[b..]
  }

  /** An editor: its document's lines and its (primary) selection. */
  class TextEditor {
    var lines: seq<string>
    var selection: Selection

    ghost predicate Valid()
      reads this
    {
      ValidLines(lines)
    }

    /** `document.getText()` */
    function Text(): string
      reads this
    {
      Join(lines)
    }

    /** `selection.start`, validated against the document. */
    function Start(): (p: Position)
      reads this
      requires Valid()
      ensures ValidPosition(lines, p) && BeforeOrEqual(p, End())
    {
      var a := Validate(lines, selection.anchor);
      var b := Validate(lines, selection.active);
      if BeforeOrEqual(a, b) then a else b
    }

    /** `selection.end`, validated against the document. */
    function End(): (p: Position)
      reads this
      requires Valid()
      ensures ValidPosition(lines, p)
    {
      var a := Validate(lines, selection.anchor);
      var b := Validate(lines, selection.active);
      if BeforeOrEqual(a, b) then b else a
    }

    /** `selection.isEmpty` */
    predicate IsEmpty()
      reads this
      requires Valid()
    {
      Start() == End()
    }

    /** The offsets of the selection's start and end in the text. */
    function StartOffset(): nat
      reads this
      requires Valid()
    {
      OffsetAt(lines, Start())
    }

    function EndOffset(): (k: nat)
      reads this
      requires Valid()
      ensures StartOffset() <= k <= |Text()|
      ensures k == StartOffset() <==> IsEmpty()
    {
      OffsetMonotone(lines, Start(), End());
      OffsetAt(lines, End())
    }

    /** `document.getText(selection)` */
    function SelectedText(): (s: string)
      reads this
      requires Valid()
      ensures s == [] <==> IsEmpty()
    {
      Text()[StartOffset()..EndOffset()]
    }

    /** One replace edit on the document: `t[a..b]` becomes `s`. The selection is
        left where it was. */
    method Edit(a: nat, b: nat, s: string)
      requires Valid() && a <= b <= |Text()|
      modifies this
      ensures Valid()
      ensures Text() == Spliced(old(Text()), a, b, s)
      ensures lines == Lines(Spliced(old(Text()), a, b, s))
      ensures selection == old(selection)
    {
      var t := Spliced(Text(), a, b, s);
      lines := Lines(t);
      JoinOfLines(t);
    }
  }
}
