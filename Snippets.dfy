/** The snippet library: an ordered list of saved code fragments, persisted as one
    JSON checkpoint and changed by append, delete-by-id and update-content. */
module Snippets {
  import opened Wrappers
  import opened Strings

  /** `id` is the creation time in milliseconds, `created` the same instant as an
      ISO-8601 string. */
  datatype Snippet = Snippet(id: int, name: string, content: string, created: string)

  /** What reading the backing file yields. */
  datatype SnippetFile = Missing | Unparseable | Parsed(snippets: seq<Snippet>)

  /** `loadSnippets`: a missing or unparseable file is an empty list. */
  function Load(f: SnippetFile): (ss: seq<Snippet>)
    ensures f.Parsed? ==> ss == f.snippets
    ensures !f.Parsed? ==> ss == []
  {
    if f.Parsed? then f.snippets else []
  }

  /** The name given to the `n`-th snippet: `Snippet ${n}`. */
  function SnippetName(n: nat): string {
    "Snippet " + DecimalString(n)
  }

  /** The name is "Snippet " followed by the number, which can be read back from it. */
  lemma SnippetNameNumbered(n: nat)
    ensures StartsWith(SnippetName(n), "Snippet ") && DecimalValue(SnippetName(n)[8..]) == n
  {
    DecimalRoundTrip(n);
    assert SnippetName(n)[8..] == DecimalString(n);
  }

  /** Different numbers give different names. */
  lemma SnippetNameInjective(n: nat, k: nat)
    ensures SnippetName(n) == SnippetName(k) ==> n == k
  {
    SnippetNameNumbered(n);
    SnippetNameNumbered(k);
  }

  /** `snippets.filter(s => s.id !== id)` */
  function WithoutId(ss: seq<Snippet>, id: int): (r: seq<Snippet>)
    ensures forall s :: s in r <==> s in ss && s.id != id
    ensures |r| <= |ss|
  {
    if ss == [] then []
    else if ss[0].id != id then [ss[0]] + WithoutId(ss[1..], id)
    else WithoutId(ss[1..], id)
  }

  /** Filtering keeps the order: it distributes over concatenation. */
  lemma {:induction false} WithoutIdConcat(a: seq<Snippet>, b: seq<Snippet>, id: int)
    ensures WithoutId(a + b, id) == WithoutId(a, id) + WithoutId(b, id)
  {
    if a != [] {
      assert (a + b)[0] == a[0];
      assert (a + b)[1..] == a[1..] + b;
      WithoutIdConcat(a[1..], b, id);
    } else {
      assert a + b == b;
    }
  }

  /** Deleting an id that no snippet has leaves the list as it was. */
  lemma {:induction false} WithoutAbsentId(ss: seq<Snippet>, id: int)
    requires forall j :: 0 <= j < |ss| ==> ss[j].id != id
    ensures WithoutId(ss, id) == ss
  {
    if ss != [] {
      WithoutAbsentId(ss[1..], id);
      assert [ss[0]] + ss[1..] == ss;
    }
  }

  /** Deleting twice is deleting once. */
  lemma WithoutIdIdempotent(ss: seq<Snippet>, id: int)
    ensures WithoutId(WithoutId(ss, id), id) == WithoutId(ss, id)
  {
    var r := WithoutId(ss, id);
    forall j | 0 <= j < |r| ensures r[j].id != id {
      assert r[j] in r;
    }
    WithoutAbsentId(r, id);
  }

  /** `snippets.find(s => s.id === id)`, as the index of the first snippet with `id`. */
  function FindById(ss: seq<Snippet>, id: int): (r: Option<nat>)
    ensures r.Some? ==> r.value < |ss| && ss[r.value].id == id
    ensures r.Some? ==> forall j :: 0 <= j < r.value ==> ss[j].id != id
    ensures r.None? ==> forall j :: 0 <= j < |ss| ==> ss[j].id != id
  {
    if ss == [] then None
    else if ss[0].id == id then Some(0)
    else match FindById(ss[1..], id)
      case None => None
      case Some(j) => Some(j + 1)
  }

  /** The list after `updateSnippet(id, content)`. */
  function Updated(ss: seq<Snippet>, id: int, content: string): (r: seq<Snippet>)
    ensures |r| == |ss|
  {
    match FindById(ss, id)
    case None => ss
    case Some(i) => ss[i := ss[i].(content := content)]
  }

  /** Updating changes only the content of the first snippet with `id`: its id, name
      and creation time, and every other snippet, stay as they were. An absent id
      changes nothing. */
  lemma UpdatedSpec(ss: seq<Snippet>, id: int, content: string)
    ensures FindById(ss, id).None? ==> Updated(ss, id, content) == ss
    ensures FindById(ss, id).Some? ==>
      var i := FindById(ss, id).value;
      var r := Updated(ss, id, content);
      && r[i] == Snippet(ss[i].id, ss[i].name, content, ss[i].created)
      && forall j :: 0 <= j < |ss| && j != i ==> r[j] == ss[j]
  {
  }

  class SnippetManager {
    /** `this.snippets` */
    var snippets: seq<Snippet>
    /** The content of the backing file as last written. */
    var file: SnippetFile
    /** Whether the file system currently accepts the write-then-rename of a save. */
    var writable: bool
    /** The number of save attempts so far. */
    ghost var saves: nat

    /** `new SnippetManager()`: load the file. */
    constructor (f: SnippetFile, canWrite: bool)
      ensures snippets == Load(f) && file == f && writable == canWrite && saves == 0
    {
      file := f;
      writable := canWrite;
      saves := 0;
      snippets := [];
      new;
      LoadSnippets();
    }

    /** `loadSnippets` */
    method LoadSnippets()
      modifies this
      ensures snippets == Load(file)
      ensures file == old(file) && writable == old(writable) && saves == old(saves)
    {
      if !file.Parsed? {
        snippets := [];
        return;
      }
      snippets := file.snippets;
    }

    /** `saveSnippets`: the whole list replaces the file, or, when the write fails, the
        file keeps its old content. */
    method SaveSnippets() returns (ok: bool)
      modifies this
      ensures ok == writable
      ensures file == (if ok then Parsed(snippets) else old(file))
      ensures snippets == old(snippets) && writable == old(writable) && saves == old(saves) + 1
    {
      saves := saves + 1;
      if writable {
        file := Parsed(snippets);
        ok := true;
      } else {
        ok := false;
      }
    }

    /** `addSnippet(content)`, with the clock read as `now` (milliseconds) and `isoNow`. */
    method AddSnippet(content: string, now: int, isoNow: string) returns (snippet: Snippet)
      modifies this
      ensures snippet == Snippet(now, SnippetName(|old(snippets)| + 1), content, isoNow)
      ensures snippets == old(snippets) + [snippet]
      ensures saves == old(saves) + 1 && file == (if writable then Parsed(snippets) else old(file))
      ensures writable == old(writable)
    {
      snippet := Snippet(now, SnippetName(|snippets| + 1), content, isoNow);
      snippets := snippets + [snippet];
      var _ := SaveSnippets();
    }

    /** `getAllSnippets` */
    method GetAllSnippets() returns (all: seq<Snippet>)
      ensures all == snippets
    {
      all := snippets;
    }

    /** `deleteSnippet(id)`: always saves. */
    method DeleteSnippet(id: int)
      modifies this
      ensures snippets == WithoutId(old(snippets), id)
      ensures saves == old(saves) + 1 && file == (if writable then Parsed(snippets) else old(file))
      ensures writable == old(writable)
    {
      snippets := WithoutId(snippets, id);
      var _ := SaveSnippets();
    }

    /** `updateSnippet(id, content)`: saves only when the id is found. */
    method UpdateSnippet(id: int, content: string)
      modifies this
      ensures snippets == Updated(old(snippets), id, content)
      ensures var found := FindById(old(snippets), id).Some?;
        && saves == old(saves) + (if found then 1 else 0)
        && file == (if found && writable then Parsed(snippets) else old(file))
      ensures writable == old(writable)
    {
      var found := FindById(snippets, id);
      if found.Some? {
        var i := found.value;
        snippets := snippets[i := snippets[i].(content := content)];
        var _ := SaveSnippets();
      }
    }
  }
}
