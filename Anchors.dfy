/** The anchor store: named line bookmarks kept per document URI, persisted as one
    JSON checkpoint, with a cleanup pass for vanished files and a migration step
    from unsaved-sketch URIs to saved ones. */
module Anchors {
  import opened Wrappers
  import opened Strings

  /** The substring that marks the URI of a sketch the IDE has not saved yet. */
  const UnsavedMarker := ".arduinoIDE-unsaved"
  /** The number of characters of the trimmed line kept as a preview. */
  const PreviewLength: nat := 50
  /** The button of the unsaved-sketch warning that lets the user go on. */
  const SetAnyway := "Set Anyway"

  datatype Anchor = Anchor(name: string, line: nat, preview: string)

  type Store = map<string, seq<Anchor>>

  /** What reading the backing file yields: no file, a file that does not parse, or a
      parsed mapping. */
  datatype StoredFile = Missing | Unparseable | Parsed(store: Store)

  /** The active editor as the store sees it: its document URI, the cursor's line and
      that line's text. */
  datatype ActiveLine = ActiveLine(uri: string, line: nat, text: string)

  /** A visible editor: its document URI and file system path. */
  datatype VisibleEditor = VisibleEditor(uri: string, fileName: string)

  predicate IsTemp(uri: string) {
    Contains(uri, UnsavedMarker)
  }

  /** The stated invariant of the store: no URI keeps an empty list. */
  predicate NoEmptyLists(m: Store) {
    forall k :: k in m ==> |m[k]| > 0
  }

  /** `loadAnchors`: a missing or unparseable file is an empty store. */
  function Load(f: StoredFile): (m: Store)
    ensures f.Parsed? ==> m == f.store
    ensures !f.Parsed? ==> m == map[]
  {
    if f.Parsed? then f.store else map[]
  }

  /** The list kept for `uri`, empty when there is none (`this.anchors[uri] || []`). */
  function Lookup(m: Store, uri: string): (r: seq<Anchor>)
    ensures uri in m ==> r == m[uri]
    ensures uri !in m ==> r == []
  {
    if uri in m then m[uri] else []
  }

  /** The anchor created for a line: its preview is at most the first 50 characters of
      the trimmed line text. */
  function NewAnchor(name: string, line: nat, lineText: string): (a: Anchor)
    ensures a.name == name && a.line == line
    ensures |a.preview| <= PreviewLength && StartsWith(Trim(lineText), a.preview)
    ensures |Trim(lineText)| <= PreviewLength ==> a.preview == Trim(lineText)
    ensures |Trim(lineText)| > PreviewLength ==> |a.preview| == PreviewLength
  {
    Anchor(name, line, Prefix(Trim(lineText), PreviewLength))
  }

  /** Whether `addAnchor` gets as far as creating an anchor: there is an active editor,
      an unsaved sketch was confirmed with "Set Anyway", and a non-empty name was entered. */
  predicate AddAccepted(active: Option<ActiveLine>, choice: Option<string>, input: Option<string>) {
    && active.Some?
    && (IsTemp(active.value.uri) ==> choice == Some(SetAnyway))
    && input.Some? && input.value != ""
  }

  /** The store after appending `a` to the list of `uri`. */
  function Added(m: Store, uri: string, a: Anchor): (r: Store)
    ensures r.Keys == m.Keys + {uri}
  {
    m[uri := Lookup(m, uri) + [a]]
  }

  /** Appending puts `a` last in the list of `uri`, creating the list when absent, and
      changes no other key. */
  lemma AddedSpec(m: Store, uri: string, a: Anchor)
    ensures Lookup(Added(m, uri, a), uri) == Lookup(m, uri) + [a]
    ensures forall k :: k != uri ==> Lookup(Added(m, uri, a), k) == Lookup(m, k)
    ensures NoEmptyLists(m) ==> NoEmptyLists(Added(m, uri, a))
  {
  }

  /** A second update of the same key overrides the first. Kept as a lemma so that the
      map equality is proved apart from the manager's frame. */
  lemma UpdateTwice(m: Store, k: string, x: seq<Anchor>, y: seq<Anchor>)
    ensures m[k := x][k := y] == m[k := y]
  {
  }

  /** `s.splice(i, 1)` */
  function RemoveAt(s: seq<Anchor>, i: nat): (r: seq<Anchor>)
    requires i < |s|
    ensures |r| == |s| - 1
    ensures forall j :: 0 <= j < i ==> r[j] == s[j]
    ensures forall j :: i <= j < |r| ==> r[j] == s[j + 1]
    ensures multiset(r) + multiset{s[i]} == multiset(s)
  {
    assert s == s[..i] + [s[i]] + s[i + 1..];
    s[..i] + s[i + 1..]
  }

  /** Whether `deleteAnchor(uri, index)` finds an anchor to delete. */
  predicate DeleteInRange(m: Store, uri: string, index: int) {
    uri in m && 0 <= index < |m[uri]|
  }

  /** The store after `deleteAnchor(uri, index)`. */
  function Deleted(m: Store, uri: string, index: int): (r: Store)
  {
    if !DeleteInRange(m, uri, index) then m
    else
      var rest := RemoveAt(m[uri], index);
      if rest == [] then m - {uri} else m[uri := rest]
  }

  /** Deleting a valid index removes exactly that anchor, drops the key when its list
      becomes empty, and changes no other key; an invalid request changes nothing. */
  lemma DeletedSpec(m: Store, uri: string, index: int)
    ensures !DeleteInRange(m, uri, index) ==> Deleted(m, uri, index) == m
    ensures DeleteInRange(m, uri, index) ==>
      Lookup(Deleted(m, uri, index), uri) == RemoveAt(m[uri], index)
    ensures DeleteInRange(m, uri, index) ==>
      (uri in Deleted(m, uri, index) <==> |m[uri]| > 1)
    ensures forall k :: k != uri ==> Lookup(Deleted(m, uri, index), k) == Lookup(m, k)
    ensures NoEmptyLists(m) ==> NoEmptyLists(Deleted(m, uri, index))
  {
  }

  /** Deleting the only anchor of a document forgets the document. */
  lemma DeleteLastAnchor(m: Store, uri: string)
    requires uri in m && |m[uri]| == 1
    ensures uri !in Deleted(m, uri, 0) && Lookup(Deleted(m, uri, 0), uri) == []
    ensures Deleted(m, uri, 0).Keys == m.Keys - {uri}
  {
  }

  /** The store after `cleanupAnchors`: only keys that parse as a URI and whose file
      exists are kept. */
  function Cleaned(m: Store, parses: string -> bool, exists_: string -> bool): (r: Store)
    ensures r.Keys <= m.Keys
    ensures forall k :: k in r ==> r[k] == m[k]
  {
    map k | k in m && parses(k) && exists_(k) :: m[k]
  }

  /** Cleanup keeps exactly the keys that pass both checks, untouched; a second run
      with the same checks removes nothing. */
  lemma CleanedSpec(m: Store, parses: string -> bool, exists_: string -> bool)
    ensures forall k :: k in Cleaned(m, parses, exists_) <==> k in m && parses(k) && exists_(k)
    ensures Cleaned(Cleaned(m, parses, exists_), parses, exists_) == Cleaned(m, parses, exists_)
    ensures NoEmptyLists(m) ==> NoEmptyLists(Cleaned(m, parses, exists_))
  {
  }

  /** `Object.keys(m).filter(uri => uri.includes(marker))`, in the given key order. */
  function TempUris(order: seq<string>): (r: seq<string>)
    ensures forall u :: u in r <==> u in order && IsTemp(u)
    ensures |r| <= |order|
  {
    if order == [] then []
    else if IsTemp(order[0]) then [order[0]] + TempUris(order[1..])
    else TempUris(order[1..])
  }

  /** The filter keeps the keys in their enumeration order: filtering a concatenation
      filters each part. */
  lemma {:induction false} TempUrisConcat(a: seq<string>, b: seq<string>)
    ensures TempUris(a + b) == TempUris(a) + TempUris(b)
  {
    if a == [] {
      assert a + b == b;
    } else {
      assert (a + b)[0] == a[0];
      assert (a + b)[1..] == a[1..] + b;
      TempUrisConcat(a[1..], b);
    }
  }

  /** Editor `e` may take over the anchors of temp URI `t`: `e` is a saved document and
      its file name occurs in `t`. */
  predicate Matches(e: VisibleEditor, t: string, basename: string -> string) {
    !IsTemp(e.uri) && Contains(t, basename(e.fileName))
  }

  /** The first temp URI, from index `j` on, that editor `e` matches. */
  function FirstTempFrom(e: VisibleEditor, temps: seq<string>, basename: string -> string, j: nat): (r: Option<nat>)
    requires j <= |temps|
    ensures r.Some? ==> j <= r.value < |temps| && Matches(e, temps[r.value], basename)
    ensures r.Some? ==> forall y :: j <= y < r.value ==> !Matches(e, temps[y], basename)
    ensures r.None? ==> forall y :: j <= y < |temps| ==> !Matches(e, temps[y], basename)
    decreases |temps| - j
  {
    if j == |temps| then None
    else if Matches(e, temps[j], basename) then Some(j)
    else FirstTempFrom(e, temps, basename, j + 1)
  }

  /** The first (editor, temp URI) pair, editors taken in order and temp URIs in order
      for each editor, from editor `i` on. */
  function FirstMatchFrom(editors: seq<VisibleEditor>, temps: seq<string>, basename: string -> string, i: nat): (r: Option<(nat, nat)>)
    requires i <= |editors|
    ensures r.Some? ==>
      (i <= r.value.0 < |editors| && r.value.1 < |temps| && Matches(editors[r.value.0], temps[r.value.1], basename))
    ensures r.Some? ==>
      forall x, y :: (i <= x < |editors| && 0 <= y < |temps| && (x < r.value.0 || (x == r.value.0 && y < r.value.1)))
        ==> !Matches(editors[x], temps[y], basename)
    ensures r.None? ==> forall x, y :: i <= x < |editors| && 0 <= y < |temps| ==> !Matches(editors[x], temps[y], basename)
    decreases |editors| - i
  {
    if i == |editors| then None
    else match FirstTempFrom(editors[i], temps, basename, 0)
      case Some(j) => Some((i, j))
      case None => FirstMatchFrom(editors, temps, basename, i + 1)
  }

  function FirstMatch(editors: seq<VisibleEditor>, temps: seq<string>, basename: string -> string): (r: Option<(nat, nat)>)
    ensures r.Some? ==> r.value.0 < |editors| && r.value.1 < |temps|
  {
    FirstMatchFrom(editors, temps, basename, 0)
  }

  /** A matching pair with no matching pair before it is the first match. */
  lemma FirstMatchIs(editors: seq<VisibleEditor>, temps: seq<string>, basename: string -> string, i: nat, j: nat)
    requires i < |editors| && j < |temps| && Matches(editors[i], temps[j], basename)
    requires forall x, y :: 0 <= x < i && 0 <= y < |temps| ==> !Matches(editors[x], temps[y], basename)
    requires forall y :: 0 <= y < j ==> !Matches(editors[i], temps[y], basename)
    ensures FirstMatch(editors, temps, basename) == Some((i, j))
  {
  }

  /** The store after one `checkAndMigrateTempAnchors` step. */
  function Migrated(m: Store, editors: seq<VisibleEditor>, temps: seq<string>, basename: string -> string): (r: Store)
    requires forall t :: t in temps ==> t in m
  {
    match FirstMatch(editors, temps, basename)
    case None => m
    case Some((i, j)) => m[editors[i].uri := m[temps[j]]] - {temps[j]}
  }

  /** Migration moves at most one list, from the first matching temp URI to the
      editor's URI, replacing what that URI held; every other key is unchanged and the
      store never gains a key. */
  lemma MigratedSpec(m: Store, editors: seq<VisibleEditor>, temps: seq<string>, basename: string -> string)
    requires forall t :: t in temps ==> t in m && IsTemp(t)
    ensures FirstMatch(editors, temps, basename).None? ==> Migrated(m, editors, temps, basename) == m
    ensures FirstMatch(editors, temps, basename).Some? ==>
      var (i, j) := FirstMatch(editors, temps, basename).value;
      var r := Migrated(m, editors, temps, basename);
      && temps[j] !in r && editors[i].uri in r && r[editors[i].uri] == m[temps[j]]
      && r.Keys == m.Keys - {temps[j]} + {editors[i].uri}
      && forall k :: k != temps[j] && k != editors[i].uri ==> Lookup(r, k) == Lookup(m, k)
    ensures |Migrated(m, editors, temps, basename).Keys| <= |m.Keys|
    ensures NoEmptyLists(m) ==> NoEmptyLists(Migrated(m, editors, temps, basename))
  {
    match FirstMatch(editors, temps, basename)
    case None =>
    case Some((i, j)) =>
      var u, t := editors[i].uri, temps[j];
      assert IsTemp(t) && !IsTemp(u);
      assert u != t;
      var r := Migrated(m, editors, temps, basename);
      assert r.Keys == (m.Keys - {t}) + {u};
      assert |m.Keys - {t}| == |m.Keys| - 1;
  }

  /** Without any unsaved-sketch key there is nothing to migrate. */
  lemma NoTempNoMigration(m: Store, order: seq<string>, editors: seq<VisibleEditor>, basename: string -> string)
    requires forall k :: k in order <==> k in m
    requires forall k :: k in m ==> !IsTemp(k)
    ensures Migrated(m, editors, TempUris(order), basename) == m
  {
    assert TempUris(order) == [] by {
      if TempUris(order) != [] {
        assert TempUris(order)[0] in TempUris(order);
      }
    }
  }

  class AnchorManager {
    /** `this.anchors` */
    var anchors: Store
    /** The content of the backing file as last written. */
    var file: StoredFile
    /** Whether the file system currently accepts the write-then-rename of a save. */
    var writable: bool
    /** The number of save attempts so far. */
    ghost var saves: nat

    /** `new AnchorManager()`: load the file, then clean up. */
    constructor (f: StoredFile, canWrite: bool, parses: string -> bool, exists_: string -> bool)
      ensures anchors == Cleaned(Load(f), parses, exists_) && writable == canWrite
      ensures saves == (if anchors == Load(f) then 0 else 1)
      ensures file == (if saves == 1 && canWrite then Parsed(anchors) else f)
    {
      anchors := map[];
      file := f;
      writable := canWrite;
      saves := 0;
      new;
      LoadAnchors();
      CleanupAnchors(parses, exists_);
    }

    /** `loadAnchors` */
    method LoadAnchors()
      modifies this
      ensures anchors == Load(file)
      ensures file == old(file) && writable == old(writable) && saves == old(saves)
    {
      if !file.Parsed? {
        anchors := map[];
        return;
      }
      anchors := file.store;
    }

    /** `saveAnchors`: the whole store replaces the file, or, when the write fails, the
        file keeps its old content. */
    method SaveAnchors() returns (ok: bool)
      modifies this
      ensures ok == writable
      ensures file == (if ok then Parsed(anchors) else old(file))
      ensures anchors == old(anchors) && writable == old(writable) && saves == old(saves) + 1
    {
      saves := saves + 1;
      if writable {
        file := Parsed(anchors);
        ok := true;
      } else {
        ok := false;
      }
    }

    /** `getAnchorsForCurrentFile`: the list of the active document, or none. */
    function AnchorsForCurrentFile(activeUri: Option<string>): (r: seq<Anchor>)
      reads this
      ensures activeUri.None? ==> r == []
      ensures activeUri.Some? ==> r == Lookup(anchors, activeUri.value)
    {
      if activeUri.None? then [] else Lookup(anchors, activeUri.value)
    }

    /** `addAnchor`, given what the editor and the dialogs returned: the active line, the
        button chosen in the unsaved-sketch warning and the name entered. */
    method AddAnchor(active: Option<ActiveLine>, choice: Option<string>, input: Option<string>)
      modifies this
      ensures !AddAccepted(active, choice, input) ==>
        anchors == old(anchors) && file == old(file) && saves == old(saves)
      ensures AddAccepted(active, choice, input) ==>
        && anchors == Added(old(anchors), active.value.uri,
                            NewAnchor(input.value, active.value.line, active.value.text))
        && saves == old(saves) + 1
        && file == (if writable then Parsed(anchors) else old(file))
      ensures writable == old(writable)
    {
      if active.None? {
        return;
      }
      var fileUri := active.value.uri;
      if IsTemp(fileUri) {
        if choice != Some(SetAnyway) {
          return;
        }
      }
      var line := active.value.line;
      var lineText := Trim(active.value.text);
      if input.None? || input.value == "" {
        return;
      }
      var name := input.value;
      var anchor := Anchor(name, line, Prefix(lineText, PreviewLength));
      assert AddAccepted(active, choice, input);
      assert anchor == NewAnchor(input.value, active.value.line, active.value.text);
      ghost var before := anchors;
      if fileUri !in anchors {
        anchors := anchors[fileUri := []];
      }
      anchors := anchors[fileUri := anchors[fileUri] + [anchor]];
      if fileUri !in before {
        UpdateTwice(before, fileUri, [], [] + [anchor]);
      }
      assert anchors == before[fileUri := Lookup(before, fileUri) + [anchor]];
      var _ := SaveAnchors();
    }

    /** `deleteAnchor(uri, index)`: saves only when there was an anchor to delete. */
    method DeleteAnchor(uri: string, index: int)
      modifies this
      ensures anchors == Deleted(old(anchors), uri, index)
      ensures saves == old(saves) + (if DeleteInRange(old(anchors), uri, index) then 1 else 0)
      ensures file == (if DeleteInRange(old(anchors), uri, index) && writable then Parsed(anchors) else old(file))
      ensures writable == old(writable)
    {
      if uri in anchors && 0 <= index < |anchors[uri]| {
        anchors := anchors[uri := RemoveAt(anchors[uri], index)];
        if |anchors[uri]| == 0 {
          anchors := anchors - {uri};
        }
        var _ := SaveAnchors();
      }
    }

    /** `cleanupAnchors`: drops every key that does not parse as a URI or whose file
        does not exist, then saves once if anything was dropped. */
    method CleanupAnchors(parses: string -> bool, exists_: string -> bool)
      modifies this
      ensures anchors == Cleaned(old(anchors), parses, exists_)
      ensures saves == old(saves) + (if anchors == old(anchors) then 0 else 1)
      ensures file == (if anchors != old(anchors) && writable then Parsed(anchors) else old(file))
      ensures writable == old(writable)
    {
      var cleaned := false;
      var todo := anchors.Keys;
      ghost var start := anchors;
      while todo != {}
        invariant todo <= start.Keys
        invariant forall k :: k in anchors <==> k in start && (k in todo || (parses(k) && exists_(k)))
        invariant forall k :: k in anchors ==> anchors[k] == start[k]
        invariant cleaned <==> exists k :: k in start && k !in anchors
        invariant file == old(file) && writable == old(writable) && saves == old(saves)
        decreases todo
      {
        var fileUri :| fileUri in todo;
        if !parses(fileUri) {
          // Uri.parse throws: the key is dropped.
          anchors := anchors - {fileUri};
          cleaned := true;
        } else if !exists_(fileUri) {
          anchors := anchors - {fileUri};
          cleaned := true;
        }
        todo := todo - {fileUri};
      }
      assert anchors == Cleaned(start, parses, exists_);
      assert cleaned <==> anchors != start;
      if cleaned {
        var _ := SaveAnchors();
      }
    }

    /** `checkAndMigrateTempAnchors`, one timer tick. `keyOrder` is the enumeration
        order of the store's keys (`Object.keys`), `editors` the visible editors in
        order and `basename` the file-name part of a path. */
    method CheckAndMigrateTempAnchors(keyOrder: seq<string>, editors: seq<VisibleEditor>, basename: string -> string)
      requires forall k :: k in keyOrder <==> k in anchors
      modifies this
      ensures anchors == Migrated(old(anchors), editors, TempUris(keyOrder), basename)
      ensures var moved := FirstMatch(editors, TempUris(keyOrder), basename).Some?;
        && saves == old(saves) + (if moved then 1 else 0)
        && file == (if moved && writable then Parsed(anchors) else old(file))
      ensures writable == old(writable)
    {
      var tempUris := TempUris(keyOrder);
      if |tempUris| == 0 {
        return;
      }
      var i := 0;
      while i < |editors|
        invariant 0 <= i <= |editors|
        invariant forall x, y :: 0 <= x < i && 0 <= y < |tempUris| ==> !Matches(editors[x], tempUris[y], basename)
        invariant anchors == old(anchors) && file == old(file) && saves == old(saves)
      {
        var currentUri := editors[i].uri;
        if IsTemp(currentUri) {
          i := i + 1;
          continue;
        }
        var currentFileName := basename(editors[i].fileName);
        var j := 0;
        while j < |tempUris|
          invariant 0 <= j <= |tempUris|
          invariant forall y :: 0 <= y < j ==> !Matches(editors[i], tempUris[y], basename)
          invariant anchors == old(anchors) && file == old(file) && saves == old(saves)
        {
          var tempUri := tempUris[j];
          if Contains(tempUri, currentFileName) {
            FirstMatchIs(editors, tempUris, basename, i, j);
            anchors := anchors[currentUri := anchors[tempUri]];
            anchors := anchors - {tempUri};
            var _ := SaveAnchors();
            return;
          }
          j := j + 1;
        }
        i := i + 1;
      }
    }
  }
}
