/** `ParseFolder` and `AppendNode` (ipm.py:463-498): the group/file
    elements `add_folder` builds for a folder tree. A directory is given by
    its listing; the elements are values rather than lxml nodes mutated in
    place. */
module FolderXml {
  import opened Outcomes
  import opened Text
  import opened Paths

  /** An item of a directory listing, in listing order: a file, or a
      directory together with its own listing. */
  datatype Entry = File(name: string) | Dir(name: string, entries: seq<Entry>)

  /** An element `AppendNode` adds: `<group><name>N</name>...</group>` with
      its children, or `<file><name>PATH</name></file>`. */
  datatype Node = Group(name: string, children: seq<Node>) | FileNode(path: string)

  /** Names in a listing never hold "/". */
  predicate WellNamed(entries: seq<Entry>)
    decreases entries
  {
    forall k :: 0 <= k < |entries| ==>
      '/' !in entries[k].name && (entries[k].Dir? ==> WellNamed(entries[k].entries))
  }

  /** The ignore filter (ipm.py:478-482): without a list every file is kept;
      with one, a file is dropped when its name ends with any of the
      list's "/"-separated items. */
  predicate Kept(name: string, ignore: Option<string>) {
    match ignore
    case None => true
    case Some(list) => !(exists x :: x in Split(list, '/') && EndsWith(name, x))
  }

  /** The text of a file element (ipm.py:474-476). */
  function FilePath(folder: string, pos: nat, item: string): string {
    SourceDir(folder, pos) + "/" + item
  }

  /** The elements appended for the listing `entries` of `folder`, in
      listing order. */
  function Children(folder: string, entries: seq<Entry>, ignore: Option<string>, pos: nat): seq<Node>
    decreases entries
  {
    if entries == [] then []
    else
      Children(folder, entries[..|entries| - 1], ignore, pos)
        + EntryNodes(folder, entries[|entries| - 1], ignore, pos)
  }

  /** The elements appended for one item of the listing of `folder`. */
  function EntryNodes(folder: string, e: Entry, ignore: Option<string>, pos: nat): seq<Node>
    decreases e
  {
    match e
    case File(name) =>
      if Kept(name, ignore) then [FileNode(FilePath(folder, pos, name))] else []
    case Dir(name, sub) =>
      [Group(name, Children(folder + "/" + name, sub, ignore, pos))]
  }

  /** The group `add_folder` appends to the project: the first call of
      `ParseFolder` with the start position of ipm.py:441. */
  function FolderGroup(folder: string, entries: seq<Entry>, ignore: Option<string>): Node {
    Group(Last(folder), Children(folder, entries, ignore, |Components(folder)| - 1))
  }

  /** `ParseFolder` (ipm.py:463-487): one pass over the listing, a file
      element for each kept file and a group, filled recursively, for each
      directory. */
  method ParseFolder(folder: string, entries: seq<Entry>, ignore: Option<string>, pos: nat, firstEntry: bool)
    returns (nodes: seq<Node>)
    ensures firstEntry ==> nodes == [Group(Last(folder), Children(folder, entries, ignore, pos))]
    ensures !firstEntry ==> nodes == Children(folder, entries, ignore, pos)
    decreases entries
  {
    var items: seq<Node> := [];
    var i := 0;
    while i < |entries|
      invariant 0 <= i <= |entries|
      invariant items == Children(folder, entries[..i], ignore, pos)
    {
      var e := entries[i];
      match e {
        case File(name) =>
          if Kept(name, ignore) {
            items := items + [FileNode(FilePath(folder, pos, name))];
          }
        case Dir(name, sub) =>
          var inner := ParseFolder(folder + "/" + name, sub, ignore, pos, false);
          items := items + [Group(name, inner)];
      }
      assert entries[..i + 1][..i] == entries[..i];
      i := i + 1;
    }
    assert entries[..|entries|] == entries;
    if firstEntry {
      nodes := [Group(Last(folder), items)];
    } else {
      nodes := items;
    }
  }

  // ---------------------------------------------------------------------------
  // The ignore filter
  // ---------------------------------------------------------------------------

  /** A list ending in "/" has an empty last item, which every name ends
      with: no file is kept. */
  lemma TrailingSeparatorDropsAll(name: string, list: string)
    requires EndsWith(list, "/")
    ensures !Kept(name, Some(list))
  {
    var front := list[..|list| - 1];
    assert list == front + ['/'];
    SplitSnoc(front, '/', '/');
    var parts := Split(list, '/');
    assert parts[|parts| - 1] == [];
    assert [] in parts;
    assert EndsWith(name, []);
  }

  /** A list without "/" is a single suffix. */
  lemma SingleSuffix(name: string, suffix: string)
    requires '/' !in suffix
    ensures Kept(name, Some(suffix)) <==> !EndsWith(name, suffix)
  {
    SplitPlain(suffix, '/');
  }

  /** "a/b" drops the names ending with `a` or with `b`. */
  lemma TwoSuffixes(name: string, a: string, b: string)
    requires '/' !in a && '/' !in b
    ensures Kept(name, Some(a + "/" + b)) <==> !EndsWith(name, a) && !EndsWith(name, b)
  {
    assert a + "/" + b == a + ['/'] + b;
    SplitFirst(a, b, '/');
    SplitPlain(b, '/');
    assert Split(a + "/" + b, '/') == [a, b];
  }

  // ---------------------------------------------------------------------------
  // Structure: the groups mirror the folder tree
  // ---------------------------------------------------------------------------

  /** The listing with the dropped files taken out; directories always stay. */
  function Prune(entries: seq<Entry>, ignore: Option<string>): seq<Entry>
    decreases entries
  {
    if entries == [] then []
    else
      Prune(entries[..|entries| - 1], ignore) + PruneEntry(entries[|entries| - 1], ignore)
  }

  function PruneEntry(e: Entry, ignore: Option<string>): seq<Entry>
    decreases e
  {
    match e
    case File(name) => if Kept(name, ignore) then [e] else []
    case Dir(name, sub) => [Dir(name, Prune(sub, ignore))]
  }

  /** The folder tree an element list describes: groups as directories, a
      file element as the file its path ends with. */
  function Shape(nodes: seq<Node>): seq<Entry>
    decreases nodes
  {
    if nodes == [] then []
    else Shape(nodes[..|nodes| - 1]) + [NodeShape(nodes[|nodes| - 1])]
  }

  function NodeShape(n: Node): Entry
    decreases n
  {
    match n
    case Group(name, children) => Dir(name, Shape(children))
    case FileNode(path) => File(Last(path))
  }

  lemma {:induction false} ShapeAppend(a: seq<Node>, b: seq<Node>)
    ensures Shape(a + b) == Shape(a) + Shape(b)
    decreases |b|
  {
    if b == [] {
      assert a + b == a;
    } else {
      var n := |b|;
      ShapeAppend(a, b[..n - 1]);
      assert (a + b)[..|a + b| - 1] == a + b[..n - 1];
      assert (a + b)[|a + b| - 1] == b[n - 1];
    }
  }

  /** Without an ignore list nothing is pruned. */
  lemma {:induction false} PruneNothing(entries: seq<Entry>)
    ensures Prune(entries, None) == entries
    decreases entries
  {
    if entries != [] {
      var n := |entries|;
      PruneNothing(entries[..n - 1]);
      PruneEntryNothing(entries[n - 1]);
      assert entries[..n - 1] + [entries[n - 1]] == entries;
    }
  }

  lemma {:induction false} PruneEntryNothing(e: Entry)
    ensures PruneEntry(e, None) == [e]
    decreases e
  {
    match e {
      case File(_) =>
      case Dir(_, sub) => PruneNothing(sub);
    }
  }

  /** The elements mirror the listing: one group per directory, with the
      directory's name, nested as the directories are, and one file
      element per kept file, in listing order. */
  lemma {:induction false} ChildrenMirrorListing(folder: string, entries: seq<Entry>, ignore: Option<string>, pos: nat)
    requires WellNamed(entries)
    ensures Shape(Children(folder, entries, ignore, pos)) == Prune(entries, ignore)
    decreases entries
  {
    if entries != [] {
      var n := |entries|;
      var front, last := entries[..n - 1], entries[n - 1];
      var a, b := Children(folder, front, ignore, pos), EntryNodes(folder, last, ignore, pos);
      assert Children(folder, entries, ignore, pos) == a + b;
      assert Prune(entries, ignore) == Prune(front, ignore) + PruneEntry(last, ignore);
      WellNamedPrefix(entries, n - 1);
      ChildrenMirrorListing(folder, front, ignore, pos);
      EntryMirror(folder, last, ignore, pos);
      ShapeAppend(a, b);
    }
  }

  lemma {:induction false} EntryMirror(folder: string, e: Entry, ignore: Option<string>, pos: nat)
    requires '/' !in e.name && (e.Dir? ==> WellNamed(e.entries))
    ensures Shape(EntryNodes(folder, e, ignore, pos)) == PruneEntry(e, ignore)
    decreases e
  {
    match e {
      case File(name) =>
        if Kept(name, ignore) {
          LastAfterSeparator("$PROJ_DIR$/../source/" + Join(Drop(Components(folder), pos), '/'), name);
          ShapeSingle(FileNode(FilePath(folder, pos, name)));
        }
      case Dir(name, sub) =>
        ChildrenMirrorListing(folder + "/" + name, sub, ignore, pos);
        ShapeSingle(Group(name, Children(folder + "/" + name, sub, ignore, pos)));
    }
  }

  lemma ShapeSingle(n: Node)
    ensures Shape([n]) == [NodeShape(n)]
  {
    assert [n][..0] == [];
  }

  // ---------------------------------------------------------------------------
  // File paths point into the copied folder
  // ---------------------------------------------------------------------------

  /** The expected elements when the listing is copied to `dir`: a kept
      file `f` is `dir/f`, a subdirectory `d` is a group whose files are
      under `dir/d`. */
  function Expected(dir: string, entries: seq<Entry>, ignore: Option<string>): seq<Node>
    decreases entries
  {
    if entries == [] then []
    else
      Expected(dir, entries[..|entries| - 1], ignore) + ExpectedEntry(dir, entries[|entries| - 1], ignore)
  }

  function ExpectedEntry(dir: string, e: Entry, ignore: Option<string>): seq<Node>
    decreases e
  {
    match e
    case File(name) => if Kept(name, ignore) then [FileNode(dir + "/" + name)] else []
    case Dir(name, sub) => [Group(name, Expected(dir + "/" + name, sub, ignore))]
  }

  /** The source directory a folder's files are named under: the folder's
      components from `pos` on, below "$PROJ_DIR$/../source/". */
  function SourceDir(folder: string, pos: nat): string {
    "$PROJ_DIR$/../source/" + Join(Drop(Components(folder), pos), '/')
  }

  /** Splitting and re-joining the folder path at every level gives the
      same names as extending the source directory one name at a time. */
  lemma {:induction false} ChildrenPaths(folder: string, entries: seq<Entry>, ignore: Option<string>, pos: nat)
    requires WellNamed(entries)
    requires pos < |Components(folder)|
    ensures Children(folder, entries, ignore, pos) == Expected(SourceDir(folder, pos), entries, ignore)
    decreases entries
  {
    if entries != [] {
      var n := |entries|;
      WellNamedPrefix(entries, n - 1);
      ChildrenPaths(folder, entries[..n - 1], ignore, pos);
      EntryPaths(folder, entries[n - 1], ignore, pos);
    }
  }

  lemma {:induction false} EntryPaths(folder: string, e: Entry, ignore: Option<string>, pos: nat)
    requires '/' !in e.name && (e.Dir? ==> WellNamed(e.entries))
    requires pos < |Components(folder)|
    ensures EntryNodes(folder, e, ignore, pos) == ExpectedEntry(SourceDir(folder, pos), e, ignore)
    decreases e
  {
    match e {
      case File(name) =>
      case Dir(name, sub) =>
        SourceDirExtend(folder, name, pos);
        ChildrenPaths(folder + "/" + name, sub, ignore, pos);
    }
  }

  lemma SourceDirExtend(folder: string, name: string, pos: nat)
    requires '/' !in name
    requires pos < |Components(folder)|
    ensures pos < |Components(folder + "/" + name)|
    ensures SourceDir(folder + "/" + name, pos) == SourceDir(folder, pos) + "/" + name
  {
    JoinDropExtend(folder, name, pos);
    LastAfterSeparator(folder, name);
  }

  lemma WellNamedPrefix(entries: seq<Entry>, m: nat)
    requires WellNamed(entries) && m <= |entries|
    ensures WellNamed(entries[..m])
  {
    forall k | 0 <= k < m
      ensures '/' !in entries[..m][k].name
           && (entries[..m][k].Dir? ==> WellNamed(entries[..m][k].entries))
    {
      assert entries[..m][k] == entries[k];
    }
  }

  /** With the start position `add_folder` uses (ipm.py:441), the first
      call yields one group named after the folder whose file elements are
      named under "$PROJ_DIR$/../source/<folder name>", the copy's place
      next to the EWARM folder. */
  lemma AddFolderElements(folder: string, entries: seq<Entry>, ignore: Option<string>)
    requires WellNamed(entries)
    ensures FolderGroup(folder, entries, ignore)
        == Group(Last(folder), Expected("$PROJ_DIR$/../source/" + Last(folder), entries, ignore))
  {
    var pos := |Components(folder)| - 1;
    ChildrenPaths(folder, entries, ignore, pos);
    JoinDropLast(folder);
  }
}
