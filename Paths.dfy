/** The path strings ipm.py builds by splitting on "/" and joining again. */
module Paths {
  import opened Text

  /** `p.split("/")` */
  function Components(p: string): (parts: seq<string>)
    ensures |parts| >= 1
  {
    Split(p, '/')
  }

  /** `p.split("/")[-1]`: the last component, which is the longest suffix
      of `p` without a "/" (all of `p`, or what follows its last "/"). */
  function Last(p: string): (r: string)
    ensures |r| <= |p|
  {
    var parts := Components(p);
    LastIsFinalComponent(p, parts);
    parts[|parts| - 1]
  }

  /** The last component is the longest suffix without "/": all of `p`,
      or what follows its last "/". */
  lemma LastIsSuffix(p: string)
    ensures var r := Last(p);
      && EndsWith(p, r) && '/' !in r
      && (|r| == |p| || p[|p| - |r| - 1] == '/')
      && ('/' in p <==> |r| < |p|)
  {
    LastIsFinalComponent(p, Components(p));
  }

  /** `"/".join(p.split("/")[0:-1])`: everything before the last "/". */
  function DropLast(p: string): string {
    var parts := Components(p);
    Join(parts[..|parts| - 1], '/')
  }

  /** The rename target: `p.split("/")` with its last item set to `leaf`,
      joined again with "/". */
  function ReplaceLast(p: string, leaf: string): string {
    var parts := Components(p);
    Join(parts[..|parts| - 1] + [leaf], '/')
  }

  lemma LastIsFinalComponent(p: string, parts: seq<string>)
    requires parts == Components(p)
    ensures var r := parts[|parts| - 1];
      && EndsWith(p, r) && '/' !in r
      && (|r| == |p| || p[|p| - |r| - 1] == '/')
      && ('/' in p <==> |r| < |p|)
  {
    var n := |parts|;
    var r := parts[n - 1];
    JoinSplit(p, '/');
    SplitPartsPlain(p, '/');
    if n == 1 {
      assert p == parts[0];
    } else {
      var front := Join(parts[..n - 1], '/');
      assert p == front + ['/'] + r;
      assert p[|p| - |r| - 1] == '/';
      assert '/' in p;
    }
  }

  /** Everything but the last component is kept, the "/" before it included. */
  lemma ReplaceLastKeepsDirectory(p: string, leaf: string)
    ensures ReplaceLast(p, leaf) == p[..|p| - |Last(p)|] + leaf
  {
    var parts := Components(p);
    var n := |parts|;
    JoinSplit(p, '/');
    if n == 1 {
      assert ReplaceLast(p, leaf) == leaf;
    } else {
      JoinSnoc(parts[..n - 1], leaf, '/');
      assert parts[..n - 1] + [parts[n - 1]] == parts;
      JoinSnoc(parts[..n - 1], parts[n - 1], '/');
      assert p == Join(parts[..n - 1], '/') + ['/'] + parts[n - 1];
    }
  }

  /** Dropping the last component drops it with the "/" in front of it; a
      path without "/" becomes empty. */
  lemma DropLastIsParent(p: string)
    ensures '/' in p <==> |Last(p)| < |p|
    ensures DropLast(p) == if |Last(p)| < |p| then p[..|p| - |Last(p)| - 1] else []
  {
    LastIsSuffix(p);
    var parts := Components(p);
    var n := |parts|;
    JoinSplit(p, '/');
    if n > 1 {
      assert parts[..n - 1] + [parts[n - 1]] == parts;
      JoinSnoc(parts[..n - 1], parts[n - 1], '/');
    }
  }

  /** The components of DropLast(p) are those of p without the last one. */
  lemma DropLastComponents(p: string)
    ensures |Components(p)| >= 2 ==> Components(DropLast(p)) == Components(p)[..|Components(p)| - 1]
    ensures |Components(p)| == 1 ==> DropLast(p) == []
  {
    var parts := Components(p);
    if |parts| >= 2 {
      SplitJoinPrefix(p, '/', |parts| - 1);
    }
  }

  /** Setting a new last component that holds no "/" keeps the parent. */
  lemma DropLastOfReplaceLast(p: string, leaf: string)
    requires '/' !in leaf
    ensures DropLast(ReplaceLast(p, leaf)) == DropLast(p)
  {
    var q := ReplaceLast(p, leaf);
    ReplaceLastKeepsDirectory(p, leaf);
    DropLastIsParent(p);
    if |Last(p)| < |p| {
      LastIsSuffix(p);
      var a := p[..|p| - |Last(p)| - 1];
      assert p[..|p| - |Last(p)|] == a + "/";
      assert q == a + "/" + leaf;
      LastAfterSeparator(a, leaf);
      DropLastIsParent(q);
      assert q[..|q| - |leaf| - 1] == a;
    } else {
      assert q == leaf;
      LastIsSuffix(q);
      DropLastIsParent(q);
    }
  }

  /** `DecoratePath` (ipm.py:636-642): a trailing "/" is dropped, then a leading
      "./". */
  function DecoratePath(path: string): (r: string)
    ensures r == var q := if EndsWith(path, "/") then path[..|path| - 1] else path;
                 if StartsWith(q, "./") then q[2..] else q
  {
    var q := if EndsWith(path, "/") then DropLast(path) else path;
    assert EndsWith(path, "/") ==> q == path[..|path| - 1] by {
      if EndsWith(path, "/") {
        DropTrailingSeparator(path);
      }
    }
    if StartsWith(q, "./") then
      DropLeadingDot(q);
      Join(Components(q)[1..], '/')
    else q
  }

  lemma DropTrailingSeparator(path: string)
    requires EndsWith(path, "/")
    ensures DropLast(path) == path[..|path| - 1]
  {
    var front := path[..|path| - 1];
    assert path == front + "/";
    assert Components(path) == Components(front) + [[]];
    JoinSplit(front, '/');
  }

  lemma DropLeadingDot(q: string)
    requires StartsWith(q, "./")
    ensures Join(Components(q)[1..], '/') == q[2..]
  {
    assert q == "." + ['/'] + q[2..];
    SplitFirst(".", q[2..], '/');
    JoinSplit(q[2..], '/');
  }

  /** The copy destination of `add_folder` (ipm.py:431-432): the project
      path without its last two components, then "/source/" and the last
      component of the (decorated) folder path. */
  function FolderDestination(projectPath: string, folderPath: string): string {
    var parts := Components(projectPath);
    var keep := if |parts| >= 2 then |parts| - 2 else 0;
    Join(parts[..keep], '/') + "/source/" + Last(folderPath)
  }

  /** The destination is the grandparent of the project file, then
      "source" and the folder's own name. */
  lemma FolderDestinationIsGrandparent(projectPath: string, folderPath: string)
    ensures FolderDestination(projectPath, folderPath)
         == DropLast(DropLast(projectPath)) + "/source/" + Last(folderPath)
  {
    var parts := Components(projectPath);
    var n := |parts|;
    var up := DropLast(projectPath);
    DropLastComponents(projectPath);
    if n >= 2 {
      assert Components(up) == parts[..n - 1];
      assert DropLast(up) == Join(parts[..n - 1][..n - 2], '/');
      assert parts[..n - 1][..n - 2] == parts[..n - 2];
    } else {
      assert up == [];
      assert DropLast(up) == [];
    }
  }

  /** For the layout the tool creates, `<root>/EWARM/<file>.ewp`, the folder
      is copied to `<root>/source/<folder name>`. */
  lemma FolderDestinationInProject(root: string, file: string, folderPath: string)
    requires '/' !in file
    ensures FolderDestination(root + "/EWARM/" + file, folderPath) == root + "/source/" + Last(folderPath)
  {
    var p := root + "/EWARM/" + file;
    assert p == (root + ['/'] + "EWARM") + ['/'] + file;
    SplitAppendPart(root, "EWARM", '/');
    SplitAppendPart(root + ['/'] + "EWARM", file, '/');
    var parts := Components(p);
    assert parts == Components(root) + ["EWARM", file];
    assert parts[..|parts| - 2] == Components(root);
    JoinSplit(root, '/');
  }

  /** The last component of `a/b`, when `b` holds no "/", is `b`. */
  lemma LastAfterSeparator(a: string, b: string)
    requires '/' !in b
    ensures Last(a + "/" + b) == b
    ensures Components(a + "/" + b) == Components(a) + [b]
  {
    assert a + "/" + b == a + ['/'] + b;
    SplitAppendPart(a, b, '/');
  }

  /** Extending a path by one component extends every tail of its
      components by that component. */
  lemma JoinDropExtend(folder: string, d: string, pos: nat)
    requires '/' !in d
    requires pos < |Components(folder)|
    ensures Join(Drop(Components(folder + "/" + d), pos), '/')
         == Join(Drop(Components(folder), pos), '/') + "/" + d
  {
    var parts := Components(folder);
    LastAfterSeparator(folder, d);
    assert Drop(parts + [d], pos) == Drop(parts, pos) + [d];
    JoinSnoc(Drop(parts, pos), d, '/');
  }

  /** The tail of the components starting at the last one is the last
      component. */
  lemma JoinDropLast(folder: string)
    ensures Join(Drop(Components(folder), |Components(folder)| - 1), '/') == Last(folder)
  {
    var parts := Components(folder);
    assert Drop(parts, |parts| - 1) == [parts[|parts| - 1]];
  }
}
