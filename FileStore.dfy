/** The operations of ipm.py that read and change files: `ReplaceTextInFile`,
    `ChangeProjectFile`, `RenameWorkspace`, `RenameProject`, the two renames
    in a row, and the checks and element building of `AddFolder`. The disk
    is a map from file path to contents and a set of directory paths. */
module FileStore {
  import opened Outcomes
  import opened Text
  import opened Paths
  import opened Device
  import opened ProjectFile
  import opened FolderXml

  /** `os.rename(src, dst)` of a file: the contents move to `dst`,
      replacing a file there; renaming a file to itself changes nothing. */
  function Moved(files: map<string, string>, src: string, dst: string): (r: map<string, string>)
    requires src in files
    ensures dst in r && r[dst] == files[src]
    ensures src != dst ==> src !in r
    ensures forall p :: p != src && p != dst ==> (p in r <==> p in files)
    ensures forall p :: p != src && p != dst && p in r ==> r[p] == files[p]
  {
    if src == dst then files else (files - {src})[dst := files[src]]
  }

  /** The rename target of a workspace (ipm.py:536-538). */
  function WorkspaceTarget(workspace: string, name: string): string {
    ReplaceLast(workspace, name + ".eww")
  }

  /** The rename target of a project (ipm.py:558-561). */
  function ProjectTarget(project: string, name: string): string {
    ReplaceLast(project, name + ".ewp")
  }

  /** How a workspace refers to a project file (ipm.py:567-568). */
  function WorkspaceRef(file: string): string {
    "$WS_DIR$\\" + file
  }

  /** The files after a successful `RenameProject`: the project moved,
      then the workspace's reference to it rewritten. */
  function ProjectRenamed(files: map<string, string>, project: string, workspace: string, name: string)
    : map<string, string>
    requires project in files && workspace in files
    requires EndsWith(project, ".ewp") && EndsWith(workspace, ".eww")
  {
    ExtensionsDiffer(project, workspace, ProjectTarget(project, name), name);
    var moved := Moved(files, project, ProjectTarget(project, name));
    moved[workspace := ReplaceAll(moved[workspace], WorkspaceRef(Last(project)), WorkspaceRef(name + ".ewp"))]
  }

  /** A .ewp path is never a .eww path, and the project's target ends in
      ".ewp". */
  lemma ExtensionsDiffer(project: string, workspace: string, target: string, name: string)
    requires EndsWith(project, ".ewp") && EndsWith(workspace, ".eww")
    requires target == ProjectTarget(project, name)
    ensures project != workspace && target != workspace
  {
    ReplaceLastKeepsDirectory(project, name + ".ewp");
    assert EndsWith(target, ".ewp");
    assert target[|target| - 1] != workspace[|workspace| - 1];
    assert project[|project| - 1] != workspace[|workspace| - 1];
  }

  /** What a successful `RenameProject` leaves: the project's contents at
      the new name in the same folder, no file at the old name (unless the
      name did not change), the workspace reference rewritten, and every
      other file as it was. */
  lemma ProjectRenamedState(files: map<string, string>, project: string, workspace: string, name: string)
    requires project in files && workspace in files
    requires EndsWith(project, ".ewp") && EndsWith(workspace, ".eww")
    ensures var r := ProjectRenamed(files, project, workspace, name);
      var target := ProjectTarget(project, name);
      && target == project[..|project| - |Last(project)|] + name + ".ewp"
      && target in r && r[target] == files[project]
      && (target != project ==> project !in r)
      && workspace in r
      && r[workspace] == ReplaceAll(files[workspace], WorkspaceRef(Last(project)), WorkspaceRef(name + ".ewp"))
    ensures var r := ProjectRenamed(files, project, workspace, name);
      var target := ProjectTarget(project, name);
      && (forall p :: p != project && p != target ==> (p in r <==> p in files))
      && (forall p :: p != project && p != target && p != workspace && p in r ==> r[p] == files[p])
  {
    var target := ProjectTarget(project, name);
    ExtensionsDiffer(project, workspace, target, name);
    ReplaceLastKeepsDirectory(project, name + ".ewp");
    var moved := Moved(files, project, target);
    assert moved[workspace] == files[workspace];
  }

  /** If the workspace named the old project file, it names the new one
      afterwards. */
  lemma ProjectRenamedReference(files: map<string, string>, project: string, workspace: string, name: string)
    requires project in files && workspace in files
    requires EndsWith(project, ".ewp") && EndsWith(workspace, ".eww")
    requires Occurs(files[workspace], WorkspaceRef(Last(project)))
    ensures Occurs(ProjectRenamed(files, project, workspace, name)[workspace], WorkspaceRef(name + ".ewp"))
  {
    ProjectRenamedState(files, project, workspace, name);
    ReplaceInsertsReplacement(files[workspace], WorkspaceRef(Last(project)), WorkspaceRef(name + ".ewp"));
  }

  /** The files after both renames of the `rename` command. */
  function Renamed(files: map<string, string>, project: string, workspace: string, name: string)
    : map<string, string>
    requires project in files && workspace in files
    requires EndsWith(project, ".ewp") && EndsWith(workspace, ".eww")
  {
    ProjectRenamedState(files, project, workspace, name);
    Moved(ProjectRenamed(files, project, workspace, name), workspace, WorkspaceTarget(workspace, name))
  }

  /** After both renames, a workspace that named the old project file sits
      at its new name and names the new project file; the project's
      contents sit at the project's new name. */
  lemma RenamedReference(files: map<string, string>, project: string, workspace: string, name: string)
    requires project in files && workspace in files
    requires EndsWith(project, ".ewp") && EndsWith(workspace, ".eww")
    requires Occurs(files[workspace], WorkspaceRef(Last(project)))
    ensures var r := Renamed(files, project, workspace, name);
      && WorkspaceTarget(workspace, name) in r
      && Occurs(r[WorkspaceTarget(workspace, name)], WorkspaceRef(name + ".ewp"))
      && ProjectTarget(project, name) in r
      && r[ProjectTarget(project, name)] == files[project]
  {
    var target := ProjectTarget(project, name);
    var wtarget := WorkspaceTarget(workspace, name);
    ExtensionsDiffer(project, workspace, target, name);
    ProjectRenamedState(files, project, workspace, name);
    ProjectRenamedReference(files, project, workspace, name);
    ReplaceLastKeepsDirectory(workspace, name + ".eww");
    assert EndsWith(wtarget, ".eww");
    assert target[|target| - 1] != wtarget[|wtarget| - 1];
  }

  /** The project file `Create` copies is renamed to the path that
      `ChangeProjectFile` then edits (ipm.py:267-270 against ipm.py:344). */
  lemma CreatedProjectFile(name: string)
    ensures ProjectTarget(name + "/EWARM/template.ewp", name) == ProjectFilePath(name)
    ensures Last(name + "/EWARM/template.ewp") == "template.ewp"
  {
    var p := name + "/EWARM/template.ewp";
    assert p == (name + "/EWARM") + "/" + "template.ewp";
    LastAfterSeparator(name + "/EWARM", "template.ewp");
    ReplaceLastKeepsDirectory(p, name + ".ewp");
    assert p[..|p| - |"template.ewp"|] == name + "/EWARM/";
  }

  /** The folder `path` would sit in exists: a path without "/" names an
      entry of the working directory (or of the root), any other path needs
      its parent, `DropLast(path)`, to be a directory. */
  predicate InFolder(path: string, dirs: set<string>) {
    DropLast(path) == [] || DropLast(path) in dirs
  }

  /** `os.rename` of a file onto `target` raises OSError (ipm.py:539-542,
      ipm.py:562-565): the target is a directory, or the folder it would go
      into is missing or is not a directory. */
  predicate RenameFails(target: string, dirs: set<string>) {
    target in dirs || !InFolder(target, dirs)
  }

  /** A disk as `os` sees it: no path is both a file and a directory, and
      every file sits in an existing folder. */
  predicate Consistent(files: map<string, string>, dirs: set<string>) {
    && files.Keys !! dirs
    && forall p {:trigger InFolder(p, dirs)} :: p in files ==> InFolder(p, dirs)
  }

  /** With a new name that holds no "/", the target lies in the folder of
      the file renamed, so on a consistent disk the rename fails only onto
      a directory. A name with "/" can point into a folder that is not
      there. */
  lemma PlainNameRenameFails(files: map<string, string>, dirs: set<string>, path: string, leaf: string)
    requires Consistent(files, dirs) && path in files && '/' !in leaf
    ensures RenameFails(ReplaceLast(path, leaf), dirs) <==> ReplaceLast(path, leaf) in dirs
  {
    assert InFolder(path, dirs);
    DropLastOfReplaceLast(path, leaf);
  }

  /** A rename that does not fail keeps the disk consistent. */
  lemma MovedConsistent(files: map<string, string>, dirs: set<string>, src: string, dst: string)
    requires Consistent(files, dirs) && src in files && !RenameFails(dst, dirs)
    ensures Consistent(Moved(files, src, dst), dirs)
  {
  }

  /** The error of `ReplaceTextInFile` on a path that is not a file
      (ipm.py:597-600): a directory cannot be opened, anything else is
      missing. */
  function MissingFile(path: string, dirs: set<string>): Error {
    if path in dirs then Exit("Can not handle \"" + path + "\" file")
    else Exit("Can not find \"" + path + "\" file")
  }

  /** The error of `AddFolder` when the copy destination exists
      (ipm.py:433-434). */
  function DestinationExists(dst: string): Error {
    Exit("Folder \"" + dst + "\" exists")
  }

  /** The value `add_folder` produces before it writes the project file:
      where the folder is copied and the group it appends. */
  datatype Added = Added(destination: string, group: Node)

  /** The disk: regular files with their contents, and directories. */
  class FileSystem {
    var files: map<string, string>
    var dirs: set<string>

    ghost predicate Valid()
      reads this
    {
      Consistent(files, dirs)
    }

    constructor (files: map<string, string>, dirs: set<string>)
      requires Consistent(files, dirs)
      ensures Valid() && this.files == files && this.dirs == dirs
    {
      this.files := files;
      this.dirs := dirs;
    }

    /** `os.path.exists` */
    predicate Exists(path: string)
      reads this
    {
      path in files || path in dirs
    }

    /** `ReplaceTextInFile` (ipm.py:588-600): the file's contents become
      `text.replace(pat, rep)`; a missing path is an error, and a directory
      cannot be opened. Nothing else changes. */
    method ReplaceTextInFile(path: string, pat: string, rep: string) returns (status: Status)
      requires Valid()
      modifies this
      ensures Valid() && dirs == old(dirs)
      ensures path in old(files) ==>
        status == Done && files == old(files)[path := ReplaceAll(old(files)[path], pat, rep)]
      ensures path !in old(files) ==> status == Failed(MissingFile(path, dirs)) && files == old(files)
    {
      if path in files {
        files := files[path := ReplaceAll(files[path], pat, rep)];
        status := Done;
      } else {
        status := Failed(MissingFile(path, dirs));
      }
    }

    /** Apply `edits` to one file in order with `ReplaceTextInFile`. The
      first failure stops the run; it can only come from the first call. */
    method RewriteFile(path: string, edits: seq<Edit>) returns (status: Status)
      requires Valid()
      modifies this
      ensures Valid() && dirs == old(dirs)
      ensures path in old(files) ==>
        status == Done && files == old(files)[path := ApplyEdits(old(files)[path], edits)]
      ensures path !in old(files) && edits != [] ==>
        files == old(files) && status == Failed(MissingFile(path, dirs))
      ensures path !in old(files) && edits == [] ==> files == old(files) && status == Done
    {
      status := Done;
      var i := 0;
      while i < |edits|
        invariant 0 <= i <= |edits|
        invariant Valid() && dirs == old(dirs)
        invariant path in old(files) ==> files == old(files)[path := ApplyEdits(old(files)[path], edits[..i])]
        invariant path !in old(files) ==> files == old(files) && i == 0
        invariant status == Done
      {
        status := ReplaceTextInFile(path, edits[i].pat, edits[i].rep);
        if status.Failed? {
          return;
        }
        assert edits[..i + 1][..i] == edits[..i];
        i := i + 1;
      }
      assert edits[..|edits|] == edits;
    }

    /** `ChangeProjectFile` (ipm.py:339-418): the ten device replacements,
      the core lookup, then the core, .hex and .out replacements. An unknown
      series digit stops after the tenth replacement. */
    method ChangeProjectFile(name: string, device: string) returns (status: Status)
      requires Valid()
      modifies this
      ensures Valid() && dirs == old(dirs)
      ensures var path := ProjectFilePath(name);
        path !in old(files) ==> files == old(files) && status == Failed(MissingFile(path, dirs))
      ensures var path := ProjectFilePath(name);
        path in old(files) && ProjectEdits(name, device).Ok? ==>
          status == Done &&
          files == old(files)[path := ApplyEdits(old(files)[path], ProjectEdits(name, device).value)]
      ensures var path := ProjectFilePath(name);
        path in old(files) && ProjectEdits(name, device).Err? ==>
          status == Failed(ProjectEdits(name, device).error) &&
          files == old(files)[path := ApplyEdits(old(files)[path], DeviceEdits(Lower(device)))]
    {
      var path := ProjectFilePath(name);
      ghost var text := if path in files then files[path] else [];
      var lowered := Lower(device);
      var first := DeviceEdits(lowered);
      status := RewriteFile(path, first);
      if status.Failed? {
        return;
      }
      var core := CoreHeader(lowered);
      if core.Err? {
        status := Failed(core.error);
        return;
      }
      var rest := [CoreEdit(core.value)] + OutputEdits(name);
      status := RewriteFile(path, rest);
      ApplyEditsAppend(text, first, rest);
      assert first + rest == ProjectEdits(name, device).value;
    }

    /** `RenameWorkspace` (ipm.py:533-546): a workspace file is renamed to
      `name + ".eww"` in the same folder, unless `os.rename` fails. */
    method RenameWorkspace(workspace: string, name: string) returns (status: Status)
      requires Valid()
      modifies this
      ensures Valid() && dirs == old(dirs)
      ensures workspace !in old(files) ==>
        status == Failed(Exit("Can not find: \"" + workspace + "\" file")) && files == old(files)
      ensures workspace in old(files) && !EndsWith(workspace, ".eww") ==>
        status == Failed(Exit("\"" + workspace + "\" is not *.eww file")) && files == old(files)
      ensures workspace in old(files) && EndsWith(workspace, ".eww") && RenameFails(WorkspaceTarget(workspace, name), dirs) ==>
        status == Failed(Exit("Can not rename \"" + workspace + "\" file")) && files == old(files)
      ensures workspace in old(files) && EndsWith(workspace, ".eww") && !RenameFails(WorkspaceTarget(workspace, name), dirs) ==>
        status == Done && files == Moved(old(files), workspace, WorkspaceTarget(workspace, name))
    {
      if workspace !in files {
        return Failed(Exit("Can not find: \"" + workspace + "\" file"));
      }
      if !EndsWith(workspace, ".eww") {
        return Failed(Exit("\"" + workspace + "\" is not *.eww file"));
      }
      var target := WorkspaceTarget(workspace, name);
      if RenameFails(target, dirs) {
        return Failed(Exit("Can not rename \"" + workspace + "\" file"));
      }
      MovedConsistent(files, dirs, workspace, target);
      files := Moved(files, workspace, target);
      status := Done;
    }

    /** `RenameProject` (ipm.py:552-579): both files must exist and carry
      their extensions before anything moves; then the project is renamed
      to `name + ".ewp"` and the workspace's reference is rewritten. */
    method RenameProject(project: string, workspace: string, name: string) returns (status: Status)
      requires Valid()
      modifies this
      ensures Valid() && dirs == old(dirs)
      ensures project !in old(files) ==>
        status == Failed(Exit("Can not find: \"" + project + "\" file")) && files == old(files)
      ensures project in old(files) && workspace !in old(files) ==>
        status == Failed(Exit("Can not find: \"" + workspace + "\" file")) && files == old(files)
      ensures project in old(files) && workspace in old(files) && !EndsWith(project, ".ewp") ==>
        status == Failed(Exit("\"" + project + "\" is not *.ewp file")) && files == old(files)
      ensures (project in old(files) && workspace in old(files) && EndsWith(project, ".ewp")
               && !EndsWith(workspace, ".eww")) ==>
        status == Failed(Exit("\"" + workspace + "\" is not *.eww file")) && files == old(files)
      ensures (project in old(files) && workspace in old(files) && EndsWith(project, ".ewp")
               && EndsWith(workspace, ".eww") && RenameFails(ProjectTarget(project, name), dirs)) ==>
        status == Failed(Exit("Can non rename \"" + project + "\" file")) && files == old(files)
      ensures (project in old(files) && workspace in old(files) && EndsWith(project, ".ewp")
               && EndsWith(workspace, ".eww") && !RenameFails(ProjectTarget(project, name), dirs)) ==>
        status == Done && files == ProjectRenamed(old(files), project, workspace, name)
    {
      if project !in files {
        return Failed(Exit("Can not find: \"" + project + "\" file"));
      }
      if workspace !in files {
        return Failed(Exit("Can not find: \"" + workspace + "\" file"));
      }
      if !EndsWith(project, ".ewp") {
        return Failed(Exit("\"" + project + "\" is not *.ewp file"));
      }
      if !EndsWith(workspace, ".eww") {
        return Failed(Exit("\"" + workspace + "\" is not *.eww file"));
      }
      var target := ProjectTarget(project, name);
      var oldName := Last(project);
      if RenameFails(target, dirs) {
        return Failed(Exit("Can non rename \"" + project + "\" file"));
      }
      ExtensionsDiffer(project, workspace, target, name);
      MovedConsistent(files, dirs, project, target);
      files := Moved(files, project, target);
      status := ReplaceTextInFile(workspace, WorkspaceRef(oldName), WorkspaceRef(name + ".ewp"));
    }

    /** The `rename` command and `CopyEWARMFiles` (ipm.py:718-722,
      ipm.py:269-270): the project first, then the workspace; a failure
      ends the run. */
    method Rename(project: string, workspace: string, name: string) returns (status: Status)
      requires Valid()
      modifies this
      ensures Valid() && dirs == old(dirs)
      ensures (project in old(files) && workspace in old(files) && EndsWith(project, ".ewp")
               && EndsWith(workspace, ".eww") && !RenameFails(ProjectTarget(project, name), dirs)
               && !RenameFails(WorkspaceTarget(workspace, name), dirs)) ==>
        status == Done && files == Renamed(old(files), project, workspace, name)
      ensures (project in old(files) && workspace in old(files) && EndsWith(project, ".ewp")
               && EndsWith(workspace, ".eww") && !RenameFails(ProjectTarget(project, name), dirs)
               && RenameFails(WorkspaceTarget(workspace, name), dirs)) ==>
        status == Failed(Exit("Can not rename \"" + workspace + "\" file"))
        && files == ProjectRenamed(old(files), project, workspace, name)
      ensures !(project in old(files) && workspace in old(files) && EndsWith(project, ".ewp")
                && EndsWith(workspace, ".eww") && !RenameFails(ProjectTarget(project, name), dirs)) ==>
        status.Failed? && files == old(files)
    {
      status := RenameProject(project, workspace, name);
      if status.Failed? {
        return;
      }
      ghost var renamed := files;
      ProjectRenamedState(old(files), project, workspace, name);
      status := RenameWorkspace(workspace, name);
      assert status.Done? ==> files == Moved(renamed, workspace, WorkspaceTarget(workspace, name));
    }

    /** The checks of `AddFolder` (ipm.py:424-434): the project file must
      exist and end in ".ewp", the folder must exist, and the copy
      destination, the project's grandparent folder then "/source/" and the
      folder's name, must not. On success, the folder path without a
      trailing "/" and a leading "./", and the destination. */
    function AddFolderChecks(projectPath: string, folderPath: string): (r: Result<(string, string)>)
      reads this
      ensures r.Ok? <==>
        && projectPath in files && EndsWith(projectPath, ".ewp") && Exists(folderPath)
        && !Exists(DropLast(DropLast(projectPath)) + "/source/" + Last(DecoratePath(folderPath)))
      ensures r.Ok? ==>
        && r.value.0 == (var q := if EndsWith(folderPath, "/") then folderPath[..|folderPath| - 1] else folderPath;
                         if StartsWith(q, "./") then q[2..] else q)
        && r.value.1 == DropLast(DropLast(projectPath)) + "/source/" + Last(r.value.0)
      ensures projectPath !in files ==> r == Err(Exit("Can not find: \"" + projectPath + "\" file"))
      ensures projectPath in files && !EndsWith(projectPath, ".ewp") ==>
        r == Err(Exit("\"" + projectPath + "\" is not *.ewp file"))
      ensures projectPath in files && EndsWith(projectPath, ".ewp") && !Exists(folderPath) ==>
        r == Err(Exit("Can not find \"" + folderPath + "\" folder"))
      ensures r.Err? && projectPath in files && EndsWith(projectPath, ".ewp") && Exists(folderPath) ==>
        r.error == DestinationExists(DropLast(DropLast(projectPath)) + "/source/" + Last(DecoratePath(folderPath)))
    {
      if projectPath !in files then Err(Exit("Can not find: \"" + projectPath + "\" file"))
      else if !EndsWith(projectPath, ".ewp") then Err(Exit("\"" + projectPath + "\" is not *.ewp file"))
      else if !Exists(folderPath) then Err(Exit("Can not find \"" + folderPath + "\" folder"))
      else
        var folder := DecoratePath(folderPath);
        var dst := FolderDestination(projectPath, folder);
        FolderDestinationIsGrandparent(projectPath, folder);
        if Exists(dst) then Err(DestinationExists(dst))
        else Ok((folder, dst))
    }

    /** `AddFolder` (ipm.py:424-447) for a folder whose listing is
      `listing`: after the checks, the group built by `ParseFolder` from
      the start position of ipm.py:441. The copy itself and the rewrite of
      the project file are not part of this model. */
    method AddFolder(projectPath: string, folderPath: string, ignore: Option<string>, listing: seq<Entry>)
      returns (r: Result<Added>)
      ensures AddFolderChecks(projectPath, folderPath).Err? ==>
        r == Err(AddFolderChecks(projectPath, folderPath).error)
      ensures AddFolderChecks(projectPath, folderPath).Ok? ==>
        var checked := AddFolderChecks(projectPath, folderPath).value;
        r == Ok(Added(checked.1, FolderGroup(checked.0, listing, ignore)))
    {
      var checked := AddFolderChecks(projectPath, folderPath);
      if checked.Err? {
        return Err(checked.error);
      }
      var folder := checked.value.0;
      var dst := checked.value.1;
      var start := |Components(folder)| - 1;
      var elements := ParseFolder(folder, listing, ignore, start, true);
      r := Ok(Added(dst, elements[0]));
    }
  }
}
