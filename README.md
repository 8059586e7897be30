# STM32 IAR project manager (ipm.py) in Dafny

`ipm.py` creates IAR Embedded Workbench projects for STM32F devices. It can
also rename a project and its workspace, and add a source folder to a
project's file tree. This project models the deterministic core of that
tool and proves properties of the model:

- **Device decoding** (`Device`). The prefix check on the part number, the
  family folder name, the device macro, the `main.c` include line and the
  series-digit → core-header table.
- **Python strings** (`Text`). `str.replace` as a left-to-right scan,
  `split`/`join` on one separator, slices, `startswith`/`endswith`, and
  `lower`/`upper`.
- **Paths** (`Paths`). The last component, the rename targets, `DecoratePath`
  and the copy destination of `add_folder`.
- **The project-file rewrite** (`ProjectFile`). The thirteen replacements
  `ChangeProjectFile` makes, written as data: a list of (pattern,
  replacement) pairs in source order, folded over the file's text.
- **Folder synthesis** (`FolderXml`). `ParseFolder`/`AppendNode` turn a
  directory listing into nested `group`/`file` elements.
- **Files on disk** (`FileStore`). A class holding a map from path to
  contents and a set of directories. Its methods are `ReplaceTextInFile`,
  `ChangeProjectFile`, `RenameWorkspace`, `RenameProject`, the two renames
  in a row, and `AddFolder` up to the element tree it appends.

`Exit(message)` becomes the error value `Exit(message)`. A Python
`IndexError` on `device[6]` becomes the error value `IndexError`.

## Model

| member | source | states |
|---|---|---|
| Text.ReplaceAllLength | ipm.py:595 | `text.replace(old, new)` adds the length of `new` minus the length of `old` once per replaced occurrence, the occurrences counted left to right without overlap |
| Text.ReplaceUnchangedIff | ipm.py:595 | the text is unchanged exactly when the pattern equals the replacement, or the pattern is non-empty and absent |
| Text.ReplaceAbsent | ipm.py:595 | an absent non-empty pattern leaves the text as it was |
| Text.ReplaceInsertsReplacement | ipm.py:595 | where the pattern occurred, the replacement occurs afterwards |
| Text.ReplaceRemoves | ipm.py:595 | after replacing a pattern by a text that cannot overlap it, the pattern no longer occurs |
| Text.ReplaceKeepsAbsent | ipm.py:595 | an absent text stays absent when a replacement cannot overlap it |
| Text.JoinSplit | ipm.py:537-538 | `"/".join(p.split("/")) == p` |
| Text.SplitJoin | ipm.py:537-538 | splitting a join of separator-free parts gives back the parts |
| Text.SplitFirst | ipm.py:639-640 | a separator-free first part followed by "/" splits off as the first item |
| Paths.LastIsSuffix | ipm.py:559 | `p.split("/")[-1]` is the longest suffix of `p` without "/"; a "/" stands just before it exactly when `p` contains one |
| Paths.ReplaceLastKeepsDirectory | ipm.py:536-538 | a rename target keeps everything up to and including the last "/" and puts the new file name after it |
| Paths.DropLastIsParent | ipm.py:637-638 | dropping the last item of the split drops the last component and the "/" before it; a path without "/" becomes empty |
| Paths.DecoratePath | ipm.py:636-642 | the result is the path without one trailing "/", then without a leading "./", stated on characters instead of split and join |
| Paths.FolderDestinationIsGrandparent | ipm.py:431-432 | the copy destination is the parent of the project file's folder, then "/source/" and the folder's last component |
| Paths.FolderDestinationInProject | ipm.py:431-432 | for a project at `<root>/EWARM/<file>` the folder goes to `<root>/source/<name>` |
| Device.AcceptedIff | ipm.py:219 | a device is accepted exactly when it has at least six characters and they spell "stm32f" in any case |
| Device.Family | ipm.py:279 | the family has nine characters exactly when the device has at least seven, and it ends in "xx" |
| Device.FamilyIgnoresCase | ipm.py:279 | the family built from the device as given (CMSIS copy) equals the one built at line 341 from it lower-cased (project file) |
| Device.AcceptedFamily | ipm.py:279 | an accepted device's family is "STM32F", the upper-cased seventh character, and "xx" |
| Device.Macro | ipm.py:352 | character by character: upper case before index 9, lower case from index 9 on, same length |
| Device.MacroIgnoresCase | ipm.py:352 | the macro does not depend on the case the device is given in |
| Device.MacroStartsWithFamily | ipm.py:352 | an accepted device's macro starts with the first seven characters of its family |
| Device.IncludeLine | ipm.py:233 | the line exists exactly when the family name built at line 279 is complete (nine characters), otherwise the error is `IndexError`; for an accepted device the line, lower-cased, includes the lower-cased family header |
| Device.CoreHeader | ipm.py:400-410 | `IndexError` for a short device; a header exactly when the series digit is 0, 1, 2, 3, 4 or 7, and then the one in the table; otherwise "Can not define device core" |
| Device.IncludeNamesFamilyHeader | ipm.py:233 | when the core is known, `main.c` includes the lower-cased family header that the CMSIS copy provides at lines 299-300 |
| ProjectFile.DeviceEdits | ipm.py:351-397 | there are ten device replacements, in source order |
| ProjectFile.ProjectEdits | ipm.py:339-418 | the thirteen replacements are the ten device ones, the core header and the two output names; the core lookup decides whether there is an error |
| ProjectFile.ApplyEditsAppend | ipm.py:351-418 | applying a list of replacements in two parts equals applying the whole list |
| ProjectFile.StaleIncludeEdits | ipm.py:355-383 | for any family other than STM32F4xx, the template include folder is gone after the first four replacements, so the three replacements at lines 372-383 change nothing |
| FolderXml.ParseFolder | ipm.py:463-487 | the loop appends, in listing order, a file element for each kept file and a recursively filled group for each directory; on the first call everything sits in one group named after the folder |
| FolderXml.ChildrenMirrorListing | ipm.py:471-485 | the element tree, read back as folders and files, is the listing with dropped files removed: same nesting, same names, same order |
| FolderXml.PruneNothing | ipm.py:478-485 | without an ignore list no file is dropped |
| FolderXml.TrailingSeparatorDropsAll | ipm.py:479 | an ignore list ending in "/" drops every file |
| FolderXml.SingleSuffix | ipm.py:479 | a single ignore item drops exactly the names ending with it |
| FolderXml.TwoSuffixes | ipm.py:479 | "a/b" drops exactly the names ending with a or with b |
| FolderXml.ChildrenPaths | ipm.py:474-476 | every file element's path is the source root, the folder components from the start position, and the file name |
| FolderXml.AddFolderElements | ipm.py:441 | with the start position of `add_folder`, the files are named `$PROJ_DIR$/../source/<folder name>/...`, where the folder was copied |
| FileStore.Moved | ipm.py:540 | a file rename moves the contents to the target and removes the old name (unless it is the target); other paths keep their contents |
| FileStore.ProjectRenamedState | ipm.py:558-570 | after a project rename: the contents sit at the new name in the same folder, the workspace reference is rewritten, and nothing else changes |
| FileStore.ProjectRenamedReference | ipm.py:567-570 | a workspace that named the old project file names the new one |
| FileStore.CreatedProjectFile | ipm.py:269 | the project file that `Create` renames is the one `ChangeProjectFile` edits at line 344 |
| FileStore.FileSystem.ReplaceTextInFile | ipm.py:588-600 | an existing file gets `text.replace(old, new)`; a directory or a missing path is an error; nothing else changes |
| FileStore.FileSystem.RewriteFile | ipm.py:351-418 | replacements applied one call at a time give the fold over the list; a missing file fails on the first call and changes nothing |
| FileStore.FileSystem.ChangeProjectFile | ipm.py:339-418 | the project file holds the fold of the thirteen replacements; on an unknown series digit it fails holding exactly the first ten |
| FileStore.PlainNameRenameFails | ipm.py:536-542 | on a consistent disk, with a new name that holds no "/", `os.rename` fails exactly when the target is a directory, because the target lies in the renamed file's own folder |
| FileStore.FileSystem.RenameWorkspace | ipm.py:533-546 | the checks in source order with their messages; when `os.rename` fails (the target is a directory, or its folder is missing or not a directory, as with a name holding "/") it exits with "Can not rename"; otherwise the workspace moves to `name + ".eww"` and the disk stays consistent |
| FileStore.FileSystem.RenameProject | ipm.py:552-579 | missing files and wrong extensions fail before anything moves, in source order; when `os.rename` fails (the target is a directory, or its folder is missing or not a directory) it exits with "Can non rename" and nothing moves; otherwise the project moves and the workspace reference is rewritten |
| FileStore.FileSystem.Rename | ipm.py:718-722 | project first, then workspace; if the project step fails, nothing has changed; if the workspace rename fails, the run fails with the project already renamed and the reference rewritten, with no rollback |
| FileStore.RenamedReference | ipm.py:718-722 | after both renames, a workspace that named the old project file sits at its new name and names the new project file, and the project's contents sit at the project's new name |
| FileStore.FileSystem.AddFolderChecks | ipm.py:425-434 | success exactly when the project is an existing ".ewp" file, the folder exists and the project's grandparent folder + "/source/" + the folder's name does not; then the folder path without a trailing "/" and a leading "./", and that destination; otherwise the message of the first check that fails |
| FileStore.FileSystem.AddFolder | ipm.py:424-447 | after the checks, the group appended to the project is the one named after the folder and filled from its listing |

## Left out

- Command-line parsing, help texts and command dispatch (ipm.py:37-209, ipm.py:656-726) are left out. They are argparse glue; the `rename` command's order is modelled as `FileSystem.Rename`.
- Copying and directory creation (`CopyTree`, `MakeDir`, `CopyFile`, the copies in `CopyEWARMFiles` and `CopyCMSISFiles`) are left out. Only the names they derive are modelled: the family, the rename targets and the copy destination.
- `Create` is modelled only in pieces: the device check, the include line, the project file its renames produce, and `ChangeProjectFile`. The existence check on the project folder and the creation of `main.c` are I/O.
- FileStore.FileSystem.AddFolder: it returns the destination and the group instead of copying the folder and writing the project file. lxml parsing, pretty printing and the iso-8859-1 encoding belong to a foreign library.
- `Clean` (ipm.py:504-527) is left out. It deletes files, and it joins paths without a separator (ipm.py:511), so what it deletes depends on the real disk.
- `Exit` does not print or end a process; it is an error value that ends the modelled operation.
- FolderXml.ParseFolder: the listing is a given tree of `Entry` values, in whatever order `os.listdir` returned. Names in it are assumed free of "/" (`WellNamed`), as directory entries are. A path that is neither a file nor a directory (a broken link, say) is not represented, although the source would treat it as a directory.
- Text.Lower: ASCII only. Python's `str.lower`/`str.upper` also map non-ASCII letters, which no STM32 part number contains.
- FileStore.Moved: POSIX `os.rename` of a file. It replaces an existing file. It fails (`RenameFails`) onto a directory, or when the target's folder is missing or is not a directory. Other causes of OSError are not modelled: permissions, a read-only or full file system, a rename across devices. Other operating systems' rename rules are not modelled either.
- FileStore.FileSystem.ReplaceTextInFile: an I/O error in the middle of a write is not modelled. Reading and writing a file always succeed.
- FileStore.FileSystem.ReplaceTextInFile: the map holds decoded text, and the file is rewritten only through `text.replace`. The source opens the file in text mode (ipm.py:591-595): reading decodes with the locale encoding and turns "\r\n" and "\r" into "\n", and writing encodes again, with "\r\n" line ends on Windows. So on disk a file with other line ends changes even when the pattern is absent. Bytes that do not decode raise `UnicodeDecodeError`, which `except IOError` does not catch. None of this is modelled.
- FileStore.FileSystem.Exists: paths are map keys compared as strings. "drivers", "./drivers/" and "a//b" can name the same entry on disk but are different keys here, so the existence checks of `AddFolder`, `RenameProject` and `RenameWorkspace` answer per spelling. Path normalisation is not modelled.
