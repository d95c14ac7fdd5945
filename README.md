# A verified model of a Markdown notes shell

The system is a small Electron notes application. Its main process
(`main.js`) keeps one piece of state, the path of the open vault. It answers
the renderer's IPC requests:

- scanning the vault into a file tree;
- reading, saving, creating and deleting vault files;
- opening and saving a single file outside any vault.

Its renderer (`renderer.js`) keeps the editor session:

- which document is open, either a vault file by relative path or a single
  file by absolute path;
- the editor's text;
- an autosave that is debounced by 2000 ms;
- the view mode, which cycles through split, editor and preview;
- the folder expand toggle;
- the divider drag, with its width guard.

This project models both halves in Dafny and proves what the code promises.

## Layout

- `wrappers.dfy`: `Option`, standing in for JavaScript's `null`.
- `fs.dfy`: the abstract disk.
  - A path is a sequence of segments, so `path.join` is concatenation and
    `path.dirname` drops the last segment.
  - A disk has regular files with contents, directories, other entries
    (symbolic links, devices) and the set of entries on which the operating
    system refuses the operation.
  - `Mkdirp`, `WriteFile`, `ReadFile` and `Unlink` model the `fs` calls with
    their failure cases.
- `scanner.dfy`: `readDirectory`.
  - `ReadDirectory` is a recursive method. Its loop runs over the names
    `readdir` returns, in whatever order the system chooses.
  - Its result is specified by the predicate `ScanOf`, and `ScanUnique` proves
    that a directory has exactly one scan.
  - The comparator and the sort (`Compare`, `SortNodes`) are proved to be a
    total order and a sorted permutation.
- `scanner_example.dfy`: a worked vault, `notes/a.md`, `notes/.git/config`
  and `readme.md`, and the one tree it scans to.
- `main_process.dfy`: the IPC handlers.
  - Each handler is given twice: as a function of the vault path and the disk
    (`SaveFileOp`, …), and as a method of the class `Handlers`.
  - The methods follow the code step by step. Their postconditions tie the
    new state to those functions.
- `debounce.dfy`: the autosave timer as a discrete trace of edits and waits,
  with the burst properties.
- `renderer.dfy`: the class `Session` holding the renderer's module state,
  `FolderItem` for the expand flag, save routing and the view-mode cycle.

## Behaviour worth knowing

- **A failed read does not abort the switch.** `openFile` sets
  `currentFilePath` before it reads (`renderer.js:315-316`). When the read
  gives `null` (`renderer.js:329-333`), the old text stays in the editor but
  the document has already switched. The next autosave therefore writes that
  text into the newly selected file.
  - `Session.OpenFile` states exactly this.
  - No timer is cancelled on a switch, so a pending autosave also fires
    against the new document.
- **Opening a vault keeps the open document.** `openFolder`
  (`renderer.js:212-239`) only selects the folder and reloads the tree. The
  current document, the editor's text and any pending autosave are left as
  they were, and `Session.OpenFolder` leaves them too.
- **`save-file` and `create-file` when one step succeeds and the other fails.**
  If making the missing parent directories succeeds but the write then fails,
  the directories stay. Both functions return that disk.
- **Truthiness.**
  - A relative path that is the empty string is falsy. This is the vault
    itself, `[]`. So `autoSave` and the timer callback skip
    `currentFilePath == ""`.
  - An absolute path is never empty, so for `currentFileFullPath` being set
    is enough.

## Model

| member | source | states |
|---|---|---|
| `Scanner.NameCompare` | main.js:45 | the name order is a three-way comparison that is zero exactly on equal names |
| `Scanner.NameCompareAntisymmetric` | main.js:45 | swapping the names negates the comparison |
| `Scanner.NameCompareTransitive` | main.js:45 | the name order is transitive |
| `Scanner.Compare` | main.js:40-46 | a folder sorts before a file; otherwise siblings compare by name; zero exactly on the same kind and name |
| `Scanner.CompareAntisymmetric` | main.js:40-46 | the comparator is antisymmetric |
| `Scanner.CompareTransitive` | main.js:40-46 | the comparator is transitive, so the sort is well defined |
| `Scanner.SortNodes` | main.js:40 | the sorted list is ordered by the comparator and is a permutation of the unsorted one |
| `Scanner.FoldersBeforeFiles` | main.js:40-46 | in a scanned sibling list every folder precedes every file, and names strictly increase within each kind |
| `Scanner.ReadDir` | main.js:12 | `readdir` fails exactly on a directory that cannot be listed; otherwise it yields each entry's name once |
| `Scanner.ReadDirectory` | main.js:9-47 | the result is a scan of the directory (`ScanOf`): <br>• empty when listing fails; <br>• a folder node for each listed subdirectory not named `.*`, with that subdirectory's scan as children; <br>• a file node for each regular `*.md` file; <br>• nothing else, no name twice, sorted |
| `Scanner.ScanHasTreeShape` | main.js:15-34 | at every depth: <br>• a node's path is its parent's relative path extended by its name; <br>• no folder name starts with `.`; <br>• every file name ends in `.md`; <br>• sibling lists are sorted with distinct names |
| `Scanner.NodeOkShown` | main.js:18-34 | an emitted node stands for an entry that is shown; it is a folder exactly when the entry is a directory |
| `Scanner.UnlistableFolderIsEmpty` | main.js:11-12 | a subdirectory that cannot be listed still appears in its parent's list, with no children: the failure does not propagate |
| `Scanner.ScanUnique` | main.js:9-47 | two scans of the same directory are equal, so the tree does not depend on the order `readdir` uses |
| `ScannerExample.ExampleScan` | main.js:9-47 | the worked vault scans to exactly `[Folder notes [File a.md], File readme.md]`, with `.git` skipped |
| `MainProcess.NoVaultNoEffect` | main.js:135-203 | with no vault: <br>• `read-file` gives `null`; <br>• `save-file`, `create-file` and `delete-file` give `false` and leave the disk unchanged |
| `MainProcess.SaveThenRead` | main.js:154-169 | after a successful `save-file(p, c)` the parent directory exists and `read-file(p)` gives exactly `c` |
| `MainProcess.SaveFileEffect` | main.js:154-169 | a save changes only the file at `p`: <br>• on success it holds `c`; <br>• on failure every file is as it was; <br>• the only directories added are on the way to `p` |
| `MainProcess.SaveFileSucceeds` | main.js:154-169 | on a well-formed disk a save succeeds exactly when the file is creatable: <br>• no prefix of its path is a non-directory; <br>• the path itself is not a directory or another kind of entry; <br>• writing it is not refused |
| `MainProcess.SaveFileKeepsValid` | main.js:159-163 | a save keeps the disk well formed |
| `MainProcess.CreateKeepsExisting` | main.js:178-185 | `create-file` on an existing entry gives `true` and changes nothing, so an existing file keeps its contents |
| `MainProcess.CreateAbsentIsSave` | main.js:172-190 | `create-file` on an absent path does what `save-file` with empty contents does |
| `MainProcess.CreateAbsentMakesEmpty` | main.js:178-185 | `create-file` on an absent path: <br>• succeeds exactly when the file is creatable; <br>• on success adds it, empty, with every other file unchanged; <br>• on failure leaves every file unchanged |
| `MainProcess.CreateFileKeepsValid` | main.js:172-190 | `create-file` keeps the disk well formed |
| `MainProcess.DeleteAbsentFails` | main.js:193-203 | `delete-file` on an absent entry gives `false` and changes nothing |
| `MainProcess.DeleteThenRead` | main.js:193-203 | after a successful `delete-file`, `read-file` gives `null`, and on a well-formed disk the entry is gone |
| `MainProcess.DeleteFileKeepsValid` | main.js:193-203 | `delete-file` keeps the disk well formed |
| `MainProcess.SaveExternalThenRead` | main.js:272-280 | after a successful `save-external-file` the absolute path reads back exactly the text written |
| `MainProcess.SaveExternalKeepsValid` | main.js:272-280 | `save-external-file` keeps the disk well formed |
| `MainProcess.OpenFileReply` | main.js:211-269 | `open-file` gives data exactly when there is a window, the dialog was not cancelled, it returned a path and that file reads; the data carries that path, its contents and its base name |
| `MainProcess.Handlers.constructor` | main.js:6 | at start there is no vault |
| `MainProcess.Handlers.SelectFolder` | main.js:105-132 | gives `null` without a window or when the dialog is cancelled or empty; otherwise gives the first path; `vaultPath` changes only in that case |
| `MainProcess.Handlers.GetVaultPath` | main.js:206-208 | gives the current vault path |
| `MainProcess.Handlers.GetFiles` | main.js:135-138 | `null` exactly when no vault is open; otherwise a scan of the vault |
| `MainProcess.Handlers.ReadFile` | main.js:141-151 | gives `null` without a vault or on a failed read; otherwise the file's contents |
| `MainProcess.Handlers.SaveFile` | main.js:154-169 | reply and new disk are those of `SaveFileOp`; the disk stays well formed |
| `MainProcess.Handlers.CreateFile` | main.js:172-190 | reply and new disk are those of `CreateFileOp`; the disk stays well formed |
| `MainProcess.Handlers.DeleteFile` | main.js:193-203 | reply and new disk are those of `DeleteFileOp`; the disk stays well formed |
| `MainProcess.Handlers.SaveExternalFile` | main.js:272-280 | reply and new disk are those of `SaveExternalFileOp`; the disk stays well formed |
| `MainProcess.Handlers.OpenFile` | main.js:211-269 | the reply is `OpenFileOp`'s and nothing changes |
| `Debounce.RunKeepsSaved` | renderer.js:179-183 | saves already made are never undone by later events |
| `Debounce.NoDocumentNoSave` | renderer.js:180 | with no document open the timeout never saves |
| `Debounce.AtMostOneSavePerEdit` | renderer.js:176-184 | each input causes at most one autosave, plus at most one for a timeout pending at the start |
| `Debounce.QuietDuringBurst` | renderer.js:177-183 | no save happens during edits spaced less than 2000 ms apart; at the end a full 2000 ms is pending, with the last edit's text |
| `Debounce.BurstThenPauseSavesOnce` | renderer.js:176-184 | a burst followed by a pause of at least 2000 ms: <br>• saves exactly once, with the last edit's text, when a document is open; <br>• otherwise does not save |
| `Renderer.RouteFollowsDocument` | renderer.js:388-399 | with at most one document field set: <br>• `autoSave` sends something exactly when the timer callback's guard holds; <br>• it sends `saveFile` for a vault document and `saveExternalFile` for a single file, with the text given |
| `Renderer.DeliverThenRead` | renderer.js:388-399 | a delivered autosave that succeeds leaves its text readable at its target; no call leaves the disk alone |
| `Renderer.IndexOf` | renderer.js:404 | gives the first position of the value, or -1 when it is absent |
| `Renderer.ModesFollowCycle` | renderer.js:403-405 | one step along the mode list, wrapping around, is the cycle split → editor → preview → split |
| `Renderer.ThreeTogglesReturn` | renderer.js:402-407 | three toggles return to the starting mode, and the three visit every mode |
| `Renderer.FolderItem.constructor` | main.js:21-26 | a folder node starts collapsed |
| `Renderer.FolderItem.Toggle` | renderer.js:305-306 | `expanded` is negated, so two toggles restore it |
| `Renderer.Session.constructor` | renderer.js:6-10 | no document is open, the view is split, nothing is being dragged, and no timeout is pending |
| `Renderer.Session.OpenFolder` | renderer.js:212-247 | when a folder is picked, the vault is set to it and the tree is a scan of it; otherwise vault and tree are unchanged; the open document is never touched |
| `Renderer.Session.OpenFile` | renderer.js:314-334 | `currentFilePath` becomes the path and `currentFileFullPath` `null`; the text is replaced only when the read succeeds; at most one document field stays set |
| `Renderer.Session.OpenMarkdownFile` | renderer.js:337-378 | with file data the single file becomes the document, the vault document is cleared and the text is the file's; when cancelled, both fields and the text are unchanged |
| `Renderer.Session.AutoSave` | renderer.js:388-399 | the call sent is the routing of the current fields and the current text; the disk afterwards is the one that call produces |
| `Renderer.Session.Input` | renderer.js:173-184 | the text is the input's, the preview shows it, and a fresh 2000 ms timeout is pending |
| `Renderer.Session.Elapse` | renderer.js:177-183 | the timer advances as in `Debounce.Advance`; when it fires with a document open the autosave is sent, and otherwise nothing is |
| `Renderer.Session.ToggleViewMode` | renderer.js:402-407 | the view mode becomes the next one in the cycle |
| `Renderer.Session.StartDrag` | renderer.js:433-441 | a drag starts, recording the mouse position and pane width, only in split view; otherwise nothing changes |
| `Renderer.Session.Drag` | renderer.js:443-455 | a width is applied only while dragging and only when `200 < newWidth < containerWidth - 200`; an applied width always satisfies that guard |
| `Renderer.Session.StopDrag` | renderer.js:457-462 | dragging stops |

## Left out

- preload.js is not part of this model. It is an IPC relay and the `marked`
  configuration. `parseMarkdown` wraps a library that cannot be seen, so the
  preview is modelled only as the text last handed to it.
- Window creation, the application's life cycle, the console and preload
  error listeners are left out. They have no logic beyond wiring.
- Native dialogs become inputs: whether there is a window, and the dialog's
  result (cancelled or not, and the paths it holds).
- DOM rendering is left out. This covers:
  - the tree's elements and icons;
  - the active-item highlight and the vault name label;
  - the CSS classes of `updateViewMode`;
  - the cursor style;
  - button cloning and listener setup;
  - the start-up polling for the API;
  - all logging and alerts.
- `localeCompare` is modelled as plain lexicographic order of character codes.
  Its locale rules are outside what can be modelled here.
- `path.join` and `path.relative` separator handling is not modelled. Paths
  are sequences of segments, and a vault's relative paths are the segments
  after the vault's own.
- File contents and names are modelled as text (`string`, a sequence of
  Unicode scalar values); the UTF-8 encoding and decoding of `readFile` and
  `writeFile` is not modelled. Two behaviours of the code fall outside the
  model: a file that is not valid UTF-8 is read with U+FFFD replacements,
  which the next autosave writes back, and a lone UTF-16 surrogate in the
  editor's text does not survive a save and a read. `SaveThenRead` and
  `SaveExternalThenRead` hold for the text the model can express.
- Symbolic links are entries of their own kind and are never followed.
  - `readdir` with file types reports them neither as directories nor as
    files, so the scan drops them.
  - `existsSync` would follow a link to a directory, so `save-file` through
    such a link is modelled as failing.
- Permission failures are modelled coarsely. An entry can refuse the
  operation aimed at it (listing, reading, writing, unlinking), while making
  directories never fails for permissions.
- Asynchrony is not modelled:
  - every awaited call runs to completion before the next event;
  - a `select-folder` that lands in the middle of a scan is not modelled;
  - nor are two overlapping autosaves.
- Wall-clock timers become `Wait` events of whole milliseconds.
- The percentage written into the pane's `flex` style in `drag` is floating
  point. It is recorded only as the pair of widths it is computed from.
- The `try`/`catch` blocks around dialogs in `select-folder` and `open-file`
  only turn a dialog failure into `null`. That failure is not among the
  modelled inputs.
