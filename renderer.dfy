/**
 * The editor session of renderer.js: which document is open, the editor's
 * text, the autosave routing and debounce, the view-mode cycle, the folder
 * toggle and the divider drag.
 *
 * The renderer reaches the main process over IPC; here a `Session` holds a
 * reference to the `Handlers` object and calls its methods directly, one
 * awaited call at a time.
 */
module Renderer {
  import opened Wrappers
  import opened Fs
  import opened Scanner
  import opened Debounce
  import opened MainProcess

  // ---------------------------------------------------------------------------
  // Autosave routing
  // ---------------------------------------------------------------------------

  /**
   * JavaScript truthiness of a relative path: not `null` and not the empty
   * string. An absolute path is never the empty string (the file system's
   * root is `[]`), so for those being set is enough.
   */
  predicate Truthy(p: Option<Path>) {
    p.Some? && p.value != []
  }

  /** The timer callback's guard, `currentFilePath || currentFileFullPath`. */
  predicate DocumentOpen(filePath: Option<Path>, fullPath: Option<Path>) {
    Truthy(filePath) || fullPath.Some?
  }

  /** The call `autoSave` makes: `saveFile` for a vault document, `saveExternalFile` for a single file. */
  datatype SaveCall = NoSave | VaultSave(path: Path, content: string) | ExternalSave(path: Path, content: string)

  function Route(filePath: Option<Path>, fullPath: Option<Path>, content: string): SaveCall {
    if Truthy(filePath) then VaultSave(filePath.value, content)
    else if fullPath.Some? then ExternalSave(fullPath.value, content)
    else NoSave
  }

  /** The disk after the main process has handled `call`. */
  function Deliver(vault: Option<Path>, d: Disk, call: SaveCall): Disk {
    match call
    case NoSave => d
    case VaultSave(p, c) => SaveFileOp(vault, d, p, c).disk
    case ExternalSave(p, c) => SaveExternalFileOp(d, p, c).disk
  }

  /**
   * `autoSave` sends something exactly when the timer callback's guard holds,
   * so a timeout that fires with a document open saves once; with at most one
   * document field set, the call goes to that document with the given text.
   */
  lemma RouteFollowsDocument(filePath: Option<Path>, fullPath: Option<Path>, content: string)
    requires filePath.None? || fullPath.None?
    ensures Route(filePath, fullPath, content) != NoSave <==> DocumentOpen(filePath, fullPath)
    ensures Truthy(filePath) ==> Route(filePath, fullPath, content) == VaultSave(filePath.value, content)
    ensures fullPath.Some? ==> Route(filePath, fullPath, content) == ExternalSave(fullPath.value, content)
    ensures !DocumentOpen(filePath, fullPath) ==> Route(filePath, fullPath, content) == NoSave
  {
  }

  /** A delivered call that succeeds leaves its text readable at its target. */
  lemma DeliverThenRead(vault: Option<Path>, d: Disk, call: SaveCall)
    requires call.VaultSave? ==> SaveFileOp(vault, d, call.path, call.content).ok
    requires call.ExternalSave? ==> SaveExternalFileOp(d, call.path, call.content).ok
    ensures call.VaultSave? ==> ReadFileOp(vault, Deliver(vault, d, call), call.path) == Some(call.content)
    ensures call.ExternalSave? ==> ReadFile(Deliver(vault, d, call), call.path) == Some(call.content)
    ensures call == NoSave ==> Deliver(vault, d, call) == d
  {
    match call
    case NoSave =>
    case VaultSave(p, c) =>
      assert vault.Some?;
      SaveThenRead(vault.value, d, p, c);
    case ExternalSave(p, c) =>
      SaveExternalThenRead(d, p, c);
  }

  // ---------------------------------------------------------------------------
  // View modes
  // ---------------------------------------------------------------------------

  datatype ViewMode = Split | EditorOnly | PreviewOnly

  /** The modes in the order `toggleViewMode` lists them. */
  const Modes: seq<ViewMode> := [Split, EditorOnly, PreviewOnly]

  /** `Array.prototype.indexOf`: the first position of `x`, or -1. */
  function IndexOf<T(==)>(s: seq<T>, x: T): (r: int)
    ensures -1 <= r < |s|
    ensures r >= 0 ==> s[r] == x && x !in s[..r]
    ensures r < 0 ==> x !in s
    decreases |s|
  {
    if |s| == 0 then -1
    else if s[0] == x then 0
    else
      var r := IndexOf(s[1..], x);
      assert r >= 0 ==> s[..r + 1] == [s[0]] + s[1..][..r];
      assert s == [s[0]] + s[1..];
      if r < 0 then -1 else r + 1
  }

  /** The cycle split, editor, preview, split. */
  function Next(m: ViewMode): ViewMode {
    match m
    case Split => EditorOnly
    case EditorOnly => PreviewOnly
    case PreviewOnly => Split
  }

  /** Moving one place along `Modes`, wrapping around, is the cycle. */
  lemma ModesFollowCycle(m: ViewMode)
    ensures Modes[(IndexOf(Modes, m) + 1) % |Modes|] == Next(m)
  {
    assert m in Modes;
    var i := IndexOf(Modes, m);
    assert Modes[..0] == [] && Modes[..1] == [Split] && Modes[..2] == [Split, EditorOnly];
    assert m == Split ==> i == 0;
    assert m == EditorOnly ==> i == 1;
    assert m == PreviewOnly ==> i == 2;
  }

  /** Three toggles return to the starting mode, and every mode is visited on the way. */
  lemma ThreeTogglesReturn(m: ViewMode)
    ensures Next(Next(Next(m))) == m
    ensures {m, Next(m), Next(Next(m))} == {Split, EditorOnly, PreviewOnly}
  {
  }

  // ---------------------------------------------------------------------------
  // The divider
  // ---------------------------------------------------------------------------

  /** The narrowest either pane may become, in pixels. */
  const MinPane: int := 200

  /** The guard in `drag`: the editor pane and the preview pane both keep more than `MinPane`. */
  predicate WidthAllowed(newWidth: int, containerWidth: int) {
    MinPane < newWidth < containerWidth - MinPane
  }

  /**
   * The editor pane's `flex`: as laid out by the stylesheet, or fixed at the
   * share `width / container` of the container.
   */
  datatype PaneWidth = Flexible | Fixed(width: int, container: int)

  predicate PaneOk(w: PaneWidth) {
    w.Fixed? ==> WidthAllowed(w.width, w.container)
  }

  // ---------------------------------------------------------------------------
  // The session
  // ---------------------------------------------------------------------------

  /** A folder node of the file tree with the `expanded` flag the renderer adds to it. */
  class FolderItem {
    const node: TreeNode
    var expanded: bool

    /** A node starts with `expanded` undefined, which reads as false. */
    constructor (node: TreeNode)
      requires node.Folder?
      ensures this.node == node && !expanded
    {
      this.node := node;
      expanded := false;
    }

    /** `toggleFolder` */
    method Toggle()
      modifies this`expanded
      ensures expanded == !old(expanded)
    {
      expanded := !expanded;
    }
  }

  class Session {
    /** The open vault document, relative to the vault. */
    var currentFilePath: Option<Path>
    /** The open single file, as an absolute path. */
    var currentFileFullPath: Option<Path>
    var fileTreeData: Option<seq<TreeNode>>
    /** `markdownInput.value` */
    var buffer: string
    /** The text last handed to `parseMarkdown` by `updatePreview`. */
    var rendered: string
    var viewMode: ViewMode
    var isDragging: bool
    var startX: int
    var startWidth: int
    var pane: PaneWidth
    /** The closure variable `saveTimeout`. */
    var saveTimeout: Timer

    /**
     * At most one document field is set, the preview shows the editor's text,
     * and a fixed pane width passed the drag guard.
     */
    ghost predicate Valid()
      reads this
    {
      && (currentFilePath.None? || currentFileFullPath.None?)
      && rendered == buffer
      && PaneOk(pane)
    }

    constructor ()
      ensures Valid()
      ensures currentFilePath == None && currentFileFullPath == None && fileTreeData == None
      ensures buffer == "" && viewMode == Split && !isDragging && startX == 0 && startWidth == 0
      ensures pane == Flexible && saveTimeout == Idle
    {
      currentFilePath := None;
      currentFileFullPath := None;
      fileTreeData := None;
      buffer := "";
      rendered := "";
      viewMode := Split;
      isDragging := false;
      startX := 0;
      startWidth := 0;
      pane := Flexible;
      saveTimeout := Idle;
    }

    /**
     * `openFolder`: select a folder and load its tree. The open document,
     * the editor's text and any pending autosave stay as they were.
     */
    method OpenFolder(main: Handlers, hasWindow: bool, r: DialogResult)
      requires Valid()
      modifies this`fileTreeData, main`vaultPath
      ensures Valid()
      ensures Picked(hasWindow, r).Some? ==>
                && main.vaultPath == Picked(hasWindow, r)
                && fileTreeData.Some?
                && ScanOf(main.disk, main.vaultPath.value, [], fileTreeData.value)
      ensures Picked(hasWindow, r).None? ==>
                main.vaultPath == old(main.vaultPath) && fileTreeData == old(fileTreeData)
    {
      var folderPath := main.SelectFolder(hasWindow, r);
      if folderPath.Some? {
        fileTreeData := main.GetFiles();
      }
    }

    /**
     * `openFile` from the tree: the document switches to `p` before the read,
     * and the editor's text is replaced only when the read succeeds.
     */
    method OpenFile(main: Handlers, p: Path)
      requires Valid()
      modifies this`currentFilePath, this`currentFileFullPath, this`buffer, this`rendered
      ensures Valid()
      ensures currentFilePath == Some(p) && currentFileFullPath == None
      ensures ReadFileOp(main.vaultPath, main.disk, p).Some? ==>
                buffer == ReadFileOp(main.vaultPath, main.disk, p).value
      ensures ReadFileOp(main.vaultPath, main.disk, p).None? ==> buffer == old(buffer)
    {
      currentFilePath := Some(p);
      currentFileFullPath := None;
      var content := main.ReadFile(p);
      if content.Some? {
        buffer := content.value;
        rendered := buffer;
      }
    }

    /**
     * `openMarkdownFile`: with file data the single file becomes the document
     * and the editor shows its contents; a cancelled dialog changes nothing.
     */
    method OpenMarkdownFile(main: Handlers, hasWindow: bool, r: DialogResult)
      requires Valid()
      modifies this`currentFilePath, this`currentFileFullPath, this`buffer, this`rendered
      ensures Valid()
      ensures OpenFileOp(hasWindow, r, main.disk).Some? ==>
                var data := OpenFileOp(hasWindow, r, main.disk).value;
                currentFileFullPath == Some(data.path) && currentFilePath == None && buffer == data.content
      ensures OpenFileOp(hasWindow, r, main.disk).None? ==>
                currentFilePath == old(currentFilePath) && currentFileFullPath == old(currentFileFullPath)
                && buffer == old(buffer)
    {
      var fileData := main.OpenFile(hasWindow, r);
      if fileData.Some? {
        currentFileFullPath := Some(fileData.value.path);
        currentFilePath := None;
        buffer := fileData.value.content;
        rendered := buffer;
      }
    }

    /** `autoSave` (also bound to Ctrl+S): send the editor's text as it is now to the open document. */
    method AutoSave(main: Handlers) returns (call: SaveCall)
      requires main.Valid()
      modifies main`disk
      ensures main.Valid()
      ensures call == Route(currentFilePath, currentFileFullPath, buffer)
      ensures main.disk == Deliver(main.vaultPath, old(main.disk), call)
    {
      var content := buffer;
      if Truthy(currentFilePath) {
        var _ := main.SaveFile(currentFilePath.value, content);
        call := VaultSave(currentFilePath.value, content);
      } else if currentFileFullPath.Some? {
        var _ := main.SaveExternalFile(currentFileFullPath.value, content);
        call := ExternalSave(currentFileFullPath.value, content);
      } else {
        call := NoSave;
      }
    }

    /** An `input` event: the preview is refreshed and the autosave timeout re-armed. */
    method Input(text: string)
      requires Valid()
      modifies this`buffer, this`rendered, this`saveTimeout
      ensures Valid()
      ensures buffer == text && saveTimeout == Arm()
    {
      buffer := text;
      rendered := buffer;
      saveTimeout := Arm();
    }

    /**
     * `ms` milliseconds pass: when the timeout runs out and a document is
     * open, the callback autosaves. This is `Debounce.Step` on the session.
     */
    method Elapse(main: Handlers, ms: nat) returns (call: SaveCall)
      requires main.Valid()
      modifies this`saveTimeout, main`disk
      ensures main.Valid()
      ensures saveTimeout == Advance(old(saveTimeout), ms).timer
      ensures call == if Advance(old(saveTimeout), ms).fired && DocumentOpen(currentFilePath, currentFileFullPath)
                      then Route(currentFilePath, currentFileFullPath, buffer) else NoSave
      ensures main.disk == Deliver(main.vaultPath, old(main.disk), call)
    {
      var tick := Advance(saveTimeout, ms);
      saveTimeout := tick.timer;
      if tick.fired && (Truthy(currentFilePath) || currentFileFullPath.Some?) {
        call := AutoSave(main);
      } else {
        call := NoSave;
      }
    }

    /** `toggleViewMode`: the next mode after the current one in `Modes`. */
    method ToggleViewMode()
      requires Valid()
      modifies this`viewMode
      ensures Valid()
      ensures viewMode == Next(old(viewMode))
    {
      ModesFollowCycle(viewMode);
      var currentIndex := IndexOf(Modes, viewMode);
      viewMode := Modes[(currentIndex + 1) % |Modes|];
    }

    /** `startDrag`: only the split view has a divider to drag. */
    method StartDrag(clientX: int, paneOffsetWidth: int)
      requires Valid()
      modifies this`isDragging, this`startX, this`startWidth
      ensures Valid()
      ensures viewMode == Split ==> isDragging && startX == clientX && startWidth == paneOffsetWidth
      ensures viewMode != Split ==>
                isDragging == old(isDragging) && startX == old(startX) && startWidth == old(startWidth)
    {
      if viewMode != Split {
        return;
      }
      isDragging := true;
      startX := clientX;
      startWidth := paneOffsetWidth;
    }

    /** `drag`: while dragging, a new width is applied only when it passes the guard. */
    method Drag(clientX: int, containerWidth: int)
      requires Valid()
      modifies this`pane
      ensures Valid()
      ensures var newWidth := startWidth + (clientX - startX);
              pane == if isDragging && WidthAllowed(newWidth, containerWidth)
                      then Fixed(newWidth, containerWidth) else old(pane)
    {
      if !isDragging {
        return;
      }
      var deltaX := clientX - startX;
      var newWidth := startWidth + deltaX;
      if newWidth > MinPane && newWidth < containerWidth - MinPane {
        pane := Fixed(newWidth, containerWidth);
      }
    }

    /** `stopDrag` */
    method StopDrag()
      requires Valid()
      modifies this`isDragging
      ensures Valid()
      ensures !isDragging
    {
      if isDragging {
        isDragging := false;
      }
    }
  }
}
