# Swish kernel: a verified model

Swish is a small single-core kernel written in C++. This project models its stateful parts in Dafny
and proves what they keep over whole runs:

* **the kernel heap**: first fit over headers that live in the memory they describe (`HeapSpec`, `HeapLaws`,
  `KernelHeap`, `HeapData`, on top of `Bytes`);
* **the virtual file system**: a path walker over a mutable node graph with parents and mounts, and the shell
  commands that extend the graph (`Words`, `Paths`, `VfsGraph`, `VfsCreate`, `Vfs`), and the RAM files in it
  (`Vector`, `RamFile`);
* **the input pipeline**: rings shared with interrupt handlers (`RingBuffer`, `RingMachine`), the scancode decoder
  and line buffer (`LineEditor`, `KeyboardLaws`, `KeyboardInput`), the pointer (`Mouse`);
* **the windows**: the scrolling character grid (`Transcript`, `Window`), the window that runs a shell
  (`Tokenizer`, `TerminalWindow`), the z-order list and dragging (`DragSpec`, `DragLaws`, `Compositor`);
* **`memcpy` and `memmove`** in 32, 8 and 1 byte steps (`WordCopy`).

Code that changes state in place is a class over arrays and linked objects; each of its methods is proved against
a specification over values, and the laws are lemmas about that specification.

How the main results are put:

* The heap is judged by the client's view, the set of live blocks. `kmalloc` and `kfree` are specified only by what
  they do to that set and by where a request fits between live blocks; `Canonical` shows that the live set alone
  determines the whole header chain, so these contracts leave no freedom, frees commute, a free undoes its malloc,
  and freeing everything in any order gives the initial heap back.
* A path means the fold of its names over the graph (`Descend` over `Names`); the walker refines it, and joining
  paths is composing walks.
* The ring machine lets a producer and a consumer interleave single reads and writes; its runs are runs of an atomic
  bounded queue, whichever of `head` and `tail` the consumer reads first in `head == tail`.
* The text of a window is defined by cutting at newlines and wrapping at the width, without a grid or cursor; the
  grid shows its last rows.
* The line editor is a fold over the scancode stream without buffers, flags or batches, in which the shell evaluates
  a line at its Enter; two commands matter to it, `display`, which sends keys to the windows, and `exit`.

Where the code does not meet a property for all inputs, the exact condition is proved:

* `align_8` wraps around for sizes within 7 of 2^64; a granted block covers the request exactly when it does not
  (`GrantCoversRequestIff`).
* `vfs_mount` overwrites the parent of the mounted directory. `..` stays the inverse of every step down exactly when
  the steps onto the mountpoint and onto the mounted directory all start at the mountpoint's parent, or the two are
  the same (`MountUpIff`, and `RunUpIff` for whole runs); `MountOfChildMisleadsUp` is an input where `..` goes wrong. Parents and holders
  agree exactly when that directory had no parent, or the mountpoint itself (`MountLinkedIff`, `RunLinkedIff`), which
  is more than `..` needs (`MountOnSiblingKeepsUp`).
* `touch` and `mkdir` with a last part that is empty, `.` or `..` make a node that the path does not lead to
  (`CreateResolvesIff`).
* A release ends a drag exactly when the pointer is not left of or above the grab offset (`ReleaseEndsDragIff`).
* The clamp of the pointer's y coordinate assigns x; the pointer is on the screen exactly when the movement does not
  take it below the bottom edge (`PointerOnScreenIff`).
* Keys drained behind an Enter in the same batch are there before its line is fetched. One round equals the ideal
  editor exactly when they do no harm (`RoundIsTypeIff`, and `AlwaysAgreesIff` for all drains): if the shell stays, they
  finish no line, end on the terminal, and erase all that they typed and, unless the line was empty, no more; if it goes
  to the windows, they mean nothing; if it is left, they send nothing to the windows and leave the line as it was.
  `KeyBehindEnterJoinsLine` and `ErasedBehindEnterIsHarmless` are inputs of both kinds.

Strings are the characters before the terminating NUL. Nothing here is run; `dafny verify dfyconfig.toml` checks it.

## Model

| member | source | states |
|---|---|---|
| Bytes.DecodeEncode | src/kernel/memory.cpp:61-65 | a 64-bit field written to memory is read back unchanged |
| Bytes.EncodeDecode | src/kernel/memory.cpp:61-65 | every eight bytes are the encoding of the field read from them |
| HeapSpec.FitsInOneBlock | src/kernel/memory.cpp:95-121 | without adjacent free blocks, any stretch of bytes clear of live blocks lies in one free block |
| HeapSpec.Canonical | src/kernel/memory.cpp:134-145 | two tilings without adjacent free blocks and with the same live blocks are the same block list |
| HeapLaws.AllocDeterministic | src/kernel/memory.cpp:88-125 | pointer and resulting heap of `kmalloc` are fixed by the heap and the size asked for |
| HeapLaws.FreeDeterministic | src/kernel/memory.cpp:127-146 | the heap after `kfree` is fixed by the heap before and the pointer |
| HeapLaws.AllocFailsIffFitsNowhere | src/kernel/memory.cpp:95-124 | for a size above 0, null is returned exactly when header and aligned payload fit nowhere between live blocks |
| HeapLaws.GrantCoversRequestIff | src/kernel/memory.cpp:71-73 | the granted size is at least the request exactly when `align_8` does not wrap, and then exceeds it by less than 39 |
| HeapLaws.FreeUndoesAlloc | src/kernel/memory.cpp:88-146 | freeing what `kmalloc` just returned restores exactly the previous block list |
| HeapLaws.FreesCommute | src/kernel/memory.cpp:127-146 | two frees give the same block list in either order |
| HeapLaws.ReachableHeap | src/kernel/memory.cpp:75-146 | every heap reached from `init_heap` is tiled exactly, accounts for every byte, has no adjacent free blocks, and its live blocks are disjoint and 8-aligned from the heap start |
| HeapLaws.HistoryIndependent | src/kernel/memory.cpp:75-146 | runs that end with the same live blocks end with the same header chain |
| HeapLaws.FreeAllRestoresInitial | src/kernel/memory.cpp:127-146 | freeing all live blocks in any order restores the single block of `init_heap` |
| KernelHeap.FirstFitIsLowest | src/kernel/memory.cpp:95-99 | the first fitting block of the list is the lowest address at which the request fits |
| KernelHeap.GrantedFrom | src/kernel/memory.cpp:96-119 | splitting or taking the first fitting block meets the contract of `kmalloc`: lowest fit, less than 32 bytes over, the rest free |
| KernelHeap.KernelHeap.constructor | src/kernel/memory.cpp:75-86 | `init_heap` writes one free block over the whole heap, or leaves the list empty when no header fits |
| KernelHeap.KernelHeap.FirstFit | src/kernel/memory.cpp:92-121 | the search returns the first free block of at least the aligned size, and null only past the end |
| KernelHeap.KernelHeap.Split | src/kernel/memory.cpp:100-114 | the split writes a header inside the block and leaves a header chain of the cut list; no byte outside the block changes |
| KernelHeap.KernelHeap.Malloc | src/kernel/memory.cpp:88-125 | null exactly if it fits nowhere, else the lowest fit becomes live; headers in memory stay a sound chain; no byte of a live payload changes |
| KernelHeap.KernelHeap.Coalesce | src/kernel/memory.cpp:136-145 | one sweep leaves no adjacent free blocks, the same live blocks, a sound chain, and all live payloads untouched |
| KernelHeap.KernelHeap.Free | src/kernel/memory.cpp:127-146 | exactly the block of the pointer stops being live; no byte of another live payload changes |
| KernelHeap.KernelHeap.Poke | src/kernel/memory.cpp:116-118 | a client's write into its own payload disturbs no header |
| HeapData.DataSurvives | src/kernel/memory.cpp:88-146 | over any run of calls and of writes to other blocks, the bytes of a block that stays live are what they were |
| WordCopy.CopiedIsSplice | src/libc/memmove.cpp:6-45 | the result is the memory with exactly the destination replaced by the former bytes of the source |
| WordCopy.ExtendForward | src/libc/memcpy.cpp:20-40 | copying upwards never reads a byte it has overwritten when the destination is below the source or apart from it |
| WordCopy.ExtendBackward | src/libc/memmove.cpp:17-41 | copying downwards never reads a byte it has overwritten when the destination is above the source |
| WordCopy.Memcpy | src/libc/memcpy.cpp:12-42 | for disjoint ranges and for a destination below an overlapping source: a copy through a temporary, everything else unchanged |
| WordCopy.Memmove | src/libc/memmove.cpp:6-45 | for every length and overlap: a copy through a temporary, everything else unchanged; null pointers change nothing |
| RingBuffer.PendingPush | src/drivers/input/ring_buffer.cpp:6-9 | moving `head` past a written slot appends its item to the pending ones, across the wrap |
| RingBuffer.PendingPop | src/drivers/input/ring_buffer.cpp:15-16 | moving `tail` removes the oldest pending item, across the wrap |
| RingBuffer.RingBuffer.Push | src/drivers/input/ring_buffer.cpp:5-11 | appends unless 255 items are pending, and says which |
| RingBuffer.RingBuffer.Pop | src/drivers/input/ring_buffer.cpp:13-18 | removes and returns the oldest item unless there is none |
| RingMachine.ProducerSimulates | src/drivers/input/ring_buffer.cpp:5-11 | each single access of `push` keeps the invariant and is one step, or none, of an atomic queue |
| RingMachine.ConsumerSimulates | src/drivers/input/ring_buffer.cpp:13-18 | each single access of `pop` keeps the invariant and is one step, or none, of an atomic queue |
| RingMachine.PushAlone | src/drivers/input/ring_buffer.cpp:5-11 | six undisturbed accesses of `push`, or three if 255 items are pending, do what the method does in one |
| RingMachine.PopAlone | src/drivers/input/ring_buffer.cpp:13-18 | seven undisturbed accesses of `pop`, or three if nothing is pending, do what the method does in one |
| RingMachine.Linearizable | src/drivers/input/ring_buffer.cpp:5-33 | under every interleaving the visible steps are a run of the atomic queue of capacity 255; a refusal happens only with 255 items pending |
| RingMachine.Fifo | src/drivers/input/ring_buffer.cpp:5-33 | at every moment, accepted values are the popped ones followed by the pending ones, in order |
| RingMachine.NeverOverwrites | src/drivers/input/ring_buffer.cpp:8 | the slot about to be written holds no item that is still to be read |
| RingMachine.EmptyReturnWasEmpty | src/drivers/input/ring_buffer.cpp:14 | `pop` returns false exactly when the queue was empty at its read of `head`, be that the first read or the second |
| Words.WordsAppend | src/kernel/fs.cpp:105-111 | cutting a string in front of a separator cuts its list of words |
| Words.WordsCover | src/kernel/fs.cpp:105-111 | words are non-empty, free of separators, and together are all other characters in order |
| VfsGraph.DescendAppend | src/kernel/fs.cpp:101-134 | following a list of names is following its first part and then its second |
| VfsGraph.ResolveJoin | src/kernel/fs.cpp:91-137 | resolving p/q is resolving q from where p leads, for any graph, missing nodes and non-directories included |
| VfsGraph.ResolveAbsolute | src/kernel/fs.cpp:94-99 | a path that starts with a slash means, from everywhere, what its rest means from the root |
| VfsGraph.ResolveExtraSlash | src/kernel/fs.cpp:111 | slashes at the end and repeated slashes make no difference |
| VfsGraph.ResolveDot | src/kernel/fs.cpp:92-113 | the empty path leads nowhere, and a single dot stays |
| VfsGraph.ResolvePastFile | src/kernel/fs.cpp:101-136 | what follows a file or a missing node is not looked at |
| VfsGraph.FindFirst | src/kernel/ramfs.cpp:33-38 | a lookup finds the first child of the name |
| VfsGraph.EnterChild | src/kernel/fs.cpp:114-133 | a name leads to the child, or to what is mounted on it; `..` leads to the parent, and nowhere from a directory without one |
| VfsGraph.UpUndoesEnter | src/kernel/fs.cpp:114-133 | in a linked graph `..` takes back every one-name descent that lands on a directory, mounts included |
| VfsGraph.ResolveUpUndoesName | src/kernel/fs.cpp:91-137 | so name/.. resolves to the directory it started from |
| VfsGraph.MountUp | src/kernel/fs.cpp:114-124 | after a mount `..` leads from the mounted directory to the mountpoint's parent, and from all others where it led |
| VfsGraph.MountRefusedIff | src/kernel/fs.cpp:171-174 | a mount leaves the graph as it is exactly if one of the two nodes is no directory |
| VfsGraph.MountChanges | src/kernel/fs.cpp:176-179 | otherwise it changes flags and target of the mountpoint, the parent of the source, and nothing else |
| VfsGraph.MountUpIff | src/kernel/fs.cpp:171-182 | a mount keeps `..` the inverse of steps down exactly when all steps onto mountpoint and mounted directory start at the mountpoint's parent |
| VfsGraph.LinkedMountUpIff | src/kernel/fs.cpp:171-182 | in a linked graph only the steps onto the mounted directory matter for that |
| VfsGraph.MountLinkedIff | src/kernel/fs.cpp:171-182 | a mount keeps parents and holders consistent exactly when the source had no parent, or the mountpoint itself |
| VfsGraph.MountKeepsInside | src/kernel/fs.cpp:171-182 | walks that stay off the mountpoint and do not climb out of the source mean the same after a mount |
| VfsGraph.MountTransplants | src/kernel/fs.cpp:131-133 | after a mount on entry n, n/q means what q meant from the mounted directory before |
| VfsCreate.ResolveSplit | src/kernel/fs.cpp:139-169 | a path leads where its split-off name leads from its directory part |
| VfsCreate.SplitRejoins | src/kernel/fs.cpp:139-169 | the name is what follows the last slash, and the directory part what precedes it, cut to 255 characters |
| VfsCreate.CreateLinked | src/kernel/Shell.cpp:217-228 | creating an absent entry keeps parents consistent and sibling names unique |
| VfsCreate.CreateIsMonotone | src/kernel/Shell.cpp:203-259 | every path that led to a node, from any directory, still leads to it after a creation |
| VfsCreate.CreateResolvesIff | src/kernel/Shell.cpp:203-259 | the created node is found under its path exactly when the last part is not empty, `.` or `..` |
| VfsCreate.RunKeepsNames | src/kernel/Shell.cpp:203-287 | over every run of creations and mounts, of any node on any other, sibling names stay unique |
| VfsCreate.RunUpIff | src/kernel/Shell.cpp:203-287 | over a run `..` is always the inverse of a step down exactly when each of its mounts keeps it so |
| VfsCreate.RunLinkedIff | src/main.cpp:155-171 | over a run parents and holders always agree exactly when each mounted directory had no parent, or the mountpoint itself |
| VfsCreate.RunKeepsPaths | src/kernel/Shell.cpp:203-259 | over any stretch of a run without mounts, paths that lead to a node keep leading to it |
| VfsCreate.MountOfChildMisleadsUp | src/kernel/Shell.cpp:261-287 | a mount the shell permits after which `..` leads from a child to a directory that is not its holder |
| VfsCreate.MountOnSiblingKeepsUp | src/kernel/Shell.cpp:261-287 | a mount after which parents and holders disagree, while `..` still takes back every step down |
| Vfs.SplitPathInto | src/kernel/fs.cpp:139-169 | the backward scan finds the last slash and cuts both parts to their buffers |
| Vfs.TakeSegment | src/kernel/fs.cpp:102-109 | the copying loop takes exactly the characters up to the next slash and stays in its buffer |
| Vfs.FileSystem.Lookup | src/kernel/ramfs.cpp:33-38 | the first child of that name, null if there is none or the node is no directory |
| Vfs.FileSystem.ResolvePath | src/kernel/fs.cpp:91-137 | the walk over the heap terminates with the node that the names of the path lead to, if the names it takes fit their buffer |
| Vfs.FileSystem.AddChild | src/kernel/fs.cpp:77-81 | a directory gets the node as its last child, any other node leaves everything as it is |
| Vfs.AttachChanges | src/kernel/fs.cpp:77-81 | exactly the child list of the directory and the parent of the child change |
| Vfs.FileSystem.MountAt | src/kernel/fs.cpp:171-182 | exactly flags and target of the mountpoint and the parent of the source change, if both are directories |
| Vfs.FileSystem.MakeEntry | src/kernel/Shell.cpp:203-259 | makes a fresh node under the directory part if that is a directory without such an entry, else changes nothing |
| Vfs.MakesResolves | src/kernel/Shell.cpp:203-259 | a node is made exactly if its directory exists and has no child of that name; it has the kind and name asked for, and its path leads to it if the name is a real one |
| Vfs.MakesKeepsPaths | src/kernel/Shell.cpp:203-259 | every path that led to a node before still does |
| Vfs.FileSystem.MakeEntries | src/kernel/Shell.cpp:203-259 | does so for one argument after the other, each on the graph the last one left |
| Vfs.FileSystem.ChangeDirectory | src/kernel/Shell.cpp:124-156 | the current directory becomes the path's node exactly if that is a directory |
| Vfs.FileSystem.Boot | src/main.cpp:155-173 | the root holds a file and a mountpoint for the second root, and the shell starts in the root |
| Vfs.BootedLinked | src/main.cpp:155-171 | that graph is linked, `mnt` leads to the second root, and `..` leads back |
| Vfs.BootedPaths | src/main.cpp:155-173 | in that graph `/mnt`, `/test.txt` and `/` lead to the same places from everywhere |
| Vfs.FileSystem.MountCommand | src/kernel/Shell.cpp:261-287 | mounts the first path's node on the second's unless they are the same node or no directories |
| Transcript.LinesSnoc | src/gui/Window.cpp:35-65 | wrapping whole paragraphs gives the same lines as typing character by character with an eager wrap |
| Transcript.WrapCovers | src/gui/Window.cpp:58-64 | the lines of a paragraph are all of it, full but for the last |
| Transcript.LinesJoin | src/gui/Window.cpp:38-43 | a newline ends a line, and what follows it is wrapped by itself |
| Window.OffsetIsProduct | src/gui/Window.cpp:58 | cell (i, j) of the flat grid is at index i * cols + j |
| Window.TypeShows | src/gui/Window.cpp:58-59 | a character short of the edge extends the last line shown |
| Window.WrapShows | src/gui/Window.cpp:58-64 | a character that fills its row opens a new line, scrolling if there is no row left |
| Window.NewlineShows | src/gui/Window.cpp:38-43 | a newline opens a new line, scrolling if there is no row left |
| Window.Window.ScrollForward | src/gui/Window.cpp:67-73 | below the last row, all rows move up by one and the last becomes NUL |
| Window.RowLength | src/gui/Window.cpp:49-53 | the end of a row is its first NUL or the right edge |
| Window.Window.InjectBackspace | src/gui/Window.cpp:45-56 | blanks the character before the cursor, or goes up to the end of the row above |
| Window.Window.InjectBehindRow | src/gui/Window.cpp:58-63 | a character typed at column `cols` lands in the first cell of the next row, inside the grid |
| Window.Window.InjectKey | src/gui/Window.cpp:35-65 | every key keeps the cursor in bounds (x = cols only above the last row), and without backspaces the grid shows exactly the last rows of the wrapped text |
| Tokenizer.TrailingSpaces | src/kernel/Shell.cpp:77-94 | blanks behind a command do not change its arguments |
| Tokenizer.Tokenize | src/kernel/Shell.cpp:66-94 | the arguments are the first 16 words, each cut to 255 characters |
| TerminalWindow.PressedClear | src/gui/Window.cpp:58-73 | keys other than backspace leave the grid clear behind and below the cursor |
| TerminalWindow.EditType | src/gui/Window.cpp:58-59 | a typed character extends the line held in the grid |
| TerminalWindow.EditBack | src/gui/Window.cpp:45-47 | backspace shortens the line and leaves one more blank behind it |
| TerminalWindow.TerminalWindow.Print | src/gui/TerminalWindow.cpp:34-38 | any text is appended to that of the window; text without backspace keeps the cursor left of the right edge |
| TerminalWindow.TerminalWindow.ReadCommand | src/gui/TerminalWindow.cpp:11-13 | the command is what stands in the row from behind the prompt to the first NUL or the edge; short of the edge it is the edited line and the blanks of backspaces |
| TerminalWindow.TerminalWindow.InjectKey | src/gui/TerminalWindow.cpp:23-27 | the line in the grid follows the ideal editor as long as the right edge is not reached; backspace never enters the prompt, and every other key reaches the grid |
| TerminalWindow.TerminalWindow.InjectEnter | src/gui/TerminalWindow.cpp:10-22 | the shell gets a command with the tokens of the ideally edited line; reply and prompt follow, and editing starts afresh |
| DragSpec.HandleKeeps | src/drivers/input/input.cpp:227-240 | each mouse event within reach keeps the drag protocol, and one with the button up leaves nothing dragged |
| DragSpec.ReleaseEndsDragIff | src/gui/Window.cpp:135-146 | a release ends the drag exactly when the pointer is not left of or above the grab offset |
| DragSpec.CleanupKeeps | src/gui/Compositor.cpp:78-88 | windows that close, even one being dragged, do not disturb the protocol |
| DragSpec.RunKeepsProtocol | src/gui/Compositor.cpp:78-150 | over every run of event batches within reach, each followed by the removal of closed windows, at most the topmost window is dragged, only while the button is down, at pointer minus grab offset |
| DragSpec.PointerOnScreenIff | src/drivers/input/input.cpp:215-225 | the clamps leave the pointer on the screen exactly when it does not move below the bottom edge |
| DragLaws.PointerMoves | src/drivers/input/input.cpp:215-225 | a movement that does not go below the bottom edge is added, and stops at the other edges |
| DragLaws.ContainsIff | src/gui/Compositor.cpp:129-130 | a window is hit on its pixels and border, unless its right or lower edge wraps around |
| DragLaws.PressOutcome | src/gui/Window.cpp:113-128 | a press at rest raises the topmost window hit, where it is, starts dragging it exactly in the title bar, and closes it exactly in the corner; the other windows keep state and order |
| DragLaws.PressOnNothing | src/gui/Compositor.cpp:124-145 | a press on no window changes nothing |
| DragLaws.PressRaises | src/gui/Compositor.cpp:131-133 | every press raises the window hit and keeps the others in order |
| DragLaws.DragFollows | src/gui/Window.cpp:135-138 | while the button is down and the pointer in reach, exactly the dragged window moves, by as much as the pointer |
| DragLaws.GrabAndDrag | src/gui/Window.cpp:113-138 | from the press on the title bar on, the window moves by as much as the pointer and is on top |
| DragLaws.ReleaseMovesNothing | src/gui/Window.cpp:128-132 | a release moves, closes and reorders nothing |
| DragLaws.HeldIsNoPress | src/drivers/input/input.cpp:233-237 | at rest, a button that stays as it was changes nothing |
| DragLaws.CloseRemovesOne | src/gui/Compositor.cpp:78-88 | a press in the close corner removes exactly the window hit, any other press none |
| Compositor.StayingDrop | src/gui/Compositor.cpp:83-85 | deleting a closing window does not change which windows stay, nor their order |
| Compositor.PressRaisesFirst | src/gui/Compositor.cpp:131-138 | raising the hit window before giving it the press is the same as after |
| Compositor.Compositor.AddWindow | src/gui/Compositor.cpp:14-27 | the list stays well linked and the window becomes the last |
| Compositor.Compositor.FocusWindow | src/gui/Compositor.cpp:29-56 | the window moves to the end, every other one keeps its place among the rest, the list stays well linked |
| Compositor.Compositor.DeleteWindow | src/gui/Compositor.cpp:58-76 | exactly that node leaves the list, which stays well linked |
| Compositor.Compositor.CleanupClosedWindows | src/gui/Compositor.cpp:78-88 | exactly the windows that do not want to close stay, in order and unchanged |
| Compositor.Compositor.FindHit | src/gui/Compositor.cpp:125-144 | the walk stops at the last window of the list that contains the point |
| Compositor.Compositor.InjectMouseButton | src/gui/Compositor.cpp:124-145 | a press raises the topmost window hit, others keep state and order, and acts on it; a release acts on it |
| Compositor.Compositor.InjectMouseMove | src/gui/Compositor.cpp:147-150 | only the topmost window moves, and only if it is being dragged |
| Compositor.Window.OnMouseButton | src/gui/Window.cpp:113-133 | a press closes exactly in the corner and starts a drag exactly in the rest of the title bar; a release ends the drag |
| Compositor.Window.OnMouseMove | src/gui/Window.cpp:135-138 | a dragged window goes to pointer minus grab offset, any other stays |
| Mouse.MouseInput.ProcessMouseEvents | src/drivers/input/input.cpp:211-244 | the ring is emptied in order; its events act on the windows as the event fold does, or only on button and pointer while the terminal has the screen |
| Mouse.EventsAt | src/drivers/input/input.cpp:213-229 | each event has the pointer where the moves up to it lead, and the button of its lowest bit |
| Mouse.OffScreen | src/drivers/input/input.cpp:231-242 | off the GUI windows stay as they are and the button is remembered |
| Mouse.HeldThroughSwitch | src/drivers/input/input.cpp:231-242 | a button held through a switch to the windows is no new press |
| Mouse.MouseInput.GuiRound | src/main.cpp:175-194 | a round in GUI context handles the events and then removes the windows that close |
| LineEditor.TypeAppend | src/drivers/input/input.cpp:103-209 | editing a stream is editing its first part and then its second, lines concatenated |
| KeyboardLaws.KeysAfter | src/drivers/input/input.cpp:107-156 | after any stream, shift, Ctrl and Alt are on by their last press, caps by its parity, the prefix if it came last |
| KeyboardLaws.StreamKeys | src/drivers/input/input.cpp:107-156 | so they are for the ideal editor, across all lines |
| KeyboardLaws.NextKey | src/drivers/input/input.cpp:158-205 | after any stream, one more key adds what it prints to the line or the windows (letters as capitals exactly when shift and caps differ), erases, or chooses the context under Ctrl and Alt |
| KeyboardLaws.ReadyIff | src/drivers/input/input.cpp:177-187 | a line is ready exactly if Enter came while keys went to the terminal |
| KeyboardLaws.EnterIsEvaluated | src/main.cpp:181-190 | at its Enter a line goes to the shell, which stays, goes to the windows or ends the loop |
| KeyboardLaws.NothingAfterEnd | src/main.cpp:185-186 | nothing is fetched after that |
| LineEditor.RoundIsTypeIff | src/main.cpp:175-190 | one drain, fetch and evaluation equals the ideal editor on that batch exactly when the keys behind the first Enter are harmless |
| LineEditor.LinesIndependentOfScheduling | src/main.cpp:175-199 | however the stream is cut into drains that settle, the lines fetched are those of the ideal editor over the whole stream, past `display` and up to `exit` |
| LineEditor.AlwaysAgreesIff | src/main.cpp:175-199 | kernel and ideal editor agree after every drain exactly when every drain settles |
| LineEditor.KeyBehindEnterJoinsLine | src/drivers/input/input.cpp:177-187 | an input where a key behind Enter in the same batch ends up in the finished line |
| LineEditor.ErasedBehindEnterIsHarmless | src/drivers/input/input.cpp:177-187 | an input where keys behind Enter do no harm, since they erase what they typed |
| LineEditor.DisplayLeavesTerminal | src/kernel/Shell.cpp:297-300 | a finished line `display` sends later keys to the windows |
| LineEditor.KeysAfterDisplay | src/drivers/input/input.cpp:169-187 | then the keys of a line finish none |
| Tokenizer.FirstTokenIff | src/kernel/Shell.cpp:76-101 | the first argument is a given word exactly if the line is blanks, that word, and then nothing or a blank and anything |
| KeyboardInput.VerdictIff | src/kernel/Shell.cpp:96-104 | a line ends the loop exactly if its command is `exit`, and leaves the terminal exactly if it is `display` |
| KeyboardInput.VerdictsOfCommands | src/kernel/Shell.cpp:297-304 | the verdicts on `display`, `exit` and the empty line |
| KeyboardInput.KeyboardInput.DetermineCase | src/drivers/input/input.cpp:302-310 | letters are raised by exactly one of shift and caps, other keys by shift |
| KeyboardInput.KeyboardInput.ProcessScancode | src/drivers/input/input.cpp:107-207 | one scancode does to flags, line buffer and windows what it means, extension prefix carried over |
| KeyboardInput.KeyboardInput.ProcessKeyboardEvents | src/drivers/input/input.cpp:103-209 | the ring is emptied in order into the editor state, inside the line buffer |
| KeyboardInput.KeyboardInput.FetchLine | src/drivers/input/input.cpp:280-290 | returns the buffered line cut to the caller's buffer and fills its own with NUL |
| KeyboardInput.KeyboardInput.EvalUserInput | src/kernel/Shell.cpp:61-104 | exactly a line whose command is `exit` ends the loop, exactly one whose command is `display` leaves the terminal |
| KeyboardInput.KeyboardInput.MainRound | src/main.cpp:175-190 | one round of the main loop drains the ring, and fetches and evaluates the line that is ready on the terminal |
| Vector.Vector.PushBack | include/kernel/Vector.hpp:34-39 | appends, doubling the array only when it is full; capacity stays 0 or a power of two of at most twice the peak size n, and all copying so far at most 2n - 2 elements |
| Vector.Vector.PopBack | include/kernel/Vector.hpp:41-43 | drops the last element if there is one |
| Vector.Vector.Resize | include/kernel/Vector.hpp:45-52 | grows with zeros and never shrinks, to the first doubling that suffices, within the same bounds on capacity and copying |
| RamFile.LastWriterWins | src/kernel/ramfs.cpp:17-22 | after any run of writes the length is the farthest reach and each byte is its last writer's, zero where nobody wrote |
| RamFile.RamFSFile.WriteAt | src/kernel/ramfs.cpp:17-22 | grows the file to the write's reach with zeros and replaces exactly the bytes written; `length` stays the vector's size |
| RamFile.RamFSFile.ReadAt | src/kernel/ramfs.cpp:5-15 | returns the bytes at the offset, clipped at the end of the file |

## Left out

- Choice of the heap region from the memory map, device setup, interrupt stubs, port I/O, pixels, fonts and colours: hardware and drawing.
- Frees of pointers that are not live, path names of more than 127 characters where a walk takes them, lines of more than 1023 characters and 32-bit overflow of file offsets: preconditions, as the code does not handle them.
- The heap is assumed to start above address 8, so that no address in it is null and the split test does not wrap around.
- Vfs.FileSystem.MakeEntries: requires that all names of its arguments fit their buffers; error messages are not modelled.
- Vfs.FileSystem.Boot: leaves out the text written to the file, since files and their contents are modelled apart from the graph.
- Mouse.MouseInput.ProcessMouseEvents: pointer arithmetic is over unbounded integers, and the context does not change during a batch, as no mouse event changes it.
- TerminalWindow.TerminalWindow.InjectEnter: takes what the shell prints and whether it ends as parameters, and what it prints is without backspace.
- Compositor.Compositor.AddWindow: requires that the window is not in the list yet, as nothing adds a window twice; the laws of the list are about distinct windows.
- Compositor.Compositor.DeleteWindow: does not model the release of the memory of the window and its node.
- KeyboardInput.KeyboardInput.ProcessScancode: leaves out `is_down` and the `dirty` flag, which no modelled code reads, and the echo to the screen; the key table is the one `initialize` builds.
- KeyboardInput.KeyboardInput.MainRound: leaves out what a line's command does besides its effect on input; `cd`, `touch`, `mkdir` and `mount` are in `Vfs`.
- `ls`, `cat`, `echo` and `help` only read the file system and print, and `readdir` serves `ls`: no property here depends on them. `String` is a Dafny string.
- Windows of no columns or no rows ignore keys; a window lower than one text row, whose row count wraps around, is not part of this model.
- Weak memory and compiler reordering: every shared access is one sequential step.
