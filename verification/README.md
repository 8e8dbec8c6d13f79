# LifeOS kernel: model and proofs

LifeOS is a small cooperative kernel written in C. This project models its stateful core in
Dafny and proves what that core is for.

Each C unit appears twice. A value model (`ConsoleModel`, `Scheduler`, `ShellModel`, ...) says
what every routine does to the unit's state; a class (`ConsoleDevice.Console`,
`SchedDevice.Cpu`, ...) holds the real arrays and variables, follows the C statements and is
proved to do exactly that. The properties are then theorems about the value models, over every
input and every run:

- **Text console** (`Console*.dfy`): screen, circular scrollback and VGA mirror refine one flat
  stream of cells, and the incremental mirror always equals a full re-render.
- **Scheduler and pages** (`Memory`, `Pages`, `Sched*`, `RoundRobin`): over byte-addressed
  memory each task resumes in exactly its own context, the queue stays a list, and round-robin
  is fair with tasks added on the fly.
- **Shell** (`Shell*.dfy`): zipper, history ring, and the exact condition under which the screen
  row equals the edit buffer.
- **Panes** (`Layout`, `Pane*.dfy`): the layout is an exact partition and the drawing equals a
  declarative picture.
- **ACPI and shutdown** (`Acpi*.dfy`): discovery, lookup and the shutdown ports read
  back what a firmware builder lays out.
- **File table** (`Fs*.dfy`, `CStrings`): the table refines a file system of two maps, contents by
  name and names by handle, call by call and with the same return values.
- **Input** (`KeyboardModel`, `Input`), **framebuffer text** (`Framebuffer`, `Gui`),
  **PCI inventory** (`Pci`), **numerals** (`Numerals`).

Verify everything with `dafny verify dfyconfig.toml`.

## Where the code and expectations part

The code is modelled as written. Where a property one would expect fails, the exact condition is
proved:

- A shell key keeps the row right if and only if `ShellDisplay.KeyFits` holds of the line before
  it (`KeyFaithfulIff`; over runs `KeysFaithfulIff`): erasing and moving left always do;
  moving right, typing and recalling do if they change nothing or the cursor column stays below
  80, the latter two only if the line also ends before the last cell of the screen. Cursor
  columns off the row are ignored by `console_set_cursor`, and a line that reaches the last cell
  scrolls the screen while the shell keeps the old prompt row. A line may wrap onto following
  rows without harm. A cleared console, a prompt and 72 letters show the failure
  (`ClearedConsoleBreaks`).
- `fs_create` and `fs_rename` act as on a map if and only if the new name has at most 31
  characters and, for create, is unused (`FsModel.CreateRefinesIff`, `RenameRefinesIff`).
- Pages stay clear of the bootloader's table at 0xB000 if and only if the image ends past it
  (`Pages.Pd2SafeIff`). The static array of `fs.c` alone makes the image that large
  (`Pages.ImageWithFilesIsSafe`), so the failing side is a smaller build. Page
  addresses are past the image until they wrap (`Pages.UsableIff`).
- Two panes on an extent of a single cell would leave one of them empty, although half of one
  cell, rounded up, has room for the inactive pane; `Layout.PositiveIff` gives the exact bound,
  which 80 and 25 meet for every reachable grid.
- A table entry with address zero is skipped like an unmapped one, since zero is the null
  pointer. The documentation gives 0x40000000 as the address limit; the code uses 0x80000000.
- The documentation lets the idle task poll the keyboard; in the code nothing calls
  `console_poll_input`, and `gui_task` reads the keyboard itself. Both readers take scancodes from
  the same port and share the prefix flag, so the input runs have events for both.

Drawing panes is a sequence of clears, cursor moves and writes, so the mirror theorem covers it too.

Notable modelling choices: `char` is signed, so characters from 0x80 up turn the attribute byte
into 0xFF; `vga_color` is the constant 7; strings are memory with a terminator in it; a scheduler
run is any sequence of creating, adding, starting, computing and yielding in which a computing
task leaves task structures and other stacks alone (`SchedulerRuns.Enabled`).

## Model

| member | source | states |
|---|---|---|
| ConsoleModel.CellBits | src/kernel/console/console.c:160 | the cell stored for a character is the C expression on bits: the sign-extended char ORed with the colour |
| ConsoleModel.CellBytes | src/kernel/console/console.c:160 | the low byte of a cell is the byte of its character; the high byte is 0x07, and 0xFF for a char from 0x80 up |
| ConsoleModel.Glyphs | src/kernel/console/console.c:131 | a blank cell is a space in the normal colour, and the prompt reads "LifeOS> " |
| ConsoleModel.PushAppends | src/kernel/console/console.c:71-79 | evicting a row appends it to the scrollback read oldest first; a full scrollback of 100 rows loses exactly its oldest row |
| ConsoleModel.RenderShowsWindow | src/kernel/console/console.c:81-105 | a re-render clamps the view and shows the 25 rows of scrollback-then-screen that end `view` rows above the bottom; every mirror row comes from one of those rows, never from the blank fill |
| ConsoleModel.PutcConsistent | src/kernel/console/console.c:140-173 | after any character, from any console whose mirror was right while the live view showed, the live view shows, the mirror is the window of the document and the hardware cursor is 80*y+x < 2000 |
| ConsoleModel.ScrollKeepsMirror | src/kernel/console/console.c:107-118 | scrolling the screen by a row in the live view keeps the mirror equal to the newest 25 rows |
| ConsoleModel.PutAllSerial | src/kernel/console/console.c:140-141 | everything written reaches the serial port, once and in order |
| ConsoleModel.PutAllConcat | src/kernel/console/console.c:175-178 | writing two texts one after the other is writing their concatenation |
| ConsoleMirror.QuadrantsConsistent | src/kernel/console/console.c:318-340 | drawing the quadrants leaves the mirror right even when it starts scrolled up, where the lines are not mirrored until the prompt is written |
| ConsoleMirror.ApplyConsistent | src/kernel/console/console.c:127-178 | each completed operation (write, clear, cursor move, quadrants, scroll key) keeps mirror and hardware cursor consistent |
| ConsoleMirror.RenderIsNoOp | src/kernel/console/console.c:81-105 | re-rendering a consistent console changes nothing: the incremental updates agree with the full re-render |
| ConsoleModel.MoveIs | src/kernel/console/console.c:310-316 | a coordinate off the screen leaves the old one, one on the screen is taken, and nothing but the cursor changes |
| ConsoleModel.ScrollKeyIs | src/kernel/console/console.c:239-247 | a scroll key moves the view by one row between the live view and the oldest stored row and changes no text |
| ConsoleModel.DownUndoesUp | src/kernel/console/console.c:239-247 | where there is a row to scroll to, down undoes up, mirror included |
| ConsoleModel.QuadrantsAre | src/kernel/console/console.c:318-338 | off the middle row and column the quadrant lines keep every cell; on them stand line glyphs in the normal colour |
| ConsoleMirror.AlwaysConsistent | src/kernel/console/console.c:217-247 | over every run of operations after initialisation, from any earlier contents, the mirror is the one a re-render would give |
| ConsoleStream.AppendShows | src/kernel/console/console.c:140-173 | one character moves console and flat stream in step: append, pad to the next row, or drop a cell that is not evicted |
| ConsoleStream.ScrollShows | src/kernel/console/console.c:107-118 | a full screen gives its top row to the scrollback exactly as the stream counts one more evicted row |
| ConsoleStream.ConsoleRefinesStream | src/kernel/console/console.c:127-173 | for every run of characters and scroll keys after a clear, cursor, screen and scrollback are those of the flat stream typed so far: last 25 rows on screen, last min(100, evicted) evicted rows in the scrollback |
| ConsoleStream.EvictedRowsAreFinal | src/kernel/console/console.c:149-158 | rows that have left the screen never change, whatever is typed or erased later |
| ConsoleStream.ShowsLength | src/kernel/console/console.c:143-173 | the stream always ends on the screen: at least the evicted rows and fewer than 25 rows more |
| ConsoleText.PutAllPlain | src/kernel/console/console.c:159-170 | n plain characters from position p scroll exactly (p+n-1920)/80 times if p+n >= 2000 and otherwise lay exactly those cells over the screen and change nothing else |
| ConsoleText.ScrolledTwice | src/kernel/console/console.c:71-79 | successive scrolls add up in the ring's start and count |
| ConsoleDevice.Console.ScrollbackPush | src/kernel/console/console.c:71-79 | the ring arrays and counters become those of PushRow, whose meaning is ConsoleModel.PushAppends |
| ConsoleDevice.Console.RenderView | src/kernel/console/console.c:81-105 | the mirror array, view and cursor become those of RenderView, whose meaning is ConsoleModel.RenderShowsWindow; the blank fill branch is proved unreachable |
| ConsoleDevice.Console.ScrollScreen | src/kernel/console/console.c:107-118 | the nested loops shift the screen up, file the top row, blank the last and refresh the mirror in the live view only |
| ConsoleDevice.Console.EnsureBottom | src/kernel/console/console.c:120-125 | returns to the live view with a re-render, or does nothing there |
| ConsoleDevice.Console.Clear | src/kernel/console/console.c:127-138 | blanks screen and mirror, empties the scrollback and homes the cursor |
| ConsoleDevice.Console.Putc | src/kernel/console/console.c:140-173 | the whole array state after one character is that of the model, for which the stream and mirror lemmas are proved |
| ConsoleDevice.Console.Write | src/kernel/console/console.c:175-178 | writes the characters before the terminator, no others |
| ConsoleDevice.Console.WriteDec | src/kernel/console/console.c:180-194 | writes the decimal digits of the value; with Numerals.DecimalRoundTrip they parse back to it |
| ConsoleDevice.Console.FillDigits | src/kernel/console/console.c:188-191 | the division loop leaves all digits, reversed, in at most 20 places, so its guard never cuts a 64-bit number |
| ConsoleDevice.Console.WriteHex8 | src/kernel/console/console.c:196-200 | writes two hexadecimal digits of the value |
| ConsoleDevice.Console.WriteHex64 | src/kernel/console/console.c:212-215 | the nested writers emit the 16-digit form, which parses back by Numerals.HexRoundTrip |
| Numerals.DecimalRoundTrip | src/kernel/console/console.c:180-194 | the digit string reads back as the number, contains digits only and has no leading zero except for zero itself |
| Numerals.HexRoundTrip | src/kernel/console/console.c:196-215 | a fixed-width hexadecimal string reads back as the number |
| Numerals.HexHalves | src/kernel/console/console.c:202-215 | writing the high half and then the low half is writing the whole number, at 16, 32 and 64 bits |
| Numerals.DigitText | src/kernel/console/console.c:180-200 | digits are those of 0 to 9 and A to F |
| ConsoleDevice.Console.SetCursor | src/kernel/console/console.c:310-316 | each coordinate is taken if it is on the screen and ignored otherwise; the hardware cursor follows |
| ConsoleDevice.Console.ScrollKey | src/kernel/console/console.c:239-247 | moves the view by one row within the stored scrollback and re-renders |
| ConsoleDevice.Console.QuadrantLines | src/kernel/console/console.c:318-338 | draws the vertical line, the horizontal line and the cross, mirrored in the live view only, and puts the cursor in the lower left quadrant |
| CStrings.Text | src/lib/string.c:4 | the text of a piece of memory is what precedes its first terminator |
| CStrings.StrCmp | src/lib/string.c:3-9 | negative, zero or positive exactly as the first text precedes, equals or follows the second in unsigned dictionary order; only text and first terminators need exist in memory |
| CStrings.PrecedesIs | src/lib/string.c:3-9 | a proper prefix comes first, and otherwise the smaller unsigned byte at the first difference |
| CStrings.PrecedesIsTransitive | src/lib/string.c:3-9 | the order strcmp decides is transitive |
| CStrings.PrecedesIsTotal | src/lib/string.c:3-9 | any two texts are equal or one precedes the other |
| CStrings.PrecedesIsStrict | src/lib/string.c:3-9 | the order is antisymmetric |
| Pages.PageAllocator.constructor | src/kernel/mm/mm.c:14-24 | the first page is the image end rounded up to a page, at least 0xB000 |
| Pages.PageAllocator.Alloc | src/kernel/mm/mm.c:26-30 | the k-th call hands out the k-th page after the first, modulo 2^64 |
| Pages.PagesAligned | src/kernel/mm/mm.c:15-29 | every page is aligned to 4096, wrapped or not |
| Pages.FirstPageIsLeast | src/kernel/mm/mm.c:14-24 | the first page is the least page address that is past the image and not below 0xB000 |
| Pages.UsableIff | src/kernel/mm/mm.c:14-30 | n pages all lie past the image and past the page tables at [0x8000, 0xB000) exactly if the address space does not run out |
| Pages.DistinctIff | src/kernel/mm/mm.c:26-30 | no page is handed out twice exactly while at most 2^52 are asked for |
| Pages.Pd2SafeIff | src/boot/bootloader.asm:195-198 | the table the bootloader puts at 0xB000 is spared exactly if the kernel image ends past 0xB000 |
| Pages.SmallImageBreaks | src/kernel/mm/mm.c:19-24 | an image that ends at 0xB000 or before has its first page on that table |
| Pages.ImageWithFilesIsSafe | src/kernel/fs/fs.c:4-6 | an image linked at 0x1000 that holds the sixteen files of 4136 bytes keeps every page past the files and clear of the table until addresses wrap |
| Scheduler.SaveRegsFrame | src/kernel/sched/context_switch.asm:9-14 | the six pushes lay out, below the return address, exactly the frame six pops and a return read back, and touch no other byte |
| Scheduler.SavedWhere | src/kernel/sched/context_switch.asm:9-14 | the registers lie below the old stack pointer in the order of the pushes: rbp, rbx, r12, r13, r14, r15 |
| SchedDevice.Cpu.PushRegs | src/kernel/sched/context_switch.asm:9-14 | pushes the six registers in the order of the source |
| SchedDevice.Cpu.PopRegsAndReturn | src/kernel/sched/context_switch.asm:21-27 | pops them in the opposite order and returns |
| SchedDevice.Cpu.ContextSwitch | src/kernel/sched/context_switch.asm:8-27 | the machine after the routine is the model's: stack pointer saved before the new one is loaded |
| SchedDevice.Cpu.CreateTask | src/kernel/sched/sched.c:20-33 | two pages, a frame with the entry address under six zeros, and a task structure that points to it |
| SchedDevice.Cpu.AddTask | src/kernel/sched/sched.c:36-43 | links the task behind the tail, or makes it head and tail of an empty queue |
| SchedDevice.Cpu.Yield | src/kernel/sched/sched.c:46-53 | switches to the successor of the current task, or to the head |
| SchedDevice.Cpu.Start | src/kernel/sched/sched.c:56-70 | switches from the bootstrap task to the head, or does nothing on an empty queue |
| SchedulerRuns.SwitchMemory | src/kernel/sched/context_switch.asm:8-27 | after a switch the outgoing task's saved stack pointer leads to a frame of exactly its context, the incoming context is the frame its saved stack pointer leads to, and no other byte changes; a task may switch to itself |
| SchedulerRuns.CreateMemory | src/kernel/sched/sched.c:20-33 | the stack built for a new task is a frame that resumes at the entry point with zeroed registers and the stack pointer at the top of its page |
| SchedulerRuns.CreateKeeps | src/kernel/sched/sched.c:20-33 | creating a task keeps the invariant of the kernel |
| SchedulerRuns.AddKeeps | src/kernel/sched/sched.c:36-43 | adding a created task keeps the invariant: the queue stays an acyclic list of distinct tasks in order of addition |
| SchedulerRuns.StartKeeps | src/kernel/sched/sched.c:56-70 | starting keeps the invariant and resumes the head |
| SchedulerRuns.EventsAreCalls | src/kernel/sched/sched.c:45-70 | the start and yield events of the runs are what sched_start and sched_yield do; starting an empty queue changes nothing, and with no current task the head is next |
| SchedulerRuns.NextIsSuccessor | src/kernel/sched/sched.c:46-53 | the next task is the list successor of the current one, and the head after the tail |
| SchedulerRuns.YieldKeeps | src/kernel/sched/sched.c:46-53 | yielding keeps the invariant and makes the successor current |
| SchedulerRuns.ApplyKeeps | src/kernel/sched/sched.c:20-70 | every lawful event keeps the invariant, with tasks computing on their own stacks in between |
| SchedulerRuns.EveryRunIsSound | src/kernel/sched/sched.c:12-70 | over every run from boot each task is resumed with exactly the registers, stack pointer and return address of its own last switch-out, or fresh at its entry; the bootstrap task is never resumed; the queue is an acyclic list holding each added task once, in order |
| RoundRobin.StepTurn | src/kernel/sched/sched.c:46-53 | the queue grows only at its end and only a yield passes the turn on |
| RoundRobin.TurnsAreLogged | src/kernel/sched/sched.c:46-70 | the turns of a run are exactly the resumptions the log records |
| RoundRobin.EveryOtherTaskRunsOnce | src/kernel/sched/sched.c:46-53 | between two consecutive turns of a task every other task queued when the cycle wraps past the tail has exactly one turn, in list order, whatever is added meanwhile |
| ShellModel.KeyWellFormed | src/kernel/console/shell.c:74-118 | under any key the line stays within 127 characters that print as one cell each, and the history position stays in range |
| ShellModel.TypedIs | src/kernel/console/shell.c:110-117 | a typed character, and no other, enters the line at the cursor, which steps behind it; a line of 127 characters stays as it is; browsing starts afresh |
| ShellModel.ErasedIs | src/kernel/console/shell.c:74-80 | Backspace removes exactly the character before the cursor, or nothing at the start of the line |
| ShellModel.MovedIs | src/kernel/console/shell.c:81-90 | the arrows keep the text and move the cursor by one within it |
| ShellModel.KeysUndo | src/kernel/console/shell.c:74-117 | Backspace undoes typing and right undoes left |
| ShellModel.TextIsKept | src/kernel/console/shell.c:63-117 | any text typed stands at the cursor as it was typed, up to 127 characters in the line, with what was before and behind it unchanged |
| ShellModel.LineIsTyped | src/kernel/console/shell.c:54-73 | at a fresh prompt the line is exactly the text typed, and Enter makes it the most recent command |
| ShellModel.KeySerial | src/kernel/console/shell.c:41-117 | keys that change the text redraw it, which sends the spaces and the line to the serial port; all others, the arrows too, send nothing |
| ShellModel.SessionWellFormed | src/kernel/console/shell.c:63-118 | the same over every run of keys and submitted commands, whatever a command leaves on the console |
| ShellModel.EnterMovesOn | src/kernel/console/shell.c:66-68 | Enter changes no cell of the screen and puts the cursor at the start of the row below the prompt; at the bottom row it scrolls by one instead |
| ShellModel.HistoryIsLastEight | src/kernel/console/shell.c:21-71 | after every session of keys and submitted lines the history is exactly the last eight non-empty lines, in order and unabridged, behind those from before the session |
| ShellModel.UpsRecall | src/kernel/console/shell.c:91-99 | from a fresh prompt k Ups load the k-th most recent command; more Ups stay at the oldest |
| ShellModel.DownsRetrace | src/kernel/console/shell.c:100-108 | Downs retrace the Ups; below the newest command the line is empty and stays empty |
| ShellDisplay.RedrawFaithfulIff | src/kernel/console/shell.c:41-52 | a redraw shows the new line, blanks what the old one had more, changes no other cell, does not scroll and places the cursor, if and only if the line fits |
| ShellDisplay.KeyFaithfulIff | src/kernel/console/shell.c:74-118 | after a key other than newline the row, the other cells, the scrollback and the cursor are right if and only if KeyFits holds of the line before the key; then the row is displayed again |
| ShellDisplay.KeyFitsIs | src/kernel/console/shell.c:74-118 | that condition on the line before the key is whether the line after it fits: always for erasing and moving left, by the cursor column for moving right, by the recalled command for Up and Down, by one more character for typing |
| ShellDisplay.KeysDisplayed | src/kernel/console/shell.c:63-118 | from a displayed line, over any keys that fit, judged on the line alone, the row keeps showing the edit buffer with the cursor at its position, nothing scrolls and no cell outside the line is touched |
| ShellDisplay.KeysFaithfulIff | src/kernel/console/shell.c:63-118 | every step of a run of keys is displayed faithfully if and only if the keys fit |
| ShellDisplay.PromptDisplayed | src/kernel/console/shell.c:54-58 | a fresh prompt shows the empty line with the cursor where it begins |
| ShellDisplay.LongLineBreaks | src/kernel/console/shell.c:51 | typed behind a prompt on the top row, 71 letters are displayed and the 72nd is not |
| ShellDisplay.ClearedConsoleBreaks | src/kernel/console/shell.c:51-58 | so any console that is cleared and prompted can be driven there by 72 keys |
| ShellDevice.Shell.HistoryAdd | src/kernel/console/shell.c:20-30 | the ring of eight slots holds the remembered commands, newest before the index, as terminated strings |
| ShellDevice.Shell.HistoryGet | src/kernel/console/shell.c:32-39 | the slot of the offset-th most recent command, or the empty string when there is none |
| ShellDevice.Shell.RedrawLine | src/kernel/console/shell.c:41-52 | the console after the loops is that of the model's redraw of the edit buffer |
| ShellDevice.Shell.ShowPrompt | src/kernel/console/shell.c:54-58 | empties the line, writes the prompt and remembers where it ended |
| ShellDevice.Shell.ShiftLeft | src/kernel/console/shell.c:76-78 | the shifting loop removes exactly the character before the cursor |
| ShellDevice.Shell.ShiftRight | src/kernel/console/shell.c:111-114 | the shifting loop inserts exactly the new character at the cursor |
| ShellDevice.Shell.HandleKey | src/kernel/console/shell.c:74-118 | array, counters, history position and console after a key are those of the zipper model |
| ShellDevice.Shell.Enter | src/kernel/console/shell.c:65-71 | the command handed on is the edit buffer; a non-empty one is remembered and browsing starts afresh |
| Layout.ExtentsFill | src/kernel/hmi/pane.c:93-127 | for any extent and number of panes the shares add up to the whole |
| Layout.PositiveIff | src/kernel/hmi/pane.c:93-127 | no pane vanishes if and only if the extent has two cells (one for a single pane) and half of it, rounded up, has a cell for each inactive pane |
| Layout.SharesAreFair | src/kernel/hmi/pane.c:101-109 | inactive panes are equal except the last; the active one gets half, and more, by less than the number of inactive panes, only if it is last |
| Layout.ComputeExtents | src/kernel/hmi/pane.c:93-109 | from arbitrary array contents, modulo 2^32, the array ends up with those shares, also for a single pane whose entry is read before it is set |
| PaneModel.DividersInside | src/kernel/hmi/pane.c:136-143 | every reachable pane is at least four cells wide and high, so dividers keep off the right and bottom edges |
| PaneModel.ColumnsDraw | src/kernel/hmi/pane.c:145-151 | the vertical loops draw exactly the column dividers without scrolling |
| PaneModel.RowsDraw | src/kernel/hmi/pane.c:153-158 | the wrapping writes draw exactly the row dividers without scrolling |
| PaneModel.AllCrossingsDraw | src/kernel/hmi/pane.c:160-164 | the last loops put a cross exactly where two dividers meet |
| PaneModel.DrawIsPicture | src/kernel/hmi/pane.c:129-166 | from any console and any reachable grid the screen equals the declarative picture, nothing has scrolled, the scrollback is empty, the mirror is consistent and the cursor is inside the active pane |
| PaneModel.PromptInsidePane | src/kernel/hmi/pane.c:166-168 | the prompt overwrites only blank cells strictly inside the active pane |
| PaneModel.MoveReachable | src/kernel/hmi/pane.c:28-91 | every pane command keeps the grid between one and four panes each way and the active pane on it |
| PaneModel.MoveIs | src/kernel/hmi/pane.c:28-91 | every command, pinned: moves stop at the edges of the grid, sizes stay between one and four, the active pane is pulled back onto a smaller grid, and nothing else changes |
| PaneModel.MovesUndo | src/kernel/hmi/pane.c:47-91 | left undoes right, up undoes down and narrowing undoes widening, where there is room |
| PaneModel.MovesReachable | src/kernel/hmi/pane.c:22-91 | over every run of commands from the start the grid stays within one to four panes each way with the active pane on it |
| PaneModel.RedrawnIs | src/kernel/hmi/pane.c:129-168 | after a redraw the shell has an empty line, whose prompt begins one cell inside the active pane and ends eight cells on |
| PaneModel.LineCells | src/kernel/hmi/pane.c:12-14 | divider cells are 0xFFB3, 0xFFC4 and 0xFFC5: the sign of the char overwrites the colour |
| PaneDevice.PaneManager.DrawGrid | src/kernel/hmi/pane.c:129-166 | layout arrays, cursor moves and characters leave the console the model's drawing leaves |
| PaneDevice.PaneManager.ResizeWidth | src/kernel/hmi/pane.c:47-56 | changes the number of columns within bounds, pulls the active column back onto the grid and redraws with a prompt |
| PaneDevice.PaneManager.ResizeHeight | src/kernel/hmi/pane.c:58-67 | the same for rows |
| PaneDevice.PaneManager.MoveLeft | src/kernel/hmi/pane.c:69-73 | moves the active pane if there is one on that side, and redraws |
| PaneDevice.PaneManager.GuiStart | src/kernel/hmi/pane.c:28-36 | two by two with the lower left pane active, unless already started |
| PaneDevice.PaneManager.GuiStop | src/kernel/hmi/pane.c:38-45 | back to a single pane, unless not started |
| PaneDevice.PaneManager.Init | src/kernel/hmi/pane.c:22-26 | a single pane, drawn without a prompt |
| AcpiModel.ScanIsFirst | src/kernel/acpi/acpi.c:54-65 | the scan returns the first match on its 16-byte steps that lies in the area, and none exactly if there is none |
| AcpiModel.Signatures | src/kernel/acpi/acpi.c:54-127 | the byte strings compared spell "RSD PTR ", "RSDT", "XSDT" and "FACP" |
| AcpiModel.RecordIs | src/kernel/acpi/acpi.c:119-139 | what is recorded is, in order, the first sixteen entries with a non-null address below 2 GiB |
| AcpiRoundTrip.ShortRoot | src/kernel/acpi/acpi.c:118 | a root table with a length below 36 wraps around in 64 bits, so the count cut to 32 bits falls just short of 2^32 |
| AcpiRoundTrip.CountIs | src/kernel/acpi/acpi.c:118 | bytes at the end of the root table that make up no whole entry are ignored |
| AcpiModel.FirstIffLast | src/kernel/acpi/acpi.c:140-147 | a last table with a signature exists exactly if a first one does, exactly if any recorded table has it |
| AcpiModel.PortIs | src/kernel/power.c:30-36 | a port is the low half of the field, whatever the high half holds, and the default when that is zero |
| AcpiDevice.ScanRsdp | src/kernel/acpi/acpi.c:54-65 | the loops find what the scan of the model finds |
| AcpiDevice.Acpi.Init | src/kernel/acpi/acpi.c:67-169 | on success the table array holds the addresses of the model and the PM1 fields come from the last recorded FACP; otherwise the defaults are set and the tables stay as they were |
| AcpiDevice.Acpi.GetTable | src/kernel/acpi/acpi.c:175-183 | the first recorded table with the signature, or null exactly if there is none |
| AcpiDevice.Acpi.ShutdownWrites | src/kernel/power.c:23-46 | both values written are 0x2000; each port is the FADT field if known and nonzero, the default otherwise |
| AcpiDevice.BootAndShutDown | src/kernel/power.c:23-46 | for every memory image the shutdown ports are those of AcpiModel.Ports, the fields of the last recorded FACP or the defaults, and after a successful parse a FADT is known exactly if a FACP can be looked up |
| AcpiRoundTrip.RsdpRead | src/kernel/acpi/acpi.c:93-112 | a root pointer written by the builder is read back at every revision: the 64-bit address from revision 2 on unless it is null, the 32-bit one otherwise, and null for a root above 2 GiB (section 5.2.5 of the ACPI specification) |
| AcpiRoundTrip.EbdaIsSegment | src/kernel/acpi/acpi.c:67-83 | the EBDA searched begins at the segment stored at 0x40E |
| AcpiRoundTrip.RootRead | src/kernel/acpi/acpi.c:117-130 | a root table written by the builder is read back: signature, length and every little-endian entry of 4 or 8 bytes (sections 5.2.6 to 5.2.8) |
| Memory.LittleEndian | src/kernel/acpi/acpi.c:121-129 | multi-byte fields are little-endian: each byte of memory is the corresponding byte of the word read |
| AcpiRoundTrip.DiscoveryReadsBuilder | src/kernel/acpi/acpi.c:89-168 | discovery finds the builder's root pointer and records, in order, the first sixteen of its tables below 2 GiB; with a root above 2 GiB it falls back to the defaults |
| AcpiRoundTrip.KeptIs | src/kernel/acpi/acpi.c:119-139 | the tables kept are those at addresses from 1 up to 2 GiB, at most sixteen, and all of them if there are fewer |
| AcpiRoundTrip.LookupReadsBuilder | src/kernel/acpi/acpi.c:175-183 | a lookup afterwards returns the first kept table of the firmware with that signature, or null iff there is none; nothing is recorded under a root above 2 GiB |
| AcpiRoundTrip.KeptReadBack | src/kernel/acpi/acpi.c:140-157 | each kept table still holds the signature and PM1 control fields the builder gave it (section 5.2.9), and the kept addresses are the recorded ones |
| AcpiRoundTrip.PortsReadBuilder | src/kernel/power.c:23-46 | shutdown writes to the ports in the low 16 bits of the PM1 control fields of the last kept FADT of the firmware when nonzero, and to 0x604 and 0xB004 otherwise or under a root above 2 GiB |
| FsModel.FirstNamedOf | src/kernel/fs/fs.c:34-40 | with distinct names every live slot is the one open, delete and rename find for its name |
| FsModel.TruncateIs | src/kernel/fs/fs.c:13-20 | a stored name is the longest prefix of the given one within 31 characters, the whole name exactly if it fits |
| FsModel.CreateRefinesIff | src/kernel/fs/fs.c:22-32 | with a free slot, create adds an empty file under the name exactly if the name has at most 31 characters and is unused |
| FsModel.CreateFailsIff | src/kernel/fs/fs.c:22-32 | there are at most sixteen files, and create fails exactly when there are sixteen |
| FsModel.NameLimits | src/kernel/fs/fs.c:13-32 | concrete runs that leave the map: a name created twice, a name of 32 characters created, and a file renamed to 32 characters |
| FsModel.WriteRefines | src/kernel/fs/fs.c:42-51 | a write through a live handle replaces that file's contents, cut to 4096 bytes, and nothing else |
| FsModel.DeleteRefines | src/kernel/fs/fs.c:73-82 | delete removes one key, and fails exactly if the name is absent |
| FsModel.RenameSucceedsIff | src/kernel/fs/fs.c:84-100 | rename succeeds exactly if the old name exists and the new one does not; otherwise, also for equal names, nothing changes |
| FsModel.RenameRefinesIff | src/kernel/fs/fs.c:84-100 | a successful rename moves one key and touches no contents exactly if the new name has at most 31 characters |
| FsModel.LiveIsOrdered | src/kernel/fs/fs.c:63-71 | the listing holds each live slot once, in slot order |
| FsModel.ApplyRefines | src/kernel/fs/fs.c:22-100 | one such call takes the table to the next state of the abstract file system and returns the same handle, count or -1 |
| FsModel.RunRefines | src/kernel/fs/fs.c:8-100 | over every run with short names unused at creation the table shows the state of the abstract file system after the same operations, contents by name and names by handle |
| FsModel.LookupsAgree | src/kernel/fs/fs.c:34-61 | open, read and list answer from the two maps: open gives exactly the handle bound to the name, a live handle reads the contents of its name, and the listing holds exactly the bound handles |
| FsModel.HandleIsStable | src/kernel/fs/fs.c:22-100 | over every such run that never deletes its current name a handle stays live, open finds it under that name, and its contents are those last written through it, if any, and unchanged otherwise |
| FsDevice.FileTable.Create | src/kernel/fs/fs.c:22-32 | fills the lowest free slot with the truncated name and no contents and returns it, or null |
| FsDevice.FileTable.Open | src/kernel/fs/fs.c:34-40 | the lowest live slot with exactly the name, or null |
| FsDevice.FileTable.Write | src/kernel/fs/fs.c:42-51 | stores the first min(len, 4096) bytes and returns their number, or -1 for a null or dead handle |
| FsDevice.FileTable.Read | src/kernel/fs/fs.c:53-61 | copies the stored prefix into the buffer, leaves the rest of it alone and returns its length, or -1 |
| FsDevice.FileTable.List | src/kernel/fs/fs.c:63-71 | the first min(max, live) live slots in order |
| FsDevice.FileTable.Delete | src/kernel/fs/fs.c:73-82 | frees the lowest live slot with the name, or returns -1 |
| FsDevice.FileTable.Rename | src/kernel/fs/fs.c:84-100 | renames the highest live slot with the old name unless the new name is taken |
| FsDevice.FileTable.CopyName | src/kernel/fs/fs.c:13-20 | stores the first 31 characters with a terminator and touches no other slot |
| KeyboardModel.FlagsAre | src/drivers/keyboard/keyboard.c:34-61 | over any interleaving the prefix flag says whether the last scancode either reader took was 0xE0, and the Ctrl latch whether a poll saw Ctrl with no consuming key in a poll since |
| KeyboardModel.AcceptIs | src/kernel/console/console.c:228-292 | which characters are text for the queue, and what latch and queue become |
| KeyboardModel.EffectIs | src/kernel/console/console.c:234-282 | which keys scroll the view, move between panes and resize them, with Ctrl and without, and that no others do |
| KeyboardModel.KeyboardRows | src/drivers/keyboard/keyboard.c:6-18 | the keyboard rows as text, the function and modifier keys, and that releases and all other codes give no character |
| KeyboardModel.ExtendedKeys | src/drivers/keyboard/keyboard.c:21-32 | behind the prefix the arrows, right Alt and FN have their codes and nothing else has one |
| KeyboardModel.RingIsFifo | src/kernel/console/console.c:284-301 | under any interleaving of polls, passes of gui_task and reads the characters that reads returned and those still queued are, once each and in order, the decoded scancodes taken by polls that survive the filters and find fewer than 127 waiting; none is NUL |
| KeyboardModel.GetcIs | src/kernel/console/console.c:295-301 | a read returns the oldest character waiting and removes it, and returns NUL exactly when none waits |
| KeyboardModel.GuiKeysAre | src/gui/gui.c:51-58 | gui_task hands on, in order, exactly the characters its own scancodes decode to, each by the scancode before it whichever reader took that |
| InputDevice.ConsoleInput.ReadChar | src/drivers/keyboard/keyboard.c:34-61 | no byte reads as NUL; otherwise prefix state and character are those of the decoder |
| InputDevice.ConsoleInput.Enqueue | src/kernel/console/console.c:287-291 | the ring of 128 holds one character more, or refuses it when 127 wait |
| InputDevice.ConsoleInput.Getc | src/kernel/console/console.c:295-301 | takes the oldest character, or gives NUL when none waits |
| InputDevice.ConsoleInput.Poll | src/kernel/console/console.c:228-292 | queue, latch, panes and console after a poll are those of the model: text is queued, Ctrl and arrows scroll, pane keys move, resize and redraw |
| InputDevice.ConsoleInput.GuiRead | src/gui/gui.c:51-54 | the read of gui_task moves the shared prefix state and gets the decoded character, and leaves queue and latch alone |
| InputDevice.PaneKeys | src/kernel/console/console.c:249-282 | from key to grid: right Alt and FN move left and right, with Ctrl up and down, and F1 to F4 resize, with the edges and limits of the grid |
| Framebuffer.FrameBuffer.DrawPixel | src/gui/framebuffer.c:27-31 | a pixel off the screen writes nothing, one on the screen changes exactly its own word |
| Framebuffer.BitIs | src/gui/framebuffer.c:44 | the test for column col is whether bits & (1 << col) is nonzero |
| Framebuffer.InkIs | src/gui/framebuffer.c:39-48 | the ink of a glyph is bit col of row byte row at col pixels to the right of the corner and row pixels below it |
| Framebuffer.FrameBuffer.Clear | src/gui/framebuffer.c:19-25 | every pixel gets the colour |
| Framebuffer.FrameBuffer.DrawRect | src/gui/framebuffer.c:33-37 | exactly the pixels of the rectangle that are on the screen get the colour |
| Framebuffer.FrameBuffer.DrawChar | src/gui/framebuffer.c:39-48 | exactly the set bits of the glyph that are on the screen get the colour |
| Gui.GuiScreen.Redraw | src/gui/gui.c:9-19 | whatever was on screen, a pixel is black exactly if it is a set bit of the glyph of its character in the centred row, and white otherwise |
| Gui.GuiScreen.HandleKey | src/gui/gui.c:26-35 | updates the text and shows it |
| Gui.Session | src/gui/gui.c:21-35 | after any keys from power-on text and frame are functions of the keys alone |
| Gui.OneMore | src/gui/gui.c:17-18 | drawing one more character adds exactly its ink |
| Gui.PixelIs | src/gui/gui.c:9-19 | in a frame that shows a text, the pixel of character i at a row and column of its glyph is black exactly if bits & (1 << col) is nonzero there, and white otherwise |
| Gui.Centred | src/gui/gui.c:14 | the margins left and right of the text are equal |
| Gui.TypedAsIs | src/gui/gui.c:26-35 | printable keys are kept as typed, the first 127 of them |
| Gui.BackspaceUndoes | src/gui/gui.c:27-29 | Backspace undoes the last printable key |
| Gui.NothingClipped | src/gui/gui.c:12-18 | ink lies in columns 4 to 1019 and rows 504 to 511, so no glyph is ever clipped |
| Gui.IndexInFont | src/gui/gui.c:30-31 | every font index used is between 32 and 127 |
| Gui.FrameIsDetermined | src/gui/gui.c:9-19 | two frames that show the same text are equal |
| Pci.AddressBits | src/hal/pci.h:12-14 | the ORed fields of the 0xCF8 address do not overlap (section 3.2.2.3.2 of the PCI Local Bus Specification 3.0) |
| Pci.AddressFields | src/hal/pci.h:12-14 | the address holds the enable bit, bus, device, function and dword offset in their places and zero elsewhere |
| Pci.AddressInjective | src/hal/pci.h:10-17 | addresses are equal exactly if bus, device, function and dword offset are |
| Pci.RespondersAre | src/hal/pci.h:53-66 | the list of responders holds exactly the responding triples, once each, in lexicographic order |
| Pci.DeviceCount | src/hal/pci.h:53-66 | counts exactly the responding triples |
| Pci.Inventory.Header | src/hal/pci.h:22-49 | vendor and device are the halves of the first register, class and subclass the top two bytes of the third |
| Pci.Inventory.Visit | src/kernel/inventory/inventory.c:30-44 | one function adds its row if it responds and there is room, and is counted either way |
| Pci.Inventory.Gather | src/kernel/inventory/inventory.c:26-47 | the count is that of all responding triples, as hal_pci_device_count gives it, and the rows describe the first min(256, count) of them in order |

## Left out

- Port I/O and inline assembly: only the CRTC cursor position, the serial byte stream and the shutdown writes are kept, as state.
- Bootloader, entry stub and linker script: only the fixed paging addresses appear.
- `console_execute_command`, `syscall_dispatch`, `pci_class_name`, `driver.c`: dispatch, lookup and an append-only list that would only add easy members. What a command does between `Shell.Enter` and `Shell.ShowPrompt` is open.
- The messages `acpi_init` and `kernel_shutdown` print, and the `cpu_cores` and `memory_bytes` fields of the inventory.
- `refresh_screen`, `gui_draw_pane_border`, `fb_draw_text`: unused, or covered by the pixel members.
- Font contents: the font is any table of 128 glyphs.
- ACPI checksums and the bounds of real memory: the code checks neither. Every address can be read, and unlisted ones hold zero.
- SysV stack alignment and preemption: the scheduler is purely cooperative.
- Adding a task twice, or a task that was not created: the code would link the list into a cycle; runs exclude it.
- Task words that straddle the top of the address space: a 64-bit word occupies eight consecutive addresses without wrapping inside the word.
- Pointers to files are slot numbers and the file structures are parallel arrays; a pointer into the middle of a structure cannot be expressed.
- A stack kept in one page is an assumption about tasks, not something the kernel enforces.
