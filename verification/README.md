# The course file system, modelled in Dafny

The operating system this project belongs to keeps a 4 MiB disk in the "FAT32 - IF2230 edition"
layout: cluster 0 holds a signature, cluster 1 a map of 512 cells that link clusters into chains,
cluster 2 the root directory's table, and every other directory is one cluster with a table of 64
entries. This project models the driver for that layout, the shell commands that work on it - `mv`
writes directory tables behind the driver's back - and two smaller parts of the kernel: path text
and the page-frame allocator. It proves what the code keeps true and, where the code does not keep
it, exactly when it does.

## How it is built

- **The driver as it is written.** `Disk` is a flat byte array with the block loops of the in-memory
  image. `Driver` keeps the cached map and the table buffer as arrays and has the loops of the
  source: scan for a free cell from the start every round, look ahead for the next one, add to the
  size round by round, free while walking. Each method is proved equal to a function of the image
  before it (`DriverSpec`, `ShellSpec`), byte for byte. The driver's operations also say what the
  cached map holds afterwards, and all of them, formatting and the three forms of `mv` included, which
  images the disk went through, one per cluster written.
- **The shell** (`Shell`) is a class over the driver; `Session.Do` carries out any command whose guard
  (`Runs.Guard`) holds. The array for the stack of directories has 256 elements; a valid state uses
  254 at most (`CwdProofs.StackFits`), so it is never exceeded.
- **The whole-disk invariant** (`Volume`). `Valid(m, lay)` says that a layout - the chain of every
  entry, the home entry of every directory - describes the map and the tables: every live entry has
  the driver's shape and a chain in range, duplicate-free, correctly linked, ended and as long as
  its size asks for (one cluster for a directory); chains are disjoint; every taken cell from 3 on
  lies in a chain; free slots are all zero; names are unique in a table, slot 0 included; slot 0
  names the table's own cluster and copies the directory's entry; and no set of directories is
  closed under "parent of", so directories form a tree. `Sound(m)` says some layout is valid.
  `Consistent` is the same but for the taken cells outside all chains: what an interrupted `write`
  may leave. `Carries` says what operations keep of either: the structure, and no cell leaked that
  was not leaked before.
  `Tree.LayoutUnique` shows there is never more than one, which is what lets the "if and only if"
  theorems speak about every layout.
  `Mounting.FormattedIsValid` gives a disk that meets the invariant, `Runs.StepKeepsOk` every disk
  after it, and `Guards.GuardIsExact` says that the guards of these runs cannot be weakened by a
  command that changes the tree.
- **What the functions say** (`Effects`, `ShellEffects`), told a second time without their searches and
  helpers: which slot, which cell, which byte, for every disk the operation can work on.
- **Theorems about the functions**: what each operation keeps, what it undoes, what it leaves alone,
  at which points it may be interrupted, and on which requests it breaks the disk.

Reading order: `Format`, `Volume`, `Tree`, `Allocation`, `Storage`, `DriverSpec`, `Driver`, `Effects`,
then the theorems in `WriteProofs`, `DeleteProofs`, `Accounting`, `Limits`, `WriteLimits`, `Mounting`,
then the shell in `ShellSpec`, `Shell`, `ShellEffects`, `MoveProofs`, `CwdProofs`, `CommandProofs`,
`RenameProofs`, `MoveLimits`, and whole runs in `Runs`, `Guards`, `RunReads` and `Session`. `Witnesses`
has inputs that fail. `Paths` with `DirectoryStacks`, and `Paging`, stand on their own.

## Where the code and its comments differ

The model follows the code.

- `read` answers 0, not 3, when nothing matches (`src/fat32.c:207` against 244).
- Slot 0 of a table describes the directory itself, although `init_directory_table` is documented to
  take the parent's cluster (`src/fat32.c:66-71` against 278).
- `delete` uses the size as the mode, although its comment calls it unused (`src/fat32.c:373` against
  386), and in directory mode it has no answer for a name that is not there: it goes on with cluster
  0 and slot 0.
- In file mode the empty name and extension match a free slot; the walk then starts at cell 0, whose
  value points outside the map.
- `delete` does not look at its parent at all (`src/fat32.c:383`): any cluster is read and written as a
  table.
- `write` takes every cluster marked end-of-file for a directory (`src/fat32.c:257`), the map in
  cluster 1 included.
- The searches for a free cell or slot have no bound. `WriteReady` asks for what makes them stop: a
  free slot, and one free cluster more than a file needs, because the last round still looks ahead.
- `mv` as rename of a file overwrites the first eleven bytes of the file.

## Model

| member | source | states |
|---|---|---|
| Format.EntryRoundTrip | src/lib-header/fat32.h:96-113 | an entry stored in its 32 packed bytes is read back unchanged |
| Format.EntryBytesRoundTrip | src/lib-header/fat32.h:96-113 | any 32 bytes read as an entry and stored again are the same bytes |
| Format.EntriesBytesRoundTrip | src/lib-header/fat32.h:116-118 | any cluster read as a table and stored again is the same cluster, whatever it held |
| Format.CellsRoundTrip | src/lib-header/fat32.h:56-58 | a map stored little-endian is read back unchanged |
| Format.CellsBytesRoundTrip | src/lib-header/fat32.h:56-58 | any bytes read as a map and stored again are the same bytes |
| Effects.EntryLayout | src/lib-header/fat32.h:96-113 | which byte of an entry holds what, numbers lowest byte first, the high half of the cluster before the low |
| Effects.CellLayout | src/lib-header/fat32.h:56-58 | a map is its numbers in a row, four bytes each, lowest first |
| Effects.HeadIs | src/fat32.c:226 | the cluster an entry names, as one number made of bytes 25, 26, 23 and 24 of the entry |
| Disk.Disk.ReadBlocks | src/external/external-inserter.c:34-37 | the block loop copies exactly the addressed bytes and leaves the rest of the buffer |
| Disk.Disk.WriteBlocks | src/external/external-inserter.c:39-42 | the block loop replaces exactly the addressed bytes of the image |
| Disk.Disk.ReadCluster | src/fat32.c:160-162 | one cluster of the image lands in the buffer at the offset, nothing else changes |
| Disk.Disk.WriteCluster | src/fat32.c:148-150 | one cluster of the image is replaced, as one step of the disk's history |
| Storage.WriteBackIsNoOp | src/fat32.c:237 | writing back a table or map that was read changes no byte: `read` leaves the disk as it was |
| Storage.GatherScatter | src/fat32.c:227-234 | collecting clusters along a chain returns what was spread along it |
| Tree.LayoutUnique | src/fat32.c:254-291 | a disk has at most one layout |
| Tree.EveryDirectoryIsReachable | src/fat32.c:278-291 | every directory hangs below the root by a chain of live entries |
| Tree.TreeInduction | src/fat32.c:278-291 | what holds of a directory once it holds of its parent holds of all |
| Tree.IntoSiblingWellFounded | src/external/user-shell.c:886-940 | hanging a directory under a sibling keeps the tree a tree |
| Tree.UpWellFounded | src/external/user-shell.c:837-879 | hanging a directory under its grandparent keeps the tree a tree |
| Allocation.LowestAreLowest | src/fat32.c:264-266 | every cell chosen for a file lies below every free cell not chosen |
| Allocation.RescanFindsNext | src/fat32.c:322-326 | after any number of rounds the scan from the start finds the next of the lowest free cells |
| Allocation.LookAheadFindsNext | src/fat32.c:328-332 | the look-ahead finds the cell the next round will start at |
| Allocation.RoundFinds | src/fat32.c:320-341 | in every round both searches stop and the round writes exactly the next link |
| Allocation.RoundsStopIff | src/fat32.c:320-332 | all searches of the rounds for a file stop inside the map if and only if there are more free cells than the file needs |
| Allocation.LinkedIsChain | src/fat32.c:334-341 | the links of all rounds form a terminated chain without repetition that starts at the recorded head |
| Allocation.UnlinkUndoesLink | src/fat32.c:418-428 | freeing the chain gives the old map back |
| Allocation.FollowChain | src/fat32.c:226-233 | following links from a chain's head visits exactly the chain |
| Effects.WriteAnswer | src/fat32.c:257-302 | over the slots: `write` answers 2 for a parent without the end mark, 1 if and only if a slot has the name - for a file with the same extension - and 0 otherwise; errors change nothing |
| Effects.WriteReadyIff | src/fat32.c:264-332 | over cells and slots: what the searches of `write` need to stop |
| Effects.WriteMakesDirectory | src/fat32.c:264-291 | a new directory: the lowest free cell gets the end mark, its cluster a table with one entry, the first free slot of the parent the same entry, and nothing else changes |
| Effects.WriteMakesFile | src/fat32.c:304-362 | a new file: as few of the lowest free cells as hold it, each linked to the next, its bytes along them with zeros behind, and the first free slot with every field `write` sets, the others as they were |
| Effects.ReadReadyIff | src/fat32.c:220-234 | for any table: `read` stays inside the map exactly when there are links enough, from the head of the first slot of the pair, for its size |
| Effects.ReadAnswer | src/fat32.c:213-244 | over the slots, for any table: nothing and 0 without a slot of the pair; 2 for a first one larger than the buffer; 1 for one marked as no file; otherwise 0 and the clusters met from its head, as few as hold its size |
| Effects.DeleteFileReadyIff | src/fat32.c:414-428 | for any table and map: the walk of file mode stays inside the map and ends exactly when the links of the first slot of the pair come to the end mark |
| Effects.DeleteAnswersFile | src/fat32.c:414-437 | file mode over slots and links: 1 and nothing changed without a slot of the pair; otherwise the cells from the head of the first one to the end mark are free, its slot is zero, and all else stays |
| Effects.DeleteAnswersDirectory | src/fat32.c:386-411 | directory mode over the slots: 2 for a table with a taken slot after the first, then -1 for the bytes of ROOT, otherwise one cell free and one slot zero; a name that is not there stands for cluster 0 and slot 0 |
| Driver.Driver.Find | src/fat32.c:214-215 | the first slot that matches, or 64 when none does |
| Driver.Driver.ScanFree | src/fat32.c:264-266 | the scan stops, at the lowest free cell from its start on |
| Driver.Driver.InitDirectoryTable | src/fat32.c:73-92 | a zeroed table gets its own cluster and name in slot 0 and nothing else |
| Driver.Driver.WriteFileLoop | src/fat32.c:320-354 | the loop links the lowest free cells, stores the zero-filled data along them, accumulates the size, and until it ends touches only clusters that were free |
| Driver.Driver.WriteFileBody | src/fat32.c:304-362 | a file write yields the specified image; every image before the last differs from the old one only where nothing was in use |
| Driver.Driver.WriteDirectoryBody | src/fat32.c:275-291 | the same for a directory: map, then its table, then the parent's table |
| Driver.Driver.Write | src/fat32.c:254-367 | code and image are those of `WriteOutcome`, the history is harmless up to the last step, and the cached map equals cluster 1 |
| Driver.Driver.ReadChain | src/fat32.c:226-234 | the buffer holds the chain's clusters in order, then its old bytes |
| Driver.Driver.Read | src/fat32.c:209-245 | code and buffer are those of `ReadReply`; the image does not change; the cached map equals cluster 1 |
| Driver.Driver.FreeChain | src/fat32.c:418-428 | the walk that frees as it goes ends and zeroes exactly the chain's cells |
| Driver.Driver.DeleteFileBody | src/fat32.c:414-437 | frees every cell from the first match up to the end mark, whatever its size says, and clears its slot, map first; answers 1 when nothing matches |
| Driver.Driver.DeleteDirectoryBody | src/fat32.c:386-411 | refuses an occupied directory (2) and the name ROOT (-1), otherwise frees one cell and clears one slot, map first |
| Driver.Driver.Delete | src/fat32.c:376-439 | code, image and the two steps of the disk's history are those specified; the cached map equals cluster 1 |
| Driver.Driver.IsEmptyStorage | src/fat32.c:99-103 | true exactly when block 0 is not the signature |
| Driver.Driver.CreateFat32 | src/fat32.c:110-125 | writes signature, map and root table, in that order, over an image whose other clusters stay |
| Driver.Driver.Initialize | src/fat32.c:131-138 | formats only an unsigned disk; a signed one is loaded and unchanged; the cached map equals cluster 1 |
| Crash.PartFileTouchesOnlyFree | src/fat32.c:320-354 | any number of data clusters and links of a file being written touch only what was free |
| Crash.NewDirectoryTouchesOnlyFree | src/fat32.c:275-279 | so do a new directory's cell and table |
| Reading.ReadIsReady | src/fat32.c:214-234 | on a consistent disk every read of a name in a directory follows links inside the map |
| Reading.FileReply | src/fat32.c:214-239 | a file's entry answers with exactly the clusters of its chain, or 2 and nothing when the buffer is too small |
| Reading.FileAnswer | src/fat32.c:213-244 | on a consistent disk, a read of a live file is answered with 2 and nothing if the buffer is smaller than the file, and otherwise with 0 and the clusters of its chain in order |
| Reading.MatchIsUnique | src/fat32.c:215 | at most one entry of a table answers a name and extension |
| WriteProofs.HarmlessKeepsTree | src/fat32.c:275-362 | a disk changed only where nothing was in use has the same layout |
| WriteProofs.HarmlessKeepsReads | src/fat32.c:275-362 | and answers every read as before |
| WriteProofs.WriteKeepsValid | src/fat32.c:254-367 | `write` into a directory keeps the structure of the disk, with one entry more or refused with 1, and leaks no cell |
| WriteProofs.WriteReadsBack | src/fat32.c:304-362 | after an accepted write of any nonempty byte string, a read with a buffer large enough answers 0, these bytes, and zeros up to the cluster boundary |
| WriteProofs.WriteKeepsOtherReads | src/fat32.c:254-367 | a write changes the answer to no read of another name, in any directory |
| WriteProofs.WriteIsCrashSafe | src/fat32.c:275-362 | stopping after any cluster write but the last leaves the old tree and every read as it was |
| WriteLimits.WriteIsSoundIff | src/fat32.c:257-259 | for every parent, the map's own cluster included, the disk stays sound if and only if the request is refused - the parent is not marked end-of-file or the name is taken - or the parent is a directory |
| DeleteProofs.DeleteRemoves | src/fat32.c:376-439 | what a delete of a live target answers, and that it frees exactly the chain and clears exactly the slot |
| DeleteProofs.DeleteKeepsValid | src/fat32.c:376-439 | a delete of a live target of the right kind keeps the structure of the disk, whatever it answers, and leaks no cell |
| DeleteProofs.DeleteKeepsOtherReads | src/fat32.c:376-439 | a delete changes the answer to no read of another name |
| DeleteProofs.DeleteUndoesWriteFile | src/fat32.c:295-436 | writing a file and deleting it restores every cluster that was not free, map and tables included |
| DeleteProofs.DeleteUndoesWriteDirectory | src/fat32.c:267-411 | the same for a directory, unless its name is ROOT, which is then still there |
| Accounting.CellsAreConserved | src/fat32.c:116-118 | free cells, cells of chains and the three reserved cells are 512 together |
| Accounting.WriteTakesClusters | src/fat32.c:264-354 | a successful write takes exactly the clusters its size asks for, one for a directory |
| Accounting.DeleteReturnsClusters | src/fat32.c:413-435 | a successful delete returns exactly the clusters its entry's size accounts for |
| Limits.DeleteIsNotCrashSafe | src/fat32.c:408-433 | stopping a successful delete between its two writes leaves a disk no layout describes |
| Limits.DeleteReadyIff | src/fat32.c:383-428 | on a valid disk, whatever parent the request names, the walk of `delete` stays inside the map and ends if and only if directory mode arrives at a cluster of the map, and file mode finds nothing or a slot that points at a taken cell besides the first |
| Limits.RefusedIff | src/fat32.c:398-406 | `delete` answers with an error, and changes nothing, exactly in file mode when nothing matches and in directory mode for the name ROOT or an occupied table |
| Limits.DeleteIsSoundIff | src/fat32.c:383-437 | for every parent and every request whose walk ends, the disk stays sound if and only if the request is refused; or the parent is a directory and the target a live entry besides slot 0, empty if a directory, of one cluster if a file taken in directory mode; or the parent is no directory and the cell freed - for the map as parent, the cells under the slot - was free already |
| Limits.LostCell | src/fat32.c:420-426 | a taken cell that becomes free while all entries of the tree stay leaves a disk no layout describes |
| Limits.MissingDirectory | src/fat32.c:387-409 | a name that is not there makes directory mode free cluster 0 and answer 0, and no layout describes the result |
| DirectoryStacks.CurrentDirStack.constructor | src/currentdirectorystack.c:3-7 | the stack starts with the root alone |
| DirectoryStacks.CurrentDirStack.Push | src/currentdirectorystack.c:9-13 | one element more on both stacks, the cluster cut to its low byte |
| DirectoryStacks.CurrentDirStack.Pop | src/currentdirectorystack.c:15-19 | the last element, and the stack without it |
| DirectoryStacks.CurrentDirStack.ConvertToPaths | src/currentdirectorystack.c:41-59 | the buffer holds, zero-terminated, a slash and the name for every element above the root |
| DirectoryStacks.DirStack.Push | src/directorystack.c:9-12 | one name more on top |
| DirectoryStacks.DirStack.Pop | src/directorystack.c:14-20 | the top name, or the empty name when there is none |
| DirectoryStacks.DirStack.Reverse | src/directorystack.c:26-37 | swapping from both ends reverses the stack in place |
| DirectoryStacks.GetDirStack | src/directorystack.c:39-68 | the stack holds the request's parts as zero-filled fields; invalid exactly at the first part over eight characters |
| DirectoryStacks.Walk | src/external/testDir.c:8-20 | split, reverse and pop until the empty name gives all names in the order of the path |
| DirectoryStacks.WalkPrompt | src/external/testDir.c:8-20 | printing the names entered, splitting, reversing and popping gives them back in order if and only if none is over eight characters |
| Paths.ParseUndoesPrintIff | src/currentdirectorystack.c:41-59 | splitting a printed path gives the names back if and only if all are nonempty and free of slashes |
| Paths.ParsePrintedFields | src/directorystack.c:39-68 | names printed and parsed come back from their fields; the parse is valid if and only if none is over eight characters |
| Paths.PrintedFieldsIff | src/directorystack.c:39-68 | eight-byte fields printed and parsed are the same fields if and only if each holds a nonempty slash-free text with zeros behind it |
| Paths.PrintNormalizes | src/directorystack.c:44-48 | printing what was parsed parses the same, so only redundant slashes are lost |
| Paths.PrintJoins | src/currentdirectorystack.c:46-56 | one byte 47 in front of every name and nothing else |
| Paths.ComponentsAreCuts | src/directorystack.c:44-65 | the parts of a text are all its nonempty stretches without byte 47, in order, with nothing but that byte elsewhere |
| Paths.PlainIff | src/directorystack.c:51-63 | the fields a path can carry, byte by byte: one to eight bytes besides zero and 47, then zeros |
| Paths.ParsedNamesAreNonempty | src/external/testDir.c:15-19 | no parsed name looks like the one that ends the walk |
| Paths.ReversedTwice | src/directorystack.c:26-37 | reversing twice is the identity |
| Shell.UserShell.constructor | src/external/user-shell.c:7 | the shell starts in the root with the root's stack |
| Shell.UserShell.Cd | src/external/user-shell.c:194-230 | directory, stack and code are those of `ShellSpec.Cd`, and the stack of names follows: popped going up, the argument pushed going down; the disk is not touched |
| Shell.UserShell.MultiCd | src/external/user-shell.c:232-255 | one step per name, stopping at the first that fails, for both stacks |
| Shell.UserShell.Mkdir | src/external/user-shell.c:257-270 | a write of size 0 in the current directory |
| Shell.UserShell.Cp | src/external/user-shell.c:381-452 | a read of the matched file and a write of its bytes under the new name |
| Shell.UserShell.Rm | src/external/user-shell.c:514-525 | a delete whose mode is the matched entry's size |
| Shell.UserShell.MvInto | src/external/user-shell.c:886-940 | the nested scans, the outer one going on over the changed buffer after a match, as `ShellSpec.MoveScan`, in the steps the disk's history shows |
| Shell.UserShell.MvUp | src/external/user-shell.c:832-880 | clear, go up, deposit, come back, as `ShellSpec.MoveUp`, for disk, history, directory and both stacks; for a name that is not there, as `ShellSpec.MoveUpMissing` |
| Shell.UserShell.MvRename | src/external/user-shell.c:804-828 | both tables are read before either is written, as `ShellSpec.Rename`, in the two steps the disk's history shows |
| CwdProofs.CdKeepsShellIff | src/external/user-shell.c:206-228 | the stack stays the path to the current directory if and only if the step fails, goes up, or enters a directory below cluster 256 |
| CwdProofs.CdThenUpReturns | src/external/user-shell.c:206-224 | `cd x` then `cd ..` restores directory and stack |
| CwdProofs.StackFits | src/currentdirectorystack.c:9-13 | the stack of a valid state has at most 254 elements, so its array of 256 is never exceeded |
| ShellEffects.CdAnswer | src/external/user-shell.c:206-230 | over bytes and slots: a name whose first two bytes are dots pops the stack, except in the root; any other enters the first taken slot of that name without extension, and without one changes nothing and fails |
| ShellEffects.CdNamesAnswer | src/currentdirectorystack.c:9-19 | ... and the names entered follow the stack: none changed on failure, the last popped going up, the argument pushed going down |
| ShellEffects.MultiCdWalks | src/external/user-shell.c:232-255 | along a path: a sequence of steps that succeed, and the first that fails is the last |
| CwdProofs.OwnNameLeadsBack | src/external/user-shell.c:833-879 | from the parent, the name in a directory's slot 0 leads back into it |
| CwdProofs.UpAndOwnNameReturnsIff | src/external/user-shell.c:861-879 | going up and back by slot 0's name returns if and only if that name does not begin with two dots |
| CwdProofs.MoveUpReturnsIff | src/external/user-shell.c:832-880 | a safe `mv x /..` moves one entry, keeps the invariant and the stack, and leaves the shell where it was if and only if the directory's name does not begin with two dots |
| CwdProofs.MoveUpReads | src/external/user-shell.c:832-880 | after a safe `mv x /..` the name reads in the parent as it read before, and every other name as before |
| CwdProofs.RelocationKeepsShell | src/external/user-shell.c:832-942 | moving an entry of the current directory leaves the stack a real path |
| MoveProofs.RelocationKeepsValid | src/external/user-shell.c:846-940 | moving one entry to a free slot where its name is fresh and no cycle arises keeps the structure of the disk and leaks no cell |
| MoveProofs.ScanIsMoveInto | src/external/user-shell.c:896-940 | on a consistent disk the scan for the target acts once at most: one deposit and one clearing, as `ShellSpec.MoveInto` |
| MoveProofs.MoveIntoKeepsValid | src/external/user-shell.c:886-940 | a safe `mv name /target` keeps the structure of the disk, leaks no cell, moves exactly one entry, and changes only the two tables |
| MoveProofs.MoveIntoReads | src/external/user-shell.c:886-940 | the moved name reads in the target as it read before, every other name as before, inside moved subtrees too |
| MoveLimits.LostEntryLeaks | src/external/user-shell.c:910-933 | an entry cleared without being deposited leaves its clusters without an owner in every layout |
| MoveLimits.MoveIntoIsSoundIff | src/external/user-shell.c:886-940 | `mv name /target` leaves a sound disk if and only if a name is missing, the move is safe, or nothing was found and there was no slot to put it |
| MoveLimits.MoveUpIsSoundIff | src/external/user-shell.c:837-880 | `mv name /..` leaves a sound disk if and only if the move is safe or nothing was found and the parent was full |
| MoveLimits.MoveMissingIsSoundIff | src/external/user-shell.c:837-880 | `mv name /..` for a name that is not there leaves a sound disk if and only if the parent has no free slot, whatever the uninitialised cluster number is |
| MoveLimits.RenameIsSoundIff | src/external/user-shell.c:804-828 | a rename leaves a sound disk if and only if the name is missing or the new one is free in the directory and, for a directory, inside it and without extension |
| MoveLimits.MoveIntoIsNotCrashSafe | src/external/user-shell.c:913-933 | a safe `mv name /target` takes two steps, and stopping after the first leaves a disk no layout describes: one chain has two entries |
| MoveLimits.MoveUpIsNotCrashSafe | src/external/user-shell.c:848-874 | a safe `mv name /..` takes two steps, and stopping after the first leaves clusters without an owner in every layout |
| MoveLimits.RenameCrashIff | src/external/user-shell.c:817-824 | stopping a safe rename between its two writes leaves a sound disk if and only if it is a file's or the name is the old one |
| ShellEffects.DepositAnswer | src/external/user-shell.c:867-876 | the first open slot after the first gets the entry, field by field, the table goes to the cluster given, and without an open slot nothing is written |
| ShellEffects.MoveOntoAnswer | src/external/user-shell.c:900-936 | for any two tables: the entry arrives in the target if that has room, then its slot is cleared and the current table written over whatever is there, in these steps |
| ShellEffects.MoveScans | src/external/user-shell.c:896-940 | the whole scan, on disks with repeated names too: 63 rounds, each on the table as the rounds before left it, and its steps one after the other |
| ShellEffects.GoneAnswer | src/external/user-shell.c:837-861 | `mv name /..` as far as the shell has gone up: the slot of the name cleared if there is one, and the stack popped except in the root |
| ShellEffects.UpThereAnswer | src/external/user-shell.c:862-876 | ... what is then deposited, and where: at the cluster slot 0 of the upper table names; for a missing name an entry of size 0 with the leftover cluster |
| ShellEffects.MoveUpAnswer | src/external/user-shell.c:861-880 | ... and the way back by the name in slot 0 of the table it left |
| ShellEffects.RenameAnswer | src/external/user-shell.c:804-828 | the slot of the name gets the new one, then slot 0 of the table at its cluster as that was before; of one and the same table slot 0 alone |
| ShellEffects.MvNeeds | src/external/user-shell.c:804-940 | the three forms of `mv` ask only for a stack to go up on and for clusters on the disk |
| RenameProofs.RenameKeepsValid | src/external/user-shell.c:804-828 | a safe rename keeps the structure of the disk with the same layout and leaks no cell |
| RenameProofs.RenamedFileReads | src/external/user-shell.c:814-824 | a renamed file reads its old bytes with the first eleven replaced by the new name and extension |
| RenameProofs.RenameKeepsContentIff | src/external/user-shell.c:814-824 | a rename preserves a file's content if and only if the file already began with the new name and extension |
| RenameProofs.RenameKeepsOtherReads | src/external/user-shell.c:804-828 | a safe rename changes the answer to no read besides those of the old and the new name, inside a renamed directory too |
| CommandProofs.RmHitsMatchIff | src/external/user-shell.c:514-525 | `delete` acts on the entry `rm` matched if and only if it is a file or no earlier slot has the same eight-byte name |
| CommandProofs.RmRemovesMatch | src/external/user-shell.c:514-525 | then the tree loses exactly that entry, or nothing for an occupied directory or one called ROOT |
| CommandProofs.CpReads | src/external/user-shell.c:381-389 | the bytes `cp` carries are the file's, whole |
| CommandProofs.CpCopies | src/external/user-shell.c:345-454 | after an accepted copy the new name answers 0, the first bytes the old name answers, and zeros up to the cluster boundary, on a chain of its own, and the old name reads as before |
| CommandProofs.CpIsIndependent | src/external/user-shell.c:345-454 | deleting either of the two files succeeds and changes nothing the other reads |
| ShellEffects.RmAnswer | src/external/user-shell.c:514-525 | `rm` is the `delete` of the name with the size of its first taken slot |
| ShellEffects.CpAnswer | src/external/user-shell.c:381-452 | `cp` is the `write`, under the new name, of the first bytes `read` answers for the old one |
| CommandProofs.PromptLeadsBackIff | src/external/user-shell.c:232-255 | what the directories on the stack are called, followed from the root, leads back to the same shell if and only if none of the names begins with two dots |
| Mounting.FormattedIsValid | src/fat32.c:110-125 | a freshly formatted disk with an empty cache is valid, empty and signed |
| Mounting.FormattedIsSoundIff | src/fat32.c:110-125 | a freshly formatted disk is sound if and only if the cache had no taken cell beyond the reserved ones |
| Mounting.SignatureComesFirst | src/fat32.c:110-138 | a format stopped after the signature is never taken up again: the next mount changes nothing, and the disk is sound if and only if it was before |
| Mounting.MapComesSecond | src/fat32.c:110-138 | stopped after the map, likewise, and the disk is sound if and only if cluster 2 already held an empty root table |
| Effects.FormattedBytes | src/fat32.c:110-125 | a formatted disk byte by byte: signature over the first block, twelve bytes of reserved cells over the cached map, the entry of the root over an otherwise empty table; every other cluster as it was |
| Effects.MountAnswer | src/fat32.c:99-138 | mounting changes nothing if and only if all 512 bytes of block 0 are the signature, and formats otherwise |
| Effects.SignatureBanner | src/fat32.c:16-21 | the first 80 bytes of the signature, by their codes |
| Effects.FlagRow | src/fat32.c:22-37 | the first sixteen bytes of the flag, 200 bytes before the end |
| Effects.FlagRestRow | src/fat32.c:38-49 | its other twelve |
| Effects.SignatureRest | src/fat32.c:50-52 | the last two bytes of the signature, and zeros everywhere else |
| Runs.StepKeepsOk | src/interrupt.c:164-237 | every guarded command, driver or shell, is possible - no search without end, no index out of range - and keeps the structure of the disk, a path on the stack without dotted names, and the boot cluster, and leaks no cell, on disks with leaked cells too; `mv` keeps the map |
| Runs.StepKeepsNames | src/currentdirectorystack.c:9-19 | ... and after it each directory on the stack has the name it was entered by |
| Runs.MoveUpKeeps | src/external/user-shell.c:832-880 | in every state of a run a safe `mv x /..` ends where it started |
| Runs.RunKeepsOk | src/interrupt.c:164-237 | in every state of every run the structure of the disk and the path are in order, the boot cluster is untouched, and no cell is leaked that was not at the start |
| Runs.EveryRunIsOk | src/fat32.c:131-138 | after every run from a mounted disk, mounting again with any cache changes nothing, the disk is sound unless it was mounted with leaks, the names entered lead back to the current directory, and the printed path splits into them if and only if they are slash-free texts |
| Runs.InterruptedIsUsable | src/fat32.c:275-362 | a disk on which a write was interrupted mounts as it is, every read as before the write, and is in order for every run |
| Guards.GuardIsExact | src/interrupt.c:164-237 | from a sound disk and a shell in order, any command the code can carry out ends with both in order if and only if its guard holds or it touches nothing the tree uses: the guards of the runs ask for no more than is needed |
| Guards.ReadyIff | src/interrupt.c:164-237 | in order, the code can carry out every `cd`, `rm`, rename and `mv name /target`, `mv name /..` of what is there, `cp` of at most four clusters into enough space, `write` into enough space, and `delete` of what its walk can follow |
| RunReads.StepKeepsReads | src/interrupt.c:164-237 | a guarded command keeps the answer to every read of a name it does not write, delete, move or rename |
| RunReads.TouchesOnly | src/interrupt.c:164-237 | and such names are, over the slots: the name given or made, where it is and where it goes, and those inside a directory taken away |
| RunReads.RunKeepsReads | src/interrupt.c:164-237 | a name that no command of a run writes, deletes, moves or renames reads at the end what it read at the start |
| Session.Start | src/fat32.c:131-138 | mounting a signed disk that some layout describes, or any other with a clean cache, starts the shell in order |
| Session.Do | src/external/user-shell.c:945-1010 | the guards imply everything the methods need: a guarded command is carried out as the step of a run says, for disk, directory and both stacks, and the cached map stays the one on the disk |
| Session.WalkBack | src/external/testDir.c:8-20 | in every state of a session, printing the path of the prompt, splitting and walking it gives the names that lead from the root back to the shell, when they are slash-free texts and fit the buffer |
| Witnesses.AbsentDirectoryBreaks | src/fat32.c:387-409 | on a formatted disk whose cluster 0 was zero behind its first block, deleting any directory that is not there answers 0 and leaves an unsound disk |
| Witnesses.EmptyNameLeavesMap | src/fat32.c:414-428 | on a formatted disk, deleting a file with the empty name walks out of the map |
| Witnesses.FileAsParentBreaks | src/fat32.c:257-259 | a file of one zero byte, taken as the parent of a second write, swallows it: code 0 and an unsound disk |
| Witnesses.RemoveInsideFileBreaks | src/external/user-shell.c:514-525 | `cd` into a file whose bytes are a table and `rm` of a name in it: the target looks safe, the answer is 0, the file loses its own cluster |
| Witnesses.MoveIntoItselfBreaks | src/external/user-shell.c:896-940 | `mkdir a`, `mv a /a` leaves an unsound disk |
| Witnesses.MoveUpBreaks | src/external/user-shell.c:837-880 | in a fresh root, `mv x /..` of an absent name or of the empty one leaves an unsound disk |
| Witnesses.RenameToRootBreaks | src/external/user-shell.c:804-828 | `mkdir a`, `mv a ROOT` leaves an unsound disk |
| Witnesses.RenameChangesContent | src/external/user-shell.c:814-824 | renaming a file of one zero byte changes what it reads |
| Witnesses.CdIntoFileBreaks | src/external/user-shell.c:217-228 | `cd` into a file without extension succeeds and leaves a stack that is no path in any layout |
| Witnesses.DottedDirectory | src/external/user-shell.c:206-228 | a directory called `..x` cannot be entered by its name; for a shell inside it neither its own name nor its path leads back |
| Witnesses.DottedIsReached | src/fat32.c:386-411 | a shell gets inside: it enters `a`, another caller of the driver deletes `a` and makes `..x`, which takes the cluster over; no run of guarded commands does that |
| Witnesses.CdFarBreaks | src/external/user-shell.c:222-224 | after a file of 253 clusters a new directory has cluster 256: `cd` succeeds and leaves a stack that is no path in any layout |
| Paging.PageDriver.constructor | src/paging.c:3-22 | after start-up only the kernel's entry is mapped, to frame 0 |
| Paging.PageDriver.UpdatePageDirectoryEntry | src/paging.c:25-31 | exactly the addressed entry gets the flags and the frame number |
| Paging.PageDriver.AllocateSingleUserPageFrame | src/paging.c:34-62 | the next frame and 0, or -1 and no change at all |
| Paging.RunIs | src/paging.c:34-62 | over every list of addresses: the first 31 calls succeed, and each slot holds the frame of the last granted call for it |
| Paging.EntriesAre | src/paging.c:3-62 | over every list of addresses, bit by bit: a slot hit by one of the first 31 addresses is present, writable, the user's and 4 MiB large, in the frame of the last such call, with the other four bits clear; else the kernel's is the same but not the user's, in frame 0, and any other has no bit set |
| Paging.MappedIs | src/paging.c:25-31 | an update of any table: the addressed entry gets the eight flags and the top ten bits of the frame's address and keeps the rest, every other entry stays |
| Paging.UserFramesAreDistinct | src/paging.c:25-62 | user entries lie in pairwise distinct frames 1 to 31 below the pointer; all others are as loaded |
| Paging.UserSlotIff | src/paging.c:25-62 | a slot is a user's if and only if one of the first 31 addresses falls into it |
| Paging.KernelStaysIff | src/paging.c:11-16 | the kernel keeps its entry if and only if none of the first 31 addresses lies in slot 0x300 |
| Paging.FailuresChangeNothing | src/paging.c:52-61 | the first 31 calls succeed; every later one fails and changes nothing |

## Left out

- ATA port I/O, interrupts, the clock, TLB invalidation and segment loading: effects on hardware. The disk is the in-memory image of `src/external/external-inserter.c`; system calls are method calls.
- Keyboard, framebuffer, `ls`, `cat` and the prompt's drawing: output only, apart from the reads `cat` makes, which are those of `Driver.Driver.Read`.
- Splitting a command line into names, with its uninitialised tails and copies between buffers of different size: shell commands start from names already in fixed-width fields. Pointers to local buffers are returned by value.
- `dfs` and `whereis`: unfinished in the source. `read_directory` and `cluster_to_lba`: nothing reaches them.
- `memcpy`, `memset` and `memcmp` are sequence copies and comparisons. A name read up to its zero byte stops at the end of its field at the latest, where the source would read on.
- A path part longer than its eight-byte buffer is measured and rejected, as in the source, but the bytes past the buffer are not stored.
- Crash safety is shown for `write`; for `delete`, for `mv` and for formatting the points at which stopping does harm are shown.
- Driver.Driver.Write: asks for a free slot and free clusters enough for its unbounded searches, since what happens past the end of the arrays is not defined.
- Driver.Driver.Delete: asks that the walk over links stay inside the map and end, since what happens outside is not defined; `Limits.DeleteReadyIff` says for which requests it does.
- DirectoryStacks.CurrentDirStack.ConvertToPaths: asks that the path fit its buffer of 255 bytes, which a deep stack of long names overflows.
- Shell.UserShell.Cp: asks that the file fit the four clusters of the command's buffer.
- Shell.UserShell.Cd: asks that the stack have room for one more element, which `CwdProofs.StackFits` shows it always has.
- Shell.UserShell.MvUp: for a name that is not there the uninitialised cluster number is a parameter, and the deposited size is 0, as the request's initialiser leaves it.
