# A verified model of kernel_stuff

This project models, in Dafny, the programs of the kernel_stuff repository that carry
real invariants, and proves what they are for. Six of them are covered.

**The associative-array garbage collector** (`assoc_array_gc/repro_fixed.c`). The array is
a 16-way radix tree with shortcuts. A collection walks the old tree through back pointers
and parent slots, filters the leaves through an iterator, and builds a compressed copy.

- `AssocTree`, `Compress`, `Collect` say what a collection means on tree values: filter the
  leaves, then compact every node from the bottom up, folding children that fit and
  repeating the pass while room is left.
- `NormalForm`, `Snag`, `Retention`, `Lookup`, `Readability`, `Again` prove what that
  meaning guarantees: leaves are conserved, the result is in normal form, the code's
  assertions fail exactly on the trees that have a *snag*, a condition on leaf counts
  alone, leaf counts also decide which slots still hold children on every level, lookups
  keep working exactly on the trees that are *readable*, a condition on leaf counts and on
  the digits that shortcuts skip, and a second collection changes nothing exactly when no
  child fits into its node's free slots.
- `Memory`, `Heap`, `Fold`, `CompressNode`, `Traverse`, `Excise`, `Steps`, `Reach`, `Gc`
  are the code itself: loops and jumps over a memory of cells addressed by tagged pointers.
  A cell that is freed leaves the memory, so using it afterwards, or freeing it twice,
  would not verify. The allocator may return any unused address and may refuse any request.
- `Witness` holds concrete trees that show where the conditions bite.

**The array constructor** (`assoc_array_gc/assoc_array_constructor.py` and the helpers it
targets): a compiler from trees to statements, with the machine they are for
(`Constructor`).

**The crash stash** (`crashstash/`): a paged log behind a file, and the offline reader
(`Crashstash`, `CrashstashRuns`).

**Notes** as both editors read them (`Notes`): how they are laid out, what the comparison
of their names sees, and which notes pass for the one looked for.

**The vmcoreinfo editor** (`vmcoreinfo/editvmcoreinfo.c`): the walk over the notes, program
headers, and the splice (`NoteWalk`, `Phdrs`, `Vmcoreinfo`, `EditProofs`; `CoreFiles` says
which fields an edit changes and gives a file byte by byte; more files in `EditWitness`).

**The build ID editor** (`editbuildid/editbuildid.c`): a search that works for either ELF
class, either encoding and either host (`BuildId`, `BuildIdProofs`, `BuildIdNotes`,
`BuildIdFiles`; `ElfFiles` writes files out from the ELF structures, for the concrete files
in `BuildIdWitness`).

**The stream splitter** (`vmcoreinfo/findvmcoreinfo.py`): `Blocks`.

## What turned out false

- The patched collector can still reach the assertion at `assoc_array_gc/repro_fixed.c:341`.
  `Snag.TrappedIffSnag` and `Gc.AssocArrayGc` give the exact condition: some slot leads to a
  branch of exactly 16 kept leaves in which one left-to-right scan of the leaf counts keeps
  a child, no earlier slot of the same node has a kept leaf below it, and every later slot
  is empty. `Witness.CrampedTraps` is such a tree. The other assertions never fail.
- A shortcut to a branch of exactly 16 leaves is excised even if that branch keeps a child
  (`assoc_array_gc/repro_fixed.c:424`). The node is then looked up at the wrong level, by a
  digit that all its leaves share. `Witness.VeiledLoses` is a tree without a snag in which
  an object can no longer be found. `Readability.CollectionFinds` gives the exact
  condition: every such branch must have all its leaves below the slot of that digit, and
  the child there must bear being read too early in the same sense. `Witness.DenReadable`
  is a stuck branch that does no harm.
- A second collection that keeps everything can change the tree the first one left: a
  child that did not fit at its turn may fit once those after it have been folded
  (`Witness.CrowdChanges`). `Again.SecondCollection` says exactly when nothing changes.
- A write to the crash stash whose copy fails on a new page leaves that page behind.
  `Crashstash.Stash.Write` says exactly when, by which copy fails: one after the first, or
  the first at a page boundary. Over a whole run, the offline reader gives up exactly if
  that has happened since the file was last emptied (`CrashstashRuns.RefusedWhen`), and as
  long as the page is there what is written is not what is read back
  (`CrashstashRuns.WriteAndReadBack`).
- The vmcoreinfo edit is undone by the reverse edit exactly when the old descriptor's
  padding was zero and the note segment's size in memory did not become zero on the way
  (`EditProofs.EditBack`; `EditWitness.PaddingLost` and `EditWitness.MemoryLost` are files
  on which it is not).
- Both editors compare names without looking at their size, so a note without a name whose
  descriptor spells the name looked for is taken for that note (`EditWitness.ImpostorTaken`,
  `BuildIdWitness.ImpostorFound`), and the comparison can run off the end of the notes
  (`EditWitness.BareRunsOff`). `NoteWalk.WalkFinds` and `BuildIdNotes.FirstIdFound` say
  exactly when the right note is found.
- The build ID search never ends on a build ID of more than 512 bytes
  (`editbuildid/editbuildid.c:237-241`, `BuildIdWitness.OversizedHangs`). It passes note
  sizes through 16 bits (`editbuildid/editbuildid.c:105-113`), and so steps from a note to
  the next exactly if both sizes fit them (`BuildIdNotes.StepsRight`); on a larger note it
  can find a build ID where there is none (`BuildIdWitness.BigStepsWrong`). And it returns
  an uninitialised value (`editbuildid/editbuildid.c:286-319`) exactly if it gets to a header
  table that is not empty but in which no entry's type says notes (`BuildId.SearchGarbage`,
  `BuildIdWitness.NotelessIsGarbage`).

## Model

| member | source | states |
|---|---|---|
| Compress.SomeChildFits | assoc_array_gc/repro_fixed.c:291-322 | With at most 16 leaves on the branch and a child left, some child's leaves fit into the free slots and its own: the pigeonhole behind folding |
| Compress.PassProgress | assoc_array_gc/repro_fixed.c:302-360 | A pass that is about to be repeated has folded at least one child, so repetition ends |
| Compress.CompressFacts | assoc_array_gc/repro_fixed.c:285-364 | Folding keeps direct leaves and retained children in their slots, adds leaves only, conserves the leaves of the branch, and leaves no child when there are fewer than 16 of them |
| Collect.FilterLeaves | assoc_array_gc/repro_fixed.c:259-283 | Each leaf is presented once, in slot order, and the accepted ones are kept in order, for an iterator that may depend on all it saw before |
| Collect.FilterPrunes | assoc_array_gc/repro_fixed.c:225-283 | Nothing but leaves is dropped: nodes and shortcuts stay where they are, even with no leaf left below |
| NormalForm.CompactLeaves | assoc_array_gc/repro_fixed.c:259-442 | Compacting a whole tree neither loses, invents nor doubles a leaf |
| NormalForm.CompactNormal | assoc_array_gc/repro_fixed.c:322-442 | Normal form of the result: a node with fewer than 16 leaves below holds leaves only, every child has at least two, every shortcut leads straight to a node of more than 16, no node holds just a shortcut |
| Snag.FoldTrapsWhen | assoc_array_gc/repro_fixed.c:322-341 | With children in normal form, folding a slot fails an assertion just when it is the only slot in use and holds a node of exactly 16 leaves that still has a child; it never fails on a shortcut |
| Snag.PassKeeps | assoc_array_gc/repro_fixed.c:305-355 | A pass leaves a child behind just when the leaf count of some child exceeds the slots free by its turn |
| Snag.TrappedIffSnag | assoc_array_gc/repro_fixed.c:319-360 | Some node of a tree fails an assertion when compacted if and only if the tree has a snag, a condition on leaf counts of the filtered tree |
| Snag.SnagIsStuck | assoc_array_gc/repro_fixed.c:357-360 | If no branch ends with exactly 16 leaves and a retained child, no assertion fails |
| Retention.PassStays | assoc_array_gc/repro_fixed.c:305-355 | A pass leaves a child in a slot if and only if its leaves exceed the slots free at its turn, counted from the left |
| Retention.SlotKeeps | assoc_array_gc/repro_fixed.c:285-360 | After a node is compacted, a slot holds a child if and only if the branch has 16 leaves or more and the child does not fit at its turn, so such a branch gets one pass only; that child is the one that was there, compacted, and leaves stay in their slots |
| Retention.CompactShaped | assoc_array_gc/repro_fixed.c:285-442 | Where nodes and shortcuts are after a whole tree is compacted, on every level, by the leaf counts of the tree before |
| Retention.FoldPlaces | assoc_array_gc/repro_fixed.c:329-347 | Folding a child puts its leaves, in slot order, into the free slots from the left, its own included, and changes no other |
| Witness.CrampedTraps | assoc_array_gc/repro_fixed.c:341-357 | A concrete tree on which the patched code fails its assertion |
| Witness.RetryNeeded | assoc_array_gc/repro_fixed.c:285-360 | A concrete node of 15 leaves that keeps a child after one pass and none after the repetition, with every slot after each |
| Witness.ThrongKeeps | assoc_array_gc/repro_fixed.c:357-360 | A concrete node of 18 leaves that keeps a pair for which room is made after its turn: the pass is not repeated |
| Witness.VeiledLoses | assoc_array_gc/repro_fixed.c:412-438 | A concrete searchable tree with no snag, not readable, from which a collection that keeps everything makes an object impossible to find |
| Witness.TwoWords | assoc_array_gc/repro_fixed.c:26-48 | How many levels a shortcut skips, and the digits it spells, across two words of its key |
| Lookup.FindsItsLeaves | assoc_array_gc/repro_fixed.c:35-48 | In a tree whose leaves sit on the paths their keys spell, digit-directed lookup finds exactly the objects in it |
| Readability.CompactSearchable | assoc_array_gc/repro_fixed.c:302-442 | Compacting a readable tree keeps it searchable, from the level lookup will reach it at |
| Readability.LosesOne | assoc_array_gc/repro_fixed.c:412-438 | A tree that is not readable, and fails no assertion, loses an object |
| Readability.CollectionFinds | assoc_array_gc/repro_fixed.c:259-442 | After a collection lookup finds exactly the objects the iterator kept if, and for trees without a snag only if, the filtered tree is readable |
| Readability.ShortcutFreeCollectionFinds | assoc_array_gc/repro_fixed.c:259-442 | For trees without shortcuts, under no condition |
| Witness.DenReadable | assoc_array_gc/repro_fixed.c:412-438 | A concrete shortcut to a stuck branch whose excision loses nothing |
| Witness.VeiledCells | assoc_array_gc/repro_fixed.c:225-247 | Copying a concrete tree of four nodes and a shortcut takes five requests for memory |
| Again.UnchangedWhen | assoc_array_gc/repro_fixed.c:302-442 | Compacting a tree in normal form leaves it as it is if and only if no child fits into the free slots of its node and its own |
| Again.SecondCollection | assoc_array_gc/repro_fixed.c:259-442 | For every well-formed tree, a second collection that keeps everything changes nothing if and only if no child fits in what the first one left |
| Witness.CrowdChanges | assoc_array_gc/repro_fixed.c:302-360 | A concrete tree that a second collection changes, though both keep everything |
| Fold.FoldChild | assoc_array_gc/repro_fixed.c:333-347 | The fold loops with their resumed scan place each leaf where filling the lowest free slot would; the free count stays exact, slots below the scan stay in use, the scan stops inside the 16 slots, and the loop fails exactly when the child holds a meta pointer |
| CompressNode.FoldSlotAt | assoc_array_gc/repro_fixed.c:305-354 | One slot of a pass in memory: folds, releases the child, and leaves every other cell alone; fails exactly when an assertion does |
| CompressNode.FoldPass | assoc_array_gc/repro_fixed.c:288-355 | A counted pass does what the pass on values does, and its leaf count is the branch's true count |
| CompressNode.Run | assoc_array_gc/repro_fixed.c:285-364 | The repeated passes compute the compressed node, its exact count and free slots, and end |
| Excise.ExciseNode | assoc_array_gc/repro_fixed.c:366-409 | A node that holds just a shortcut gives way to it, with a shortcut before it, in memory |
| Excise.Finish | assoc_array_gc/repro_fixed.c:366-442 | After compression the right tree hangs, with matching back pointer and parent slot, where the node hung; the frame's cells are finished or released; all others are untouched |
| Gc.Descend | assoc_array_gc/repro_fixed.c:225-257 | Entering a subtree asks for memory for shortcut and node, fails only if one request is refused, and otherwise keeps the invariant over the whole stack of open nodes |
| Gc.FilterSlot | assoc_array_gc/repro_fixed.c:261-277 | Passing an old slot presents its leaf to the iterator and keeps the invariant |
| Gc.VisitSlot | assoc_array_gc/repro_fixed.c:259-283 | Every slot visited, passed or entered, keeps the invariant, lowers the work left and keeps the sum of requests made and to come; it fails only if one of those is refused |
| Gc.LeaveNode | assoc_array_gc/repro_fixed.c:285-459 | Leaving a node either goes back up with the copy and the old node in step, or delivers the result, or fails an assertion the filtered tree was bound to fail; the cursor is never null |
| Gc.Walk | assoc_array_gc/repro_fixed.c:225-464 | The stackless walk ends, and refines compacting the filtered tree; it runs out of memory only if a request for one of the nodes and shortcuts is refused |
| Gc.AssocArrayGc | assoc_array_gc/repro_fixed.c:193-472 | The old tree is never written, and unless the collection completes root and count are unchanged; it completes exactly if every request for memory is granted (one for the edit, one for each node and shortcut) and the filtered tree has no snag; it runs out of memory only if a request is refused, and fails an assertion only on a snag; on completion the new root holds the compacted tree with exact counts, every live new cell is reachable from it, and the total is the number of accepted leaves |
| Heap.ClosedHolds | assoc_array_gc/repro_fixed.c:253-255 | Cells whose neighbours' pointers agree hold a tree with back pointers and parent slots matching throughout |
| Reach.AllReached | assoc_array_gc/repro_fixed.c:348-438 | If only the root lacks a finished owner, every finished cell is reached from the root: nothing leaks |
| Constructor.ConstructNode | assoc_array_gc/assoc_array_constructor.py:53-79 | Generates the code of a node, and stops if and only if some path of slot numbers leads through child nodes to a shortcut |
| Constructor.ConstructArray | assoc_array_gc/assoc_array_constructor.py:82-91 | Generates the whole program, and stops if and only if the root is no node or some path from it leads to a shortcut |
| Constructor.ConstructSample | assoc_array_gc/assoc_array_constructor.py:53-91 | The program for two concrete nodes, statement by statement |
| Constructor.RunNode | assoc_array_gc/assoc_array_constructor.py:53-79 | Executing a node's code on a blank node copies the whole subtree below it with new cells only, and returns the variable to where it was |
| Constructor.ProgramRebuilds | assoc_array_gc/assoc_array_constructor.py:82-91 | The generated program rebuilds the array with one new cell for each node, whatever the allocator |
| Constructor.CopyHolds | assoc_array_gc/repro_fixed.c:509-544 | What it rebuilds is a tree fit for collection, if parent slots were consistent |
| Crashstash.Stash.Open | crashstash/crashstash.c:42-86 | Refused while held or for both directions, and then nothing changes; a writer starts from an empty log, whatever faults were before |
| Crashstash.Stash.Write | crashstash/crashstash.c:100-151 | Appends what fits below the limit. With k the first of the n copies it takes that fails, there is a fault exactly if k < n, the bytes of the first k copies stay, and a page is left behind exactly if k > 0 or the log ended at a page boundary; in every state that earlier faults can have left |
| Crashstash.Stash.PutChunk | crashstash/crashstash.c:126-146 | One chunk lands right after the bytes in use, in the last page or a new one, which a failed copy leaves behind |
| Crashstash.SentNext | crashstash/crashstash.c:126-145 | Every copy but the first starts at a page boundary, and takes what is left or fits on the page |
| Crashstash.Stash.Read | crashstash/crashstash.c:153-193 | Returns the next bytes of the log, across pages; faults exactly if one of the copies it takes fails |
| Crashstash.CopyOut | crashstash/crashstash.c:176-189 | The page-by-page copy yields one contiguous slice of the pages |
| Crashstash.Recover | crashstash/crashstash.py:31-43 | Succeeds exactly on consistent metadata, and then yields the log's bytes |
| CrashstashRuns.Run | crashstash/crashstash.c:42-193 | For every sequence of calls, whichever copies fail, every reply and every dump after a call is what one sequence of bytes with at most one holder gives, up to the pages left behind: the dump is then refused, and a read returns as many bytes as it should |
| CrashstashRuns.StrayWhen | crashstash/crashstash.c:126-146 | In every run a page is left behind if and only if, since the file was last opened for writing, a write failed on a new page |
| CrashstashRuns.RefusedWhen | crashstash/crashstash.py:31-43 | So the dump after any call of a run is refused if and only if that has happened |
| CrashstashRuns.AlwaysSane | crashstash/crashstash.c:106-116 | In every run, faults included, a writer's offset is the log's size, a reader's is within it, and the limit holds |
| CrashstashRuns.ReadsCover | crashstash/crashstash.c:153-193 | A reader's calls of any sizes return the log from its start without gaps |
| CrashstashRuns.WriteThenRead | crashstash/README.md:4-7 | What is written, in any pieces, is read back, in any pieces, up to the limit, if no copy fails, whatever went wrong before |
| CrashstashRuns.LimitIs | crashstash/crashstash.c:106-121 | Up to 10485760 bytes are kept, and when so many are there no more are taken |
| CrashstashRuns.FaultBreaksDump | crashstash/crashstash.c:130-140 | A copy fault on a new page makes the offline reader give up |
| CrashstashRuns.WriteAndReadBack | crashstash/crashstash.c:126-146 | With a page left behind, what is written next lands past it, and what is read back are that page's bytes |
| NoteWalk.FindInfo | vmcoreinfo/editvmcoreinfo.c:223-236 | The loop computes the walk |
| NoteWalk.WalkFinds | vmcoreinfo/editvmcoreinfo.c:68-89 | On any notes, with names or without, the walk stops exactly at the end, never reads past it, and finds a given VMCOREINFO note if and only if no later note passes for one, by its name or by what follows, or runs off the end |
| NoteWalk.WalkFindsNone | vmcoreinfo/editvmcoreinfo.c:223-240 | It finds none, and stops exactly at the end, if and only if no note passes for one or runs off the end |
| Notes.NameTells | vmcoreinfo/editvmcoreinfo.c:224-225 | A note whose name field is long enough to differ from the name looked for, or is that name, is never misread |
| Phdrs.UpdateOffsets | vmcoreinfo/editvmcoreinfo.c:261-276 | The in-place loop moves the table's entries as specified |
| Phdrs.MovedBack | vmcoreinfo/editvmcoreinfo.c:266-276 | Moving by a difference and back restores the table if and only if the note segment's memory size did not become zero |
| Phdrs.DecodeEncodeAll | vmcoreinfo/editvmcoreinfo.c:189-194 | A table written is read back |
| Phdrs.EncodeFields | vmcoreinfo/editvmcoreinfo.c:200-203 | Where type, position, size in the file and size in memory stand in a program header, by offset |
| Vmcoreinfo.ParsedWhen | vmcoreinfo/editvmcoreinfo.c:142-241 | A file is read if and only if its header bytes are those supported, its first segment of type 4 is in it, and the walk finds the note there; what is saved stands at the offsets the ELF-64 structures have |
| Vmcoreinfo.ReadElfData | vmcoreinfo/editvmcoreinfo.c:134-247 | Reading computes the parse, with its error cases |
| Vmcoreinfo.Edit | vmcoreinfo/editvmcoreinfo.c:393-426 | The whole edit yields the edited file, and fails, leaving the file alone, if and only if it has not what `Vmcoreinfo.ParsedWhen` asks for, by offset |
| EditProofs.ReadsBack | vmcoreinfo/editvmcoreinfo.c:134-241 | A well-laid-out file is read as its layout says |
| EditProofs.EditThenRead | vmcoreinfo/editvmcoreinfo.c:255-383 | After an edit the same note is found with the new descriptor, the other notes are unchanged and in order, and the walk ends exactly at the updated segment size |
| EditProofs.SegmentsKept | vmcoreinfo/editvmcoreinfo.c:249-276 | Every byte of every other segment, the header table aside, is found at the segment's new offset, whether the descriptor grows or shrinks |
| EditProofs.EditBack | vmcoreinfo/editvmcoreinfo.c:255-383 | Editing and editing back restores the file byte for byte if and only if the old padding was zero and the memory size did not become zero |
| CoreFiles.EditedFields | vmcoreinfo/editvmcoreinfo.c:255-276 | What an edit of any readable file does to the position and the sizes in each program header, by offset, with 64-bit wrapping |
| CoreFiles.EditCore | vmcoreinfo/editvmcoreinfo.c:134-426 | A core file byte by byte, before and after its descriptor grows: headers, padding and the moved segment |
| EditWitness.PlanHolds | vmcoreinfo/editvmcoreinfo.c:134-241 | A concrete family of files, with a note without a name, meets what the promises above ask for |
| EditWitness.CutAndPutBack | vmcoreinfo/editvmcoreinfo.c:255-383 | On those files, cutting the descriptor to nothing and putting it back restores the file exactly if the padding was zero and the size in memory was not just the descriptor's |
| EditWitness.PaddingLost | vmcoreinfo/editvmcoreinfo.c:324-332 | A file whose padding is lost |
| EditWitness.MemoryLost | vmcoreinfo/editvmcoreinfo.c:266-268 | A file whose size in memory is lost |
| EditWitness.ImpostorTaken | vmcoreinfo/editvmcoreinfo.c:224-233 | A note without a name is taken for the VMCOREINFO note before it |
| EditWitness.BareRunsOff | vmcoreinfo/editvmcoreinfo.c:224-225 | The comparison with a last note of neither name nor descriptor reads past the end |
| Bytes.ByteOrder | editbuildid/editbuildid.c:47-96 | The number that four bytes stand for in either order |
| BuildId.HostFree | editbuildid/editbuildid.c:47-96 | A field's value does not depend on the host's byte order |
| BuildId.ToHex | editbuildid/editbuildid.c:120-153 | Yields the spelling of the bytes |
| BuildId.FromHex | editbuildid/editbuildid.c:129-177 | Fails exactly on a character that is no digit; otherwise what it yields spells the input in lower case |
| BuildId.SpellingIsOneToOne | editbuildid/editbuildid.c:120-177 | Spelling and decoding are inverse |
| BuildId.Digits | editbuildid/editbuildid.c:120-139 | The sixteen digits in order, in either case |
| BuildId.HighFirst | editbuildid/editbuildid.c:141-153 | A byte is spelled high digit first |
| BuildId.OnlyDigits | editbuildid/editbuildid.c:129-139 | Exactly those characters are digits |
| BuildId.FindBuildId | editbuildid/editbuildid.c:216-257 | The note loop computes the scan, for either host |
| BuildId.FindInTable | editbuildid/editbuildid.c:280-382 | The table search computes its specification, for segments and sections alike |
| BuildId.Find | editbuildid/editbuildid.c:384-438 | The whole search does not depend on the host |
| BuildId.SearchGarbage | editbuildid/editbuildid.c:267-382 | The result is uninitialised if and only if the search gets to a header table that can be read, is not empty, and has only entries whose type, all that is read of them, is not that of notes |
| BuildId.TableDecides | editbuildid/editbuildid.c:280-382 | The first entry for notes that is not a miss decides, be it a hit or an error |
| BuildId.SearchFails | editbuildid/editbuildid.c:384-438 | The search fails if and only if magic number, class or encoding are not as required, or it gets to a table or to notes that are not in the file |
| BuildIdProofs.WriteThenFind | editbuildid/editbuildid.c:384-452 | Writing an ID of the same size and searching again finds it at the same place, for either class and encoding, if the search reads nothing there but the ID |
| BuildIdProofs.SetBuildId | editbuildid/editbuildid.c:531-563 | Each way the tool ends, exactly when; only the bytes of the ID change, and only on success, to those the digits spell; and the lower-cased digits are found again after a write |
| BuildIdNotes.StepsRight | editbuildid/editbuildid.c:105-113 | The walk steps from a note to the next if and only if both its sizes fit 16 bits |
| BuildIdNotes.FirstIdFound | editbuildid/editbuildid.c:216-257 | The first note named GNU of the build ID type is found (or loops for ever, if oversized) if, and unless it is oversized only if, no note before it passes for one or runs off the end, whatever follows it; the search reads nothing of the ID |
| BuildIdNotes.NamedAreTold | editbuildid/editbuildid.c:233-234 | Notes that all have names are never misread |
| BuildIdFiles.SearchFinds | editbuildid/editbuildid.c:280-438 | In a laid-out file of either class and encoding the search finds the first build ID, segments before sections, whatever comes after it; it does not end exactly if that is oversized |
| BuildIdFiles.SearchIsClear | editbuildid/editbuildid.c:280-438 | There it reads nothing of that ID, if the ID overlaps no header that is read, nor a stretch searched in vain before it |
| BuildIdFiles.WriteThenFindLaid | editbuildid/editbuildid.c:384-452 | So another ID of the same size, written there, is found there |
| BuildIdWitness.SampleId | editbuildid/editbuildid.c:384-452 | Files of either class and either encoding, written out from the ELF structures, for which all this holds, for every ID of up to 512 bytes; above that, for every size a note can have, the search never ends |
| BuildIdWitness.MirroredId | editbuildid/editbuildid.c:384-452 | The same for files with a property segment, an ID segment, and sections on the same bytes, in all four formats |
| BuildIdWitness.SectionId | editbuildid/editbuildid.c:318-382 | The same for files without program headers, through the sections, in all four formats |
| BuildIdWitness.OversizedHangs | editbuildid/editbuildid.c:237-241 | A file on which the loop never ends |
| BuildIdWitness.NotelessIsGarbage | editbuildid/editbuildid.c:267-319 | A file on which the result is uninitialised, with an entry too short for anything but its type |
| BuildIdWitness.BigStepsWrong | editbuildid/editbuildid.c:105-113 | A note into which the walk steps, to find a build ID where there is none |
| BuildIdWitness.ImpostorFound | editbuildid/editbuildid.c:233-234 | A note without a name that passes for a build ID |
| Blocks.YieldBlocks | vmcoreinfo/findvmcoreinfo.py:13-28 | However the stream is cut into reads, the blocks are the pieces of the leftmost split of the whole stream and then, unless it is empty, what is left |
| Blocks.CutMore | vmcoreinfo/findvmcoreinfo.py:22-28 | Cutting can stop anywhere and go on with what is left |
| Blocks.CutIsLeftmost | vmcoreinfo/findvmcoreinfo.py:23-28 | The pieces put the stream back together, and the separator comes in none of them before its end, self-overlapping separators included |
| Blocks.LeftmostIsCut | vmcoreinfo/findvmcoreinfo.py:23-28 | Only the leftmost split does |
| Blocks.LastBlockKept | vmcoreinfo/findvmcoreinfo.py:19-20 | A stream without a separator is one block |
| Blocks.SeparatorAcrossReads | vmcoreinfo/findvmcoreinfo.py:22-28 | A separator that comes in two reads is found |

## Left out

- Lookup.Find: the lookup the kernel performs is not in this repository; it is modelled from the tree's fields.
- Readability.LosesOne: requires that no assertion fails, since a collection that fails one has no result.
- Crashstash.Stash.Write: page allocation always succeeds, and sums of sizes do not wrap at 64 bits.
- CrashstashRuns.Run: with pages left behind, of a read only the number of bytes is stated; `Crashstash.Stash.Read` says which they are.
- Crashstash.Stash.Read: needs an offset within the log, which every run guarantees (`CrashstashRuns.AlwaysSane`).
- Vmcoreinfo.ReadElfData: reads past a buffer, undefined in C, are an error of the model.
- EditProofs.SegmentsKept: bytes that a segment shares with the header table are excepted, since the table is rewritten.
- BuildIdWitness.SampleId: for 32-bit files requires an ID 256 bytes short of 4 GiB, since their offsets have 32 bits.
- BuildIdProofs.WriteThenFind: requires that the search reads nothing where the ID is written; `BuildIdFiles.SearchIsClear` derives that for laid-out files.
- BuildIdNotes.FirstIdFound: requires sizes that fit 16 bits of the notes before the build ID, and of its own name; `BuildIdNotes.StepsRight` says why.
- BuildId.TableBytes: the size of a header table, an `int` in C, does not overflow.
- Constructor.ProgramRebuilds: programs are lists of statements; their text and the C compiler are not part of the model.
- Pointer tagging: pointers are decoded values, so the bit operations are not modelled.
- Shortcut keys: the words of an index key are copied as one value; their number is not computed.
- Partial writes at an assertion: when folding fails midway, leaves already copied into the doomed node are not shown.
- The collector works on a memory value rather than on Dafny objects, so that freeing and reuse of addresses are visible.
- The collector's edit record, RCU, and the destruction of a half-built tree when memory runs out.
- `assoc_array_gc/repro.c`, the unpatched variant, and the recorded inputs and traces.
- Kernel locking, the proc file system beyond one holder at a time, and finding the stash's addresses in the log.
- File descriptors, temporary files and options: a file is a sequence of bytes, and transfers are complete.
- The thin drivers over libkdumpfile, libctf and drgn, and the remaining small tools, whose properties are easy.
