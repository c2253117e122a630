# Verification of the stateful core of the 602SQL client and server

602SQL is a relational database: a server, a client library and a graphical client. This project models in Dafny the
parts of its code that keep state by hand, and proves what they are for.

* **Message transport** (`Bytes`, `Transport`, `Wire`). A message lies in fragments (`t_fragmented_buffer`), goes over a
  TCP connection in frames, and is collected again (`MsgInfo`). Main results: `Transport.Transfer`, `Wire.Deliver`,
  `Wire.StreamRoundTrip`, `Wire.StreamPrefix`.
* **Shared memory communication** (`SharedMemory`, `SharedMemorySafety`). The two events of `t_dircomm` with the client's
  `transmit_req` and the server's request loop as a transition system in which either process may die at any step. Main
  results: `EverythingDelivered`, `TokenUnique`, `WakeFollowsCompletion`, `NoInfiniteRun`, `RequestEnds`.
* **Undo and redo of the text editor** (`UndoLog`, `UndoRing`, `Editor`, `EditorEdits`, `EditorHistory`,
  `EditorStray`, `EditorReference`, `EditorRedo`, `EditorPlaces`, `EditorPromises`, `EditorTrails`). `UndoLog` is a register as a value,
  `UndoRing` the circular array that implements it, the others the editor that uses two such registers. Main results:
  `RingRefinesStack`, `BlocksConserved`, `EditorRefinesCopies`, `UndoLeadsBack`, `ReachableUndoThenRedo`, `SavePromise`,
  `StrayUndoAfterSave`, `ClaimsExact`.
* **Packed bit structures** (`Bits`, `ColumnMap`, `Privileges`, `ObjectInfo`). Column maps with their enumerator, column
  privileges, packed object numbers. Main results: `Enumerate`, `PaddingHarmless`, `RoundTrip`.
* **The buffered file writer** (`BufferedWriter`). Main result: `WriteAll`.
* **Lists changed through addresses of links** (`Links`, `QueryList`, `PackedText`, `XmlForms`, `FilterList`). A link
  address is a value: the head of the list or the `next` field of a node. Main results: `QueryObjList.Remove`,
  `FormLevel.MoveElem`, `FormLevel.SetElem`, `FOList.Delete`.

`Sequences` and `Wrappers` hold what the modules share. Classes follow the source's classes; a ghost field or function
gives the abstract value, and each method ties the new value to the old one.

## Where the code does less than it promises

Each of these is proved, with the exact condition where there is one.

* `~t_action_register` and `clear_all` never free the block of the sentinel slot: `DestructorLosesSentinel`,
  `DestructorLoss`.
* `next_line` finds no line behind the last delimiter of a text, so that `set_position` goes to the line before it. A key
  typed after Return at the end of the text is not redone where it was: spaces and the key appear on that line before.
  The redo of an insertion is right if and only if the cursor was not on the empty last line: `InsertionRedoExact`,
  `ReturnKeyExample`.
* Undoing a deletion inserts additional spaces when its place is not on a line afterwards: at the end of a text that then
  ends with a delimiter, between CR and LF, and behind a lone CR. `DeletionUndoExact` and `PlaceOnLine` say exactly when,
  `DeletionAtEndExample` gives an ordinary case.
* `saved_now` clears the mark "was unchanged" in the undo register only. After insert, save, undo, save, redo the editor
  says that nothing has changed although the text shown is not the saved one. For runs whose undos and redos find their
  places on lines `SavePromise` is the exact condition, `RedoFalselyUnchanged` the family. An undo that inserts spaces
  makes the same claim: `UndoFalselyUnchanged`, with the exact condition in `StrayUndo` and `StrayUndoAfterSave` for the
  first such undo and in `ClaimsExact` for every run whose saves are careful, in a buffer with room.
* `add_seq_flag` reaches the undo register only, so what was undone as a group is redone record by record, and only the
  39 newest texts of a group of 40 or more records can be redone: `RedoMatches`, `PushAllForgets`, `UndoThenRedo`,
  `WayBackExact`.
* `CXMLFormStructLevel::MoveElem` loses a node moved to the place behind it, also the last node moved past the end. The
  wizard calls it so when an element is dragged to the next row (src/gcli/xmlformwizard.cpp:2531-2534): `MoveElem`.
* `CQueryObjList::Move` of an empty list into one that is not empty leaves there the address of a link of a former
  object: `MoveTo`.
* `CFOList::Delete` reads through a null pointer if and only if its place exists and the run goes past the end: the test
  for null comes after the access (include/gcli/fodlg.h:95-98). `FOList.Delete`, `DeletePastEnd`.
* `t_pckobjinfo` misreads tables 0x74000 to 0x77fff; tables 0x78000 to 0x7ffff are read back correctly.
* The comment on `head` and `tail` (include/gcli/fsed9.h:61) calls `tail` the slot after the last valid one; in the code
  it is the slot before the oldest record, and this is what the model follows.

## Model

| member | source | states |
|---|---|---|
| `Transport.MessageLayout` | include/common/wbdefs.h:1894-1899 | the lengths of the fragments before fragment i sum up to the length of the part of the message they hold |
| `Transport.MessageLength` | include/common/wbdefs.h:1888-1893 | the sum of the fragment lengths is the length of the concatenated message, empty fragments included |
| `Transport.MessageMeaning` | include/common/wbdefs.h:1875-1885 | a message grows by exactly the valid bytes of each further fragment; no fragments, no bytes |
| `Transport.CurrentWithinMessage` | include/common/wbdefs.h:1907-1909 | the bytes at the pointer are the bytes of the message behind all earlier fragments; the last fragment ends the message |
| `Transport.FragmentedBuffer.ResetPointer` | include/common/wbdefs.h:1886-1887 | the pointer stands before the whole message |
| `Transport.FragmentedBuffer.TotalLength` | include/common/wbdefs.h:1888-1893 | returns the length of the message |
| `Transport.FragmentedBuffer.RestLength` | include/common/wbdefs.h:1894-1899 | returns the length of the message behind the pointer; never underflows |
| `Transport.FragmentedBuffer.AppendByte` | include/common/wbdefs.h:1900-1901 | the message grows by that byte at its end; the position of the pointer does not move |
| `Transport.FragmentedBuffer.CurrentChunk` | include/common/wbdefs.h:1907-1909 | one round takes as much as is asked for or all that the fragment has left, and it is the next part of the message |
| `Transport.FragmentedBuffer.Copy` | include/common/wbdefs.h:1902-1919 | for every length up to the rest: exactly the next bytes of the message, the pointer advances by as many, the stated conditions hold again, the loop ends |
| `Transport.MessageInfo.CreateBuffer` | include/common/wbdefs.h:942-955 | an empty buffer for a message of that size: the built-in frame for up to 28 bytes, a new block for more |
| `Transport.MessageInfo.AddData` | include/common/wbdefs.h:961-964 | what was received grows by the part |
| `Transport.MessageInfo.Release` | include/common/wbdefs.h:956-960 | no buffer is left; an allocated block, and only that, is given back |
| `Transport.SendPacket` | include/common/wbdefs.h:1902-1919 | per packet: received bytes are the message up to the sender's pointer, the two lengths add up to the total, complete if and only if nothing is left to send |
| `Transport.Transfer` | include/common/wbdefs.h:1875-1920 | end to end: for all fragmentations and all packet sizes with the right sum the receiver holds exactly the message |
| `Wire.SendTo` | src/krnl/msw/tcpip.cpp:173-207 | the buffered and the unbuffered branch put the same frame on the wire: header and the rest of the message |
| `Wire.SendFragments` | src/krnl/msw/tcpip.cpp:196-203 | handing over fragment after fragment sends exactly the rest of the message |
| `Wire.Send` | src/common/cnetapi.cpp:9-24 | one frame with the whole message; a header alone for no buffer; nothing for a buffer with an empty message |
| `Wire.FrameIsSelfDelimiting` | src/krnl/unix/tcpipux.cpp:629-654 | the receiver cuts a frame off the stream at its end whatever follows and gets the packet type, the announced length and the data back |
| `Wire.FrameLayout` | src/krnl/msw/tcpip.cpp:173-186 | the bytes of a frame: length of the whole frame and length of the data, both with the lowest byte first, packet type, data |
| `Wire.CutFrame` | src/krnl/unix/tcpipux.cpp:645-654 | as long as a byte of a frame is missing nothing is received |
| `Wire.ReceivedIsBeginning` | src/krnl/unix/tcpipux.cpp:645-654 | whatever is received is what the stream begins with: a frame whose length fits the signed int; the rest is what follows |
| `Wire.StreamPrefix` | src/krnl/unix/tcpipux.cpp:612-657 | from any beginning of a stream of frames, cut anywhere, exactly those packets are received whose frames lie wholly in it |
| `Wire.StreamRoundTrip` | src/krnl/unix/tcpipux.cpp:612-657 | packets sent one after another are received as the same packets in the same order |
| `Wire.CopyData` | src/krnl/netapi.cpp:930-940 | the first packet creates a buffer of the announced length, later ones are appended |
| `Wire.Deliver` | src/krnl/netapi.cpp:998-1010 | end to end over a connection: fragments sent, cut off the stream and collected are complete and are exactly the message; the rest of the stream is untouched |
| `Bytes.LengthWordRoundTrip` | src/krnl/msw/tcpip.cpp:180-183 | a length word is read back unchanged if and only if the length fits 32 bits |
| `Bytes.LowestByteFirst` | src/krnl/msw/tcpip.cpp:180-183 | the bytes of a length word, the lowest first |
| `Bytes.WordOfBytes` | src/krnl/msw/tcpip.cpp:180-183 | every four bytes are the word of exactly one length |
| `SharedMemorySafety.StepKeeps` | include/common/wbdefs.h:2268-2288 | every step of client or server, the death of either included, keeps the invariant of the protocol |
| `SharedMemorySafety.RunKeeps` | include/common/wbdefs.h:2268-2288 | so does every run |
| `SharedMemorySafety.EverythingDelivered` | src/krnl/cint.cpp:1765-1919 | in every interleaving: the requests the server has in its hands when it processes them are the messages of the steps in which the client began to ask, in order and byte by byte; what the client received are the answers of the steps in which processing gave them, in order, code and bytes; exact for long messages in the newer form, and for long answers once the client has shown that it supports it; otherwise followed by less than one area of other bytes |
| `SharedMemorySafety.StepHistory` | src/srv/dispatch.cpp:382-386 | only the beginning of a request adds to the messages asked, and only processing adds an answer and the request the server holds: exactly those of the step |
| `SharedMemorySafety.RunHistory` | src/srv/dispatch.cpp:382-386 | over every run the histories are those of its steps |
| `SharedMemorySafety.FormKept` | src/srv/dispatch.cpp:344-345 | every step keeps: the server knows that the client supports the newer form once it has taken over a message sent in it, and not before the client began one; it then uses that form for long answers, and never without knowing; these are received without additional bytes |
| `SharedMemorySafety.RunForm` | src/srv/dispatch.cpp:387-407 | so does every run |
| `SharedMemorySafety.TokenUnique` | include/common/wbdefs.h:2268-2288 | exactly one of client, data event, server, done event has the right to use the areas, until the server has seen its client die |
| `SharedMemorySafety.WakeFollowsCompletion` | include/common/wbdefs.h:2268-2276 | when the wait succeeds the server has completed this very part, or has processed this very request and its answer is in the area |
| `SharedMemorySafety.PutKeeps` | src/krnl/cint.cpp:1790-1826 | the next part of the request is in the area, in the form of the client, and is not empty |
| `SharedMemorySafety.ReadMultipartRequest` | src/srv/dispatch.cpp:344-362 | the newer form: the length word and the parts rebuild the message; the 32-bit subtraction is exact |
| `SharedMemorySafety.ReadPartialRequest` | src/srv/dispatch.cpp:364-372 | the older form: whole areas appended until the flag says that a part is the last |
| `SharedMemorySafety.ReadRequestKeeps` | src/srv/dispatch.cpp:339-376 | reading a part of a request keeps the invariant in every form |
| `SharedMemorySafety.ProcessKeeps` | src/srv/dispatch.cpp:384-416 | the request processed is the message of the client; the given answer, code and first part of its data, is in the area in the right form, and is the one the history records |
| `SharedMemorySafety.NextPartKeeps` | src/srv/dispatch.cpp:395-423 | the next part of the answer, which is not empty, is in the area and continues where the client has got to |
| `SharedMemorySafety.ReadAnswerKeeps` | src/krnl/cint.cpp:1868-1918 | the client collects the answer from its parts and ends exactly when it is complete |
| `SharedMemorySafety.DeathKeeps` | include/common/wbdefs.h:2271-2283 | a dying process, a wait that fails and a server that ends leave what was exchanged intact |
| `SharedMemorySafety.NoDeadlock` | include/common/wbdefs.h:2268-2288 | two living processes always have an ordinary step to take; an idle client may ask any message, any answer that fits the length word may be given, either process may die |
| `SharedMemorySafety.NoInfiniteRun` | src/krnl/cint.cpp:1799-1825 | there is no infinite run of ordinary steps without a new request |
| `SharedMemorySafety.RequestEnds` | src/krnl/cint.cpp:1765-1919 | from every state within a request with both processes alive, the steps they can take lead to the client having one more answer |
| `SharedMemorySafety.OrdinaryStepLasts` | src/krnl/cint.cpp:1917-1920 | ordinary steps end no process, and an answer is received exactly when the client becomes idle |
| `SharedMemorySafety.Progress` | src/krnl/cint.cpp:1799-1825 | every ordinary step of a request makes a well-founded measure smaller |
| `UndoLog.GroupStartUnique` | include/gcli/fsed9.h:35-35 | the newest group is the newest record and the maximal run of SEQUENCED records before it, and nothing else meets that description |
| `UndoLog.FlagBits` | include/gcli/fsed9.h:34-35 | the two flags are bits 1 and 2; saving clears the one and grouping sets the other, and nothing else |
| `UndoLog.FlagTopMeaning` | include/gcli/fsed9.h:109-110 | only the newest record is marked as followed by another part |
| `UndoLog.OwnedMeaning` | include/gcli/fsed9.h:42-51 | a record owns a block if and only if it is a deletion of several characters, typed with either key, with a pointer; this is what it hands over |
| `UndoLog.AddedUndoneFreed` | include/gcli/fsed9.h:82-103 | adding a record and undoing it frees exactly the block of a deletion of several characters, and nothing for any other record |
| `UndoLog.DoTopRemovesOneGroup` | include/gcli/fsed9.h:94-103 | undo takes exactly that group, newest first; the rest is empty or its top is not SEQUENCED |
| `UndoLog.StepKeepsSuffix` | include/gcli/fsed9.h:82-110 | one operation of the bounded and of an unbounded register keeps the retained records a suffix, even when the group undone has lost its beginning |
| `UndoLog.RingRefinesStack` | include/gcli/fsed9.h:59-111 | over every run: fewer records than slots, and always the newest ones of the unbounded stack |
| `UndoLog.NothingLostUntilFull` | include/gcli/fsed9.h:82-92 | until the register overflows nothing is forgotten |
| `UndoLog.StepConserves` | include/gcli/fsed9.h:50-51 | each operation frees a block or keeps it |
| `UndoLog.BlocksConserved` | include/gcli/fsed9.h:64-103 | over every run the blocks handed over by records of deletions of several characters, typed with either key, are those still owned and those freed, with multiplicity |
| `UndoLog.NothingFreedTwice` | include/gcli/fsed9.h:82-103 | blocks handed over once are freed at most once and never while a record owns them |
| `UndoLog.DestructorLoss` | include/gcli/fsed9.h:78-81 | in a register of any size, as many deletions of blocks as it has slots lose a block |
| `UndoLog.DestructorLosesSentinel` | include/gcli/fsed9.h:78-81 | after the destructor exactly the block of the sentinel slot is lost |
| `UndoRing.AddToFree` | include/gcli/fsed9.h:82-92 | the slots after an addition show the register with the record added; nothing is freed, nothing owned is overwritten |
| `UndoRing.AddToFull` | include/gcli/fsed9.h:85-91 | an addition to a full buffer frees the sentinel's block, the oldest record becomes the sentinel |
| `UndoRing.RoomWhenFull` | include/gcli/fsed9.h:86-89 | the same when the slot of the sentinel is cleared before it is used |
| `UndoRing.RemoveNewest` | include/gcli/fsed9.h:98-101 | clearing the newest slot and stepping back, across the end of the array too |
| `UndoRing.SavedRound` | include/gcli/fsed9.h:106-107 | one round of the loop of `saved_now` reaches the next valid slot and no other |
| `UndoRing.SavedWindow` | include/gcli/fsed9.h:105-108 | the slots after saving show exactly the valid records marked |
| `UndoRing.FlagNewest` | include/gcli/fsed9.h:109-110 | the flag reaches the newest record and no other |
| `UndoRing.ActionRegister.constructor` | include/gcli/fsed9.h:71-77 | an empty register |
| `UndoRing.ActionRegister.ClearSlot` | include/gcli/fsed9.h:50-51 | frees the block of a deletion of several characters, typed with either key, and nulls the pointer; any other record frees nothing |
| `UndoRing.ActionRegister.Store` | include/gcli/fsed9.h:52-55 | replaces one slot |
| `UndoRing.ActionRegister.Add` | include/gcli/fsed9.h:82-92 | the circular array does what the bounded log does and frees what it frees; ignored without slots |
| `UndoRing.ActionRegister.MakeRoom` | include/gcli/fsed9.h:85-89 | slot head is free for the new record: a free slot, or that of the sentinel after its block was freed |
| `UndoRing.ActionRegister.ClearAt` | include/gcli/fsed9.h:65-66 | one round of a loop over the valid slots, from the newest |
| `UndoRing.ActionRegister.RemoveTop` | include/gcli/fsed9.h:98-101 | the newest record leaves the register and its block is freed after use |
| `UndoRing.GroupRound` | include/gcli/fsed9.h:98-102 | one round of the loop of `do_top`: it stops exactly at the beginning of the newest group |
| `UndoRing.ActionRegister.RemoveGroup` | include/gcli/fsed9.h:97-102 | the loop ends exactly at the beginning of the newest group |
| `UndoRing.ActionRegister.DoTop` | include/gcli/fsed9.h:94-103 | undoes the newest group, newest first; nothing in an empty register |
| `UndoRing.ActionRegister.ClearAll` | include/gcli/fsed9.h:64-68 | frees the blocks of all valid records; the sentinel keeps its block |
| `UndoRing.ActionRegister.MarkSaved` | include/gcli/fsed9.h:106-107 | the loop reaches all valid slots and no other |
| `UndoRing.ActionRegister.SavedNow` | include/gcli/fsed9.h:105-108 | no retained record claims to lead to the saved text |
| `UndoRing.ActionRegister.AddSeqFlag` | include/gcli/fsed9.h:109-110 | marks the newest record, in an empty register the sentinel; an access through null if and only if the register has no slots |
| `Editor.TextLengthMeaning` | src/gcli/fsed9.cpp:198-207 | the length of a line up to its first delimiter |
| `Editor.LineFromMeaning` | src/gcli/fsed9.cpp:2344-2349 | `set_position` finds the last start of a line up to the position, but never the one behind the last delimiter |
| `Editor.CursorOnLine` | src/gcli/fsed9.cpp:1033-1037 | for every cursor: the place of an insertion is on a line for `set_position` if and only if the cursor is not on the empty last line |
| `EditorEdits.InsertMeaning` | src/gcli/fsed9.cpp:1031-1047 | on the text itself: behind the end of a line the result is the text before, as many spaces as the cursor is behind, the characters, the text after; on the line the characters at their column; nothing if this does not fit the buffer |
| `EditorEdits.DeleteMeaning` | src/gcli/fsed9.cpp:2137-2153 | exactly the characters named are taken out |
| `EditorEdits.ReplaceMeaning` | src/gcli/fsed9.cpp:1049-1055 | exactly one character changes |
| `EditorEdits.InsertedTextMeaning` | src/gcli/fsed9.cpp:1033-1043 | the text a reference editor shows after typing is the one `insert_chars` makes |
| `EditorEdits.RegisterMeaning` | src/gcli/fsed9.cpp:2080-2090 | a new record is the newest of at most 99, the oldest goes, nothing can be redone any more; it is marked if and only if the text was unchanged |
| `EditorEdits.InsertKept` | src/gcli/fsed9.cpp:1044-1044 | an insertion is kept as its place and its length, spaces included |
| `EditorEdits.DeleteKept` | src/gcli/fsed9.cpp:2137-2147 | a deletion is kept with its characters, in the record or in a block, and with the key |
| `EditorEdits.ReplaceKept` | src/gcli/fsed9.cpp:1052-1052 | a replacement is kept with the former character |
| `EditorEdits.InverseMeaning` | src/gcli/fsed9.cpp:2269-2292 | what undoing a record keeps for the way back: an insertion becomes a deletion with the characters, a deletion an insertion of as many, a replacement one with the present character |
| `EditorEdits.SaveMeaning` | src/gcli/fsed9.cpp:3465-3466 | after a save the text counts as unchanged and no undo record is marked; text, redo register and all else stay |
| `EditorEdits.SequenceMeaning` | src/gcli/fsed9.cpp:346-346 | an action of several parts marks its newest record and changes nothing else |
| `Editor.ReinsertExact` | src/gcli/fsed9.cpp:1031-1047 | characters are put back to an offset exactly if and only if it is on a line, but for the empty text in a full buffer |
| `Editor.InsertExact` | src/gcli/fsed9.cpp:1031-1047 | on a line the restored characters go exactly to the recorded offset and are registered |
| `Editor.UndoInsertion` | src/gcli/fsed9.cpp:2273-2275 | undoing an insertion always restores the text and registers a deletion that should lead back |
| `Editor.UndoReplacement` | src/gcli/fsed9.cpp:2276-2278 | undoing a replacement restores the character and registers one that leads back |
| `Editor.UndoDeletion` | src/gcli/fsed9.cpp:2279-2289 | undoing a deletion on a line restores the text and registers an insertion that leads back |
| `Editor.UndoItLeads` | src/gcli/fsed9.cpp:2269-2297 | every record undone exactly reaches its text; the inverse goes to the other register and is itself exact if and only if its place is on a line |
| `Editor.UndoItExact` | src/gcli/fsed9.cpp:2269-2297 | one record is undone to its text if and only if its place is on a line, or it has nothing to put back and no room |
| `Editor.UndoItAnywhere` | src/gcli/fsed9.cpp:2269-2297 | undoing any record that fits, wherever its place is: what was really put back is registered as a record that leads back to the text before, or nothing happens to text and register because there is no room; the length of the text reached |
| `EditorHistory.ExactlyMeansReached` | src/gcli/fsed9.cpp:2256-2267 | the condition the editor can check before an undo is the exactness of every step on the way |
| `EditorHistory.TraceExact` | src/gcli/fsed9.cpp:2269-2297 | undoing records goes through exactly their texts if and only if each is harmless when its turn comes |
| `EditorHistory.UndoAllFollows` | src/gcli/fsed9.cpp:2256-2267 | undoing a whole group passes through all earlier texts and extends the history of the other register |
| `EditorHistory.GroupFollows` | src/gcli/fsed9.cpp:2256-2267 | the same for the newest part of a register; the older part still leads to its texts, and the other register stays ungrouped |
| `EditorStray.UndoAllLeadsBack` | src/gcli/fsed9.cpp:2256-2297 | however records are undone, the register for the way back leads through all texts passed, as far as it has room; exactly, if no insertion taken back leaves a place that is not on a line |
| `EditorStray.StaysLonger` | src/gcli/fsed9.cpp:1031-1047 | in a buffer with room, nothing that is undone later in a group cancels the spaces |
| `EditorStray.UndoAllExact` | src/gcli/fsed9.cpp:2269-2297 | in a buffer with room a group of any length is undone to its oldest text if and only if every record of it is undone exactly |
| `EditorReference.SameGroup` | include/gcli/fsed9.h:35-35 | the groups of the records are the groups of the reference editor's own marks |
| `EditorReference.UndoReached` | src/gcli/fsed9.cpp:2256-2261 | what an undo needs, in terms of the copies |
| `EditorReference.UndoExact` | src/gcli/fsed9.cpp:2256-2261 | in a buffer with room an undo shows the text of the reference if and only if every record of the group is undone exactly |
| `EditorReference.UndoMatches` | src/gcli/fsed9.cpp:2256-2261 | an undo goes back by one group of copies |
| `EditorReference.RedoReached` | src/gcli/fsed9.cpp:2262-2267 | what a redo needs: the place of the newest redo record is on a line |
| `EditorReference.RedoMatches` | src/gcli/fsed9.cpp:2262-2267 | a redo goes forward by one copy: redo records are never grouped |
| `EditorReference.CommandRefines` | src/gcli/fsed9.cpp:2080-2090 | every accepted command: edits, grouping, saves and exact undos and redos keep the editor in step with a reference editor that has only copies and marks, and whose edits are given by the text, the end of the line and slices alone; in a buffer with room an inexact undo or redo never shows the text of the reference |
| `EditorReference.EditorRefinesCopies` | src/gcli/fsed9.cpp:2256-2297 | every run: in a buffer with room the editor shows the copied texts all the time if and only if all undos and redos of the run find their places on lines; then registers and copies stay in step, with or without room |
| `EditorReference.UndoPassesCopies` | src/gcli/fsed9.cpp:2256-2261 | an undo passes through the reference's texts if and only if every record is harmless when its turn comes |
| `EditorReference.RedoPassesCopy` | src/gcli/fsed9.cpp:2262-2267 | a redo shows the reference's text if and only if its record has its place on a line (or nothing to put back and no room) |
| `EditorRedo.CommandSound` | src/gcli/fsed9.cpp:2080-2090 | every accepted command, inexact undos and redos too, keeps the text smaller than the buffer, the registers within their sizes and the redo records ungrouped |
| `EditorRedo.UndoLeadsBack` | src/gcli/fsed9.cpp:2256-2261 | whatever an undo does, the redo register leads from the text it leaves back through all texts it passed and on through those that could be redone before: the newest 39 of them |
| `EditorRedo.RedoLeadsBack` | src/gcli/fsed9.cpp:2262-2267 | the same for a redo and the undo register: the newest 99 texts |
| `EditorRedo.OneRedo` | src/gcli/fsed9.cpp:2262-2267 | a redo reaches the text of its record if and only if its place is on a line (or nothing to put back and no room) |
| `EditorRedo.RedosReach` | src/gcli/fsed9.cpp:2262-2267 | redoing down to a record reaches its text and its changed state |
| `EditorRedo.RedosExact` | src/gcli/fsed9.cpp:2262-2267 | redos one after another show the texts of the redo records if and only if each record has its place on a line when its turn comes (or nothing to put back and no room); in any editor |
| `EditorRedo.PushAllForgets` | include/gcli/fsed9.h:85-89 | what the reference keeps for redo are the newest texts, as many as the register has slots less one, of those it had and those an undo passes |
| `EditorRedo.PassedCopies` | src/gcli/fsed9.cpp:2256-2267 | undone exactly, a group passes through the copies, the last one first |
| `EditorRedo.WayBackExact` | include/gcli/fsed9.h:114-115 | it begins at the text itself if and only if the group has fewer than 40 records or the texts coincide |
| `EditorRedo.WayBackReached` | src/gcli/fsed9.cpp:2256-2267 | exact undo of a group of any length and as many redos as possible end where the way back begins |
| `EditorRedo.UndoThenRedo` | src/gcli/fsed9.cpp:2256-2267 | in any editor, also when the undo is inexact: undo and redos go back through the texts the undo passed, and end at the text it started from if the redo register has room for all; if no insertion taken back leaves a place that is not on a line |
| `EditorRedo.UndoThenRedoExact` | src/gcli/fsed9.cpp:2256-2267 | the redos after any undo show those texts if and only if each redo record has its place on a line when its turn comes (or nothing to put back and no room) |
| `EditorRedo.ReachableUndoThenRedo` | src/gcli/fsed9.cpp:2256-2267 | the same in every editor reachable from an opened text by any commands |
| `EditorPlaces.PlaceOnLine` | src/gcli/fsed9.cpp:198-221 | with CR only before LF: a place is on a line if and only if it is not between CR and LF and not behind the last delimiter |
| `EditorPlaces.LoneCrExample` | src/gcli/fsed9.cpp:198-221 | behind a lone CR a place is not on a line either |
| `EditorPlaces.DeletionUndoExact` | src/gcli/fsed9.cpp:2137-2153 | deleting and undoing restores the text if and only if the place is on a line afterwards (or nothing was deleted and the buffer is full) |
| `EditorPlaces.InsertionRedoExact` | src/gcli/fsed9.cpp:1031-1047 | inserting and undoing restores the text; redoing restores the insertion if and only if the cursor was not on the empty last line (or nothing was inserted and the buffer is full) |
| `EditorPlaces.DeletionAtEndExample` | src/gcli/fsed9.cpp:2137-2153 | deleting the only character of the last line and undoing fails |
| `EditorPlaces.ReturnKeyExample` | src/gcli/fsed9.cpp:736-737 | a key typed after Return at the end, undo, redo: the redo fails |
| `EditorPlaces.FullBufferExample` | src/gcli/fsed9.cpp:1033-1035 | in a buffer without room an inexact undo may show the right text: a deletion of nothing |
| `EditorPromises.CommandHonest` | src/gcli/fsed9.cpp:2293-2295 | every command but saving, undos and redos that find their places on lines, keeps: an unchanged editor shows the saved text |
| `EditorPromises.HonestRun` | src/gcli/fsed9.cpp:2293-2295 | so does every run of such commands; the others are in `StrayUndo` and `ClaimsExact` |
| `EditorPromises.RedoRun` | src/gcli/fsed9.cpp:2262-2267 | a run of redos gets to every redo record that can be redone exactly, with its text and its changed state |
| `EditorPromises.SavePromise` | include/gcli/fsed9.h:309-310 | after a save every run up to the next save whose undos and redos find their places on lines keeps `unchanged means saved` if and only if no marked redo record within reach leads to another text |
| `EditorPromises.CarefulMeansTrustworthy` | include/gcli/fsed9.h:309-310 | among the runs whose undos and redos find their places on lines, those whose saves all meet that condition are exactly those whose saves are never followed, through such a run, by a false `unchanged` |
| `EditorPromises.UnchangedMeansSaved` | src/gcli/fsed9.cpp:3465-3466 | in all these runs unchanged means saved |
| `EditorPromises.CommandMarks` | src/gcli/fsed9.cpp:2293-2295 | after a save the marked undo records all lead to the saved text, and this is kept |
| `EditorPromises.StrayUndo` | src/gcli/fsed9.cpp:2293-2295 | one undo of a single record, wherever its place is: unchanged means saved afterwards if and only if the record is not marked, or its place is on a line, or it has nothing to put back and no room |
| `EditorPromises.StrayUndoAfterSave` | src/gcli/fsed9.cpp:2293-2295 | the same for the first such undo in every run after a careful save |
| `EditorPromises.RedoFalselyUnchanged` | src/gcli/fsed9.cpp:3465-3466 | insert, save, undo, save, redo: in every new editor the text shown is not the saved one and counts as unchanged |
| `EditorPromises.UndoFalselyUnchanged` | src/gcli/fsed9.cpp:2293-2295 | an undo that does not restore the opened text counts as unchanged, too |
| `EditorTrails.StepAhead` | src/gcli/fsed9.cpp:2269-2297 | a record undone from the text its action left or from a longer one, with room: the text before is reached from the text itself, on a line, and in no other way; otherwise the text reached is longer |
| `EditorTrails.GroupTracked` | src/gcli/fsed9.cpp:2256-2267 | any undo of a group keeps for every record of both registers the texts it was made from, and the texts shown between at least as long |
| `EditorTrails.GroupClaims` | src/gcli/fsed9.cpp:2293-2295 | while a group is undone, unchanged means saved after each record if and only if every marked record is undone from the text its action left, on a line of it |
| `EditorTrails.CommandClaims` | src/gcli/fsed9.cpp:2293-2295 | the same for every command |
| `EditorTrails.ClaimsExact` | src/gcli/fsed9.cpp:3465-3466 | every run of accepted commands in a buffer with room, with careful saves: unchanged means saved all the time, between the records of a group too, if and only if every marked record undone or redone starts from the text its action left and finds its place on a line of it |
| `EditorTrails.OpenedClaimsExact` | src/gcli/fsed9.cpp:3465-3466 | so it is from every opened text on |
| `ColumnMap.UnitCount` | include/common/wbdefs.h:2055-2055 | as few units as hold all bits |
| `Bits.BitWeight` | include/common/wbdefs.h:2077-2080 | bit i is the digit of weight 2^i |
| `ColumnMap.ElementsMeaning` | include/common/wbdefs.h:2076-2080 | number n is in the map if and only if digit n % 32 of unit n / 32 is set |
| `ColumnMap.AddElement` | include/common/wbdefs.h:2076-2077 | adding inserts its own number and nothing else |
| `ColumnMap.UnionElements` | include/common/wbdefs.h:2087-2091 | or-ing units is set union, for a map that is not larger |
| `ColumnMap.CommonNumber` | include/common/wbdefs.h:2083-2084 | some pair of units has a common bit if and only if the sets have a common number |
| `ColumnMap.EqualUnits` | include/common/wbdefs.h:2101-2106 | units are equal if and only if the sets are, padding included |
| `ColumnMap.BuiltByAdd` | include/common/wbdefs.h:2076-2077 | a built map stays clean or full past the last column |
| `ColumnMap.BuiltByUnion` | include/common/wbdefs.h:2087-2091 | so does the union of two |
| `ColumnMap.PaddingHarmless` | include/common/wbdefs.h:2074-2086 | for built maps a common number exists if and only if a common column does, although set_all fills the padding |
| `ColumnMap.AtrMapFlex.Init` | include/common/wbdefs.h:2054-2061 | the size is chosen; an own block exactly when the static map is too small; the former block is given back |
| `ColumnMap.AtrMapFlex.Fill` | include/common/wbdefs.h:2072-2075 | clear: no number at all; set_all: every number of every unit, those past the last column included |
| `ColumnMap.AtrMapFlex.Add` | include/common/wbdefs.h:2076-2077 | set insertion in place |
| `ColumnMap.AtrMapFlex.Has` | include/common/wbdefs.h:2079-2080 | membership in the set |
| `ColumnMap.AtrMapFlex.Intersects` | include/common/wbdefs.h:2081-2086 | true if and only if the sets meet; for built maps of one size, if and only if they have a common column |
| `ColumnMap.AtrMapFlex.Union` | include/common/wbdefs.h:2087-2091 | set union in place, also with itself; the other map is unchanged |
| `ColumnMap.AtrMapFlex.Assign` | include/common/wbdefs.h:2097-2100 | the units of the other map |
| `ColumnMap.AtrMapFlex.Equals` | include/common/wbdefs.h:2101-2106 | true if and only if the sets are equal |
| `ColumnMap.CommonUnit` | include/common/wbdefs.h:2082-2085 | the loop of intersects |
| `ColumnMap.SameUnits` | include/common/wbdefs.h:2102-2105 | the loop of == |
| `ColumnMap.MergeUnits` | include/common/wbdefs.h:2088-2090 | the loop of union_, also when both maps are the same |
| `ColumnMap.AtrMapEnum.constructor` | include/common/wbdefs.h:2115-2116 | the enumerator stands before number 0 |
| `ColumnMap.AtrMapEnum.NextUnit` | include/common/wbdefs.h:2121-2124 | the units skipped contain no number |
| `ColumnMap.AtrMapEnum.GetNextSet` | include/common/wbdefs.h:2117-2128 | the least number above the position, or -1 if there is none; both loops end |
| `ColumnMap.Enumerate` | include/common/wbdefs.h:2111-2129 | calls up to the first -1 list exactly the set, ascending, each number once |
| `Privileges.PlacesDistinct` | include/common/wbdefs.h:2131-2131 | every pair of column and right has its own bit, behind the header and inside the descriptor |
| `Privileges.Layout` | include/common/general.h:420-427 | the byte of a column and its two masks, written out: 1, 4, 16, 64 to read, 2, 8, 32, 128 to write |
| `Privileges.SetPrivilBytes` | include/common/general.h:424-427 | the bytes of an empty descriptor after granting a right to one of the first four columns |
| `Privileges.GrantedToAllMeaning` | include/common/general.h:420-423 | the lowest bit of the header is the right to read all columns, the next one to write |
| `Privileges.DescriptorEnds` | include/common/wbdefs.h:2131-2131 | a descriptor ends with the byte of its last column |
| `Privileges.HasPrivilMeaning` | include/common/general.h:420-423 | a right is held through the header or through the bit of the column |
| `Privileges.SetPrivilMeaning` | include/common/general.h:424-427 | granting changes that pair only |
| `Privileges.PatternBits` | include/common/wbdefs.h:2163-2168 | the bytes 0xff, 0x55 and 0xaa are both rights, read and write for four columns |
| `Privileges.PrivilsFlex.constructor` | include/common/wbdefs.h:2145-2154 | a map with room for the whole descriptor |
| `Privileges.PrivilsFlex.Clear` | include/common/wbdefs.h:2161-2162 | no right in the header and none to any column |
| `Privileges.PrivilsFlex.SetAll` | include/common/wbdefs.h:2163-2168 | exactly the named rights to all columns; the header is left alone |
| `Privileges.PrivilsFlex.Add` | include/common/wbdefs.h:2169-2172 | changes that pair only and agrees with the SET macros |
| `Privileges.PrivilsFlex.Has` | include/common/wbdefs.h:2173-2176 | agrees with the HAS macros and with the meaning of the map |
| `BufferedWriter.FileBufWrite.Start` | include/krnl/ierun9.h:117-118 | no error, and the stream starts at the present contents of the file |
| `BufferedWriter.FileBufWrite.Flush` | include/krnl/ierun9.h:121-126 | the buffer is empty; without an error the file holds the whole stream; an error stays |
| `BufferedWriter.FileBufWrite.Write` | include/krnl/ierun9.h:127-144 | without an error file and buffer together hold the stream, the buffer is never full, an error stays; for writes of any size and any outcome of the system calls |
| `BufferedWriter.WriteAll` | include/krnl/ierun9.h:109-145 | for all cuttings of a stream into writes: error if and only if some system call was incomplete, otherwise the file holds the stream |
| `ObjectInfo.Fields` | include/krnl/defs.h:297-308 | storing into a bit field keeps the low bits and does not touch the other fields |
| `ObjectInfo.Layout` | include/krnl/defs.h:297-301 | values that fit stand at bits 0, 19 and 24 of the word |
| `ObjectInfo.OdbcRange` | include/krnl/defs.h:310-311 | ODBC tables are 0xffff4000 to 0xffff7fff; what looks like one in 19 bits is 0x74000 to 0x77fff |
| `ObjectInfo.ReadBack` | include/krnl/defs.h:310-311 | every number that fits 19 bits is read back, except tables 0x74000 to 0x77fff, which become 0xffff4000 to 0xffff7fff |
| `ObjectInfo.ObjnumRoundTrip` | include/krnl/defs.h:310-311 | a table number is read back if and only if it is below 0x74000, or 0x78000 to 0x7ffff, or 0xffff4000 to 0xffff7fff; any other number if and only if it fits 19 bits |
| `ObjectInfo.RoundTrip` | include/krnl/defs.h:302-314 | unpacking returns the three inputs if and only if category and flags fit their fields and the number is one of these |
| `ObjectInfo.Injective` | include/krnl/defs.h:302-314 | admissible triples have different words |
| `QueryList.QueryObjList.constructor` | include/krnl/querydef.h:36-40 | an empty list |
| `QueryList.QueryObjList.Clear` | include/krnl/querydef.h:48-59 | an empty list again; every object deleted once, in order, after its link was read |
| `QueryList.QueryObjList.Add` | include/krnl/querydef.h:61-65 | appends a detached object; the list stays a chain whose tail is the address of its last link |
| `QueryList.QueryObjList.Remove` | include/krnl/querydef.h:67-79 | takes out that object only, the last one too, and keeps the order; nothing happens for a foreign object; the object's own link is kept |
| `QueryList.QueryObjList.GetCount` | include/krnl/querydef.h:81-86 | the length of the sequence |
| `QueryList.QueryObjList.MoveTo` | include/krnl/querydef.h:90-99 | the other list has the objects; it is a valid list if and only if something was moved or it was empty |
| `Links.LastLinkRemoved` | include/krnl/querydef.h:73-74 | the address of the last link moves back if and only if the last node is taken out |
| `Links.ChainMeaning` | include/krnl/querydef.h:73-75 | a chain: the head is its first node, every node leads to the next one, the last to null, all are different |
| `Links.LinkToRemoved` | include/gcli/xmlforms.h:225-233 | link addresses taken before a node is unlinked stay right, except the address of the node's own link |
| `Links.ChainRemoved` | include/krnl/querydef.h:75-75 | a link that skips a node leaves a chain without it |
| `Links.ChainInserted` | include/gcli/xmlforms.h:230-232 | a link to a new node gives a chain with it |
| `Links.Skip` | include/krnl/querydef.h:75-75 | unlinking through the address of a link |
| `Links.Insert` | include/gcli/xmlforms.h:231-232 | linking in through the address of a link; through the node's own link the node ends up linked to itself |
| `XmlForms.MovedMeaning` | include/gcli/xmlforms.h:225-225 | moving keeps the nodes and the order of the others and puts the moved node before the one at the destination, or last |
| `XmlForms.PlaceMeaning` | include/gcli/xmlforms.h:121-127 | the place of an index: itself, the first for a negative one, behind the last for any other |
| `XmlForms.AfterMoveIsMoved` | include/gcli/xmlforms.h:225-233 | the list after a move, written out in slices |
| `XmlForms.MoveNode` | include/gcli/xmlforms.h:227-232 | the two link addresses give the moved chain if and only if the destination link is not the moved node's own |
| `XmlForms.Substitute` | include/gcli/xmlforms.h:140-158 | a new node takes the place of an old one or of the end |
| `XmlForms.NewElem` | include/gcli/xmlforms.h:37-57 | a new element: its path, its name with a colon and no aggregate, all inside the allocated size |
| `XmlForms.Fill` | include/gcli/xmlforms.h:159-176 | the three texts read back from the one buffer, one behind another, inside the computed size; a new buffer only if they do not fit |
| `XmlForms.FormLevel.GetNode` | include/gcli/xmlforms.h:121-127 | the link that holds the node of the index; behind the end the last link, which holds null; for a negative index the head |
| `XmlForms.FormLevel.MoveElem` | include/gcli/xmlforms.h:225-233 | for indices in range the list after the move is given in slices; the node is moved if and only if the destination is not the place behind it; there it is lost from the list; it crashes if and only if there is no node at the source |
| `XmlForms.FormLevel.SetElem` | include/gcli/xmlforms.h:130-178 | only the node of the index changes, or one is appended; there value, label and aggregate read back; an element stays the same node, a group is replaced |
| `XmlForms.FormLevel.SetLevel` | include/gcli/xmlforms.h:181-208 | only the node of the index changes, or one is appended; a group stays as it is, an element is replaced by an empty group |
| `XmlForms.FormLevel.ElemAt` | include/gcli/xmlforms.h:137-158 | the element of the index, new in its place or at the end if there was none |
| `XmlForms.FormLevel.Replace` | include/gcli/xmlforms.h:140-158 | a new node with its own buffer keeps the level in order |
| `XmlForms.FormLevel.Refill` | include/gcli/xmlforms.h:159-176 | writing the texts of one element leaves the texts of all others alone |
| `PackedText.StrCpy` | include/gcli/xmlforms.h:167-169 | strcpy: the text and its terminator, nothing else |
| `PackedText.Pack` | include/gcli/xmlforms.h:167-175 | three texts one behind another, each at the end of the one before with its terminator, read back as the same texts; they take exactly the computed size |
| `PackedText.HoldsReads` | include/gcli/xmlforms.h:167-175 | a stored text is the string a pointer to it denotes |
| `PackedText.ReadsHold` | include/gcli/xmlforms.h:167-175 | and the other way round |
| `FilterList.FOList.GetItem` | include/gcli/fodlg.h:49-54 | the item at the index, null directly behind the last; an access through null if and only if the index is negative or farther behind |
| `FilterList.FOList.Count` | include/gcli/fodlg.h:63-68 | the length |
| `FilterList.FOList.SetCount` | include/gcli/fodlg.h:72-81 | the old items stay as a prefix, the length is the maximum of both, the items added are new |
| `FilterList.FOList.Append` | include/gcli/fodlg.h:77-78 | a new item at the last link |
| `FilterList.FOList.Delete` | include/gcli/fodlg.h:85-104 | exactly `count` items are removed from the place on if there are as many, otherwise all behind it; none for a count up to 0; the run is freed, each item once; nothing for a place that does not exist; an access through null if and only if the run goes past the end |
| `FilterList.FOList.Clear` | include/gcli/fodlg.h:108-117 | an empty list; every item freed once |
| `FilterList.FOList.DeleteFrom` | include/gcli/fodlg.h:85-104 | the outer loop |
| `FilterList.DeleteRun` | include/gcli/fodlg.h:93-100 | the inner loop, which reads through null exactly when there are too few items, after taking out all there are |
| `FilterList.DeletePastEnd` | include/gcli/fodlg.h:95-98 | one item and a request to delete two crashes |
| `FilterList.TakenMeaning` | include/gcli/fodlg.h:93-100 | taking a node out n times at one place removes the run of n nodes from there |

## Left out

- Transport.FragmentedBuffer.Copy: the bytes stored at the destination are the result of the method; a destination that overlaps a fragment is not modelled.
- Transport.FragmentedBuffer.TotalLength: lengths are unbounded; 32-bit overflow of the total is not modelled.
- Transport.MessageInfo.CreateBuffer: allocation succeeds, as everywhere in the model.
- Wire.Send: a socket that fails or is closed is not modelled; the loop of `send_iter` over partial sends is taken as one write.
- Wire.StreamRoundTrip: the receiver is the plain TCP one; HTTP tunnelling and encryption are left out. The length must fit the signed int in which it is received.
- SharedMemorySafety.EverythingDelivered: data exchanged during a request (answer flag 17, status numbers, import and export), the `SERVER_DOWN` values of the flag, `OP_ACCCLOSE` and the shutdown of the slave are left out. A message sent without its length, and an answer not in the newer form of several parts, may be followed by what is left of the last area, as in the program: less than one area, and one whole area for an empty answer.
- SharedMemorySafety.TokenUnique: after the server has seen its client die it sets the done event once more; nobody waits for it.
- Editor.UndoItLeads: the editor is modelled on values, not as one buffer moved in place; the texts have no NUL character. Cursor, scrolling, bookmarks and indentation are left out.
- EditorReference.CommandRefines: `del_chars` gets its block; the branch that clears the undo register without memory is left out. That an inexact undo never shows the reference's text holds in a buffer with room; without room missing characters and spaces can cancel each other, as in `FullBufferExample`. `UndoPassesCopies` and `RedoPassesCopy` are exact with or without room.
- EditorReference.EditorRefinesCopies: the same.
- EditorTrails.ClaimsExact: for buffers with room for what is put back and its spaces, and for saves that leave no redo record marked for another text; the first inexact undo of a single record is covered without room by `StrayUndoAfterSave`, saves that are not careful by `SavePromise`.
- EditorHistory.TraceExact: when a buffer was too full to put something back, later records of its group may not fit the text any more; the model stops there, where the program would write outside the text. With room they always fit (`StaysLonger`).
- EditorRedo.UndoThenRedo: the condition is one that can be checked before the undo; the exact one, about the records that the undo leaves, is in `UndoThenRedoExact`.
- UndoRing.ActionRegister.DoTop: `undoit` is a callback that does not touch the register it is called from; the records it gets are the result.
- ColumnMap.AtrMapFlex.Init: the contents of a new block are arbitrary until `clear` or `set_all`. `expand`, `add_exp` and `union_exp` are left out.
- ColumnMap.AtrMapEnum.GetNextSet: not called again after it has returned -1.
- Privileges.PrivilsFlex.constructor: stands for construction and `init`; a second `init` and `release` are left out. `has_del`, `has_ins` and `has_grant` are single bits of the header and left out.
- BufferedWriter.FileBufWrite.Write: sizes are not negative.
- QueryList.QueryObjList.Add: the object is detached, its link null; the list does not check it.
- QueryList.QueryObjList.MoveTo: not into itself.
- XmlForms.FormLevel.SetElem: the texts passed are not parts of the element's own buffer. A deleted group leaves its subgroup list allocated, as in the program; that memory is not tracked.
- XmlForms.FormLevel.SetLevel: a replaced element is deleted with its buffer; freeing is not tracked.
- `t_commenc_pseudo`, `t_dynar`, `t_flstr`, `t_name_hash`, `t_base64`: other utilities of the headers, without the state that is modelled here.
- `t_atrmap` and the copy of `t_file_bufwrite` in include/gcli/transdsgn.h: variants that would repeat the same proofs.
- SQL compilation, storage, transactions, designers, dialogs, mail and ODBC: not part of this model.
