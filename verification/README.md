# Line editor, record conversion, calendar and copy protocol

Dafny models of four programs of a Unix userland, `ed`, `dd`, `date` and `cpdup`, with proofs of what they
are for.  `dafny verify dfyconfig.toml` checks everything.

## ed

The buffer of `ed` is a ring of line nodes around a sentinel.  Commands splice the ring, and the undo stack
remembers only the two end nodes of each splice: deleted runs keep their own links, undo walks the stack and
relinks them, flips the types of the entries and reverses the array, and thereby makes a redo stack.  A cache
of one entry finds nodes by number, marks and a list of active lines point into the ring, and texts live in a
scratch file that is only ever appended to.

`EdSpec` is a reference editor with none of this: a list of lines, a current line, and one saved copy that
undo exchanges with the present.  The main theorem is `EdSession.Editor.Run`: for every script, with command
lists under `g` and `v`, the linked editor ends where the reference editor does.  `EdEffects` says where each
command of the reference editor puts which lines, which line is current then and which addresses are refused, in
terms of the lines before and after alone; `EdLaws` says what holds across commands: undo, marks, global commands,
substitution.

| module | |
|---|---|
| `EdLinks` | nodes, rings, and what the REQUE macros do to them |
| `EdHistory` | the invariant of undo: the rings of the past, and links that fit the nearest of them |
| `EdSpec`, `EdLaws` | the reference editor and its laws |
| `EdEffects` | what each command of the reference editor does, line by line |
| `EdState` | the variables of `ed`, what they stand for, and the invariants |
| `EdBuf`, `EdMain`, `EdGlobal`, `EdUndo`, `EdClear` | the functions of `buf.c`, `main.c`, `sub.c`, `glbl.c` and `undo.c` |
| `EdSession` | commands, global commands, searches, and whole scripts |
| `EdSubst` | substitution within one line |
| `EdTypes` | types that the reference editor and `EdSubst` share |
| `EdCbc` | encrypted files, cipher block chaining as in section 6.2 of NIST SP 800-38A with a last block of its own |

The heart of the proof is `EdHistory`.  A ghost history lists the rings from the saved one to the present.
Its invariant says that the times at which a node is on the ring are an interval, and that every allocated
node points as it did on the ring nearest in time.  Each undone entry moves the present one step back along
the history, and when the start is reached the history, read backwards, is the history of the redo stack.

## dd, date, cpdup

- `DdSpec` and `DdConv`: `def`, `block` and `unblock` stream through fixed buffers, for every way in which reads
  and writes are split, and amount to functions of the whole input.
- `DateVary`: `date -v` moves the seconds since the Epoch of section 4.15 of the Base Definitions volume of
  POSIX.1-2008 by exactly what is asked.
- `CpdupWire`, `CpdupDir`, `CpdupFile`, `CpdupSwap`: replies split over packets arrive as they were sent.
- `CpdupCache`: checksum caches are read back as they were written.
- `CpdupIgnore`, `CpdupList`: which names are ignored, which are copied and which are removed.

## Where code and comments differ

The models follow the code.

- `block_close` claims that translation need not be worried about; a short last line is written untranslated
  (`DdSpec.BlockedMapped` has the exact condition).
- `hc_bswap64` extends a sign where none is (`CpdupSwap.Swap64Exact`).
- `get_line_node_addr` finds a node off the ring at address 0 when the buffer is empty (`EdBuf.GetLineNodeAddr`).
- `adjyear` does not cut the day to the month, unlike `adjmon` (`DateVary.YearKeepsDate` has the exact condition).
- `dd.1` promises the number of truncated records and a full last block under osync.  The count depends on where
  reads end (`DdSpec.CutsCount`).  `block_close` leaves the pointer at which the last block is filled in front of
  the record it has just made, so that the record is written over (`DdSpec.OsyncLosesLine`; `DdSpec.OsyncAlways` has
  the exact condition), and a last record that runs over the end of a block leaves the next one short
  (`DdSpec.OsyncRunsOver`, `DdSpec.OsyncLinesRight`).
- `hc_read` keeps an offset in the header of the current packet, which the next packet overwrites
  (`CpdupFile.FetchFile` has the exact condition, `CpdupFile.RegularSpoils` for regular files).  Copying is safe,
  because it asks for 65536 bytes (`CpdupFile.WholeRequests`).  `ScanDir` of `cpdup.c` is not: it asks for 8191 bytes of
  a remote `.cpignore`, and fails on every one of more than 65496 bytes in short lines (`CpdupFile.SmallRequests`,
  `CpdupIgnore.ScanRemote`).
- A line of `.cpignore` that fills the buffer ends the scan without a word, and the patterns behind it are lost
  (`CpdupIgnore.TakenLines`).
- A cache file with a length of 2 to the 31 less 1 makes the size of a buffer overflow (`CpdupCache.NotCountable`).
- Going forth and back by months may lose the day, as `date.1` says (`DateVary.MonthsForthAndBack`).

## Model

| member | source | states |
|---|---|---|
| `EdLinks.InsertLinks` | bin/ed/ed.h:160-168 | INSQUE on a circular list: after the two REQUEs the ring is the old one with a chain of nodes spliced in behind a position, forward and back, and no link outside the ring changes |
| `EdLinks.RemoveLinks` | bin/ed/ed.h:160-170 | one REQUE around a run of nodes leaves the ring without the run, while every node of the run keeps the links it had |
| `EdLinks.MoveLinks` | bin/ed/main.c:1136-1139 | the three REQUEs of a move take a run out of one gap and put it into another, for any two gaps of the ring |
| `EdLinks.UndoAddLinks` | bin/ed/undo.c:100-102 | the REQUE that undoes an addition, with the neighbours read from the run itself, gives back the ring without the run |
| `EdLinks.UndoDelLinks` | bin/ed/undo.c:103-106 | a detached run whose own links still name its old neighbours is put back between them by two REQUEs |
| `EdLinks.UndoMoveLinks` | bin/ed/undo.c:107-113 | the three REQUEs that undo a move, through pointers that change while they run, give back the ring before the move |
| `EdHistory.Push` | bin/ed/undo.c:41-68 | recording a splice keeps the invariant of the undo stack: every allocated node points as it did on the ring nearest in time on which it stood |
| `EdHistory.UndoAdd` | bin/ed/undo.c:100-102 | from the present ring the invariant leads one step back in time over an addition |
| `EdHistory.UndoDel` | bin/ed/undo.c:103-106 | the same over a deletion: the detached run is found intact, with links to its old neighbours |
| `EdHistory.UndoMove` | bin/ed/undo.c:107-113 | the same over a move |
| `EdHistory.Turn` | bin/ed/undo.c:118-126 | when all entries are undone, the history read backwards is again a correct history: the undo stack has become the redo stack |
| `EdHistory.ReverseFlat` | bin/ed/undo.c:120-122 | reversing the whole array of entries, pairs of UMOV and VMOV included, records the reversed steps |
| `EdHistory.MirrorSwaps` | bin/ed/undo.c:118-122 | flipping the types of its entries turns a step into the step that leads the other way |
| `EdHistory.HistoryPush` | bin/ed/undo.c:41-68 | recording a command keeps: the stack is the way back to the saved ring, and the allocated nodes are exactly those of its history |
| `EdSpec.Exec` | bin/ed/main.c:439-774 | whatever the command and its addresses, the current line stays in the buffer and in the saved copy, the marks stay 26, and a running global command gets no further lines |
| `EdSpec.AddrOf` | bin/ed/buf.c:142-154 | the number of a line is found if and only if the line is in the buffer |
| `EdSpec.Visit` | bin/ed/glbl.c:75-134 | the loop over the active lines terminates, because no command adds to them, and keeps the current line in the buffer |
| `EdBuf.GetAddressed` | bin/ed/buf.c:159-186 | for every ring and every cache entry that is right, the node found is the one at the given position, the new cache entry is right, and at most half of the links (rounded up) are followed |
| `EdBuf.GetLineNodeAddr` | bin/ed/buf.c:142-154 | it inverts the lookup on every node of the ring; a node off the ring is an error, except in an empty buffer, where the answer is 0 |
| `EdBuf.PushUndo` | bin/ed/undo.c:41-68 | the entry names the nodes at the two addresses and the cache is left at the first |
| `EdBuf.AddLineNode` | bin/ed/buf.c:129-139 | the node is on the ring behind the current line, ring and cache stay consistent, and links outside do not change |
| `EdBuf.WriteText` | bin/ed/buf.c:80-125 | the scratch file is only ever extended, its position stays what sfseek says, and the place returned holds the text |
| `EdBuf.GetSbufLine` | bin/ed/buf.c:45-76 | for every node, whatever has been written, read, duplicated or undone since, the text is the one that was stored for it |
| `EdBuf.DupLineNode` | bin/ed/main.c:1282-1295 | a second node for the same stored text reads back that text |
| `EdBuf.PutSbufLine` | bin/ed/buf.c:80-125 | a line is stored and linked behind the current one, unless it is too long |
| `EdBuf.PutLines` | bin/ed/main.c:1023-1066 | a loop of put_sbuf_line with one growing UADD entry refines the insertion of a list of lines, for all texts, and keeps all invariants; it stops at the first text that is too long |
| `EdGlobal.UnsetOne` | bin/ed/glbl.c:184-197 | the rotating search from active_ndx finds a pointer wherever it is in the list and clears it, and only it |
| `EdGlobal.UnsetActive` | bin/ed/glbl.c:184-197 | every node of a run is cleared from the active list, whatever the state of active_ndx |
| `EdMain.DeleteLines` | bin/ed/main.c:1188-1209 | deleting a range of the ring refines deleting it from the list of lines; undo record, cache, marks, active list and scratch file stay consistent |
| `EdMain.MoveLines` | bin/ed/main.c:1108-1148 | moving refines moving a block of the list, for every destination outside the block, the two that change nothing included |
| `EdMain.CopyLines` | bin/ed/main.c:1152-1184 | copying refines inserting copies of the range as it was before, also when the destination lies inside the range and the loop walks over lines it has just put in |
| `EdMain.JoinLines` | bin/ed/main.c:1071-1103 | joining refines replacing the range by the concatenation of its texts |
| `EdMain.CollectText` | bin/ed/main.c:1081-1089 | following the links from the first line to the node behind the last collects the concatenation of the texts |
| `EdMain.AppendLines` | bin/ed/main.c:1022-1066 | appending refines insertion behind the addressed line |
| `EdMain.SearchReplace` | bin/ed/sub.c:113-160 | the loop, which calls substitute_matching_text on each line and deletes and inserts, refines the reference substitution, including where an error leaves it and which line is current at the end |
| `EdUndo.ReverseStack` | bin/ed/undo.c:120-122 | swapping the halves of the stack reverses it |
| `EdUndo.UndoEntry` | bin/ed/undo.c:98-119 | one pass of the undo loop, on whatever entry is on top, leads from one ring of the history to the one before and flips the entry |
| `EdUndo.PopUndo` | bin/ed/undo.c:84-129 | after any sequence of recorded commands undo restores exactly the ring, current line and line count saved at the last clear, and saves the present ones in exchange, so that the next undo redoes; it fails only if nothing was ever saved |
| `EdUndo.MarkLine` | bin/ed/main.c:1242-1252 | the array of marks after mark_line_node, and markno stays the number of marks in use |
| `EdUndo.Unmark` | bin/ed/main.c:1268-1278 | all marks of a node are cleared although the loop stops as soon as markno is 0, and markno stays the number of marks in use |
| `EdClear.FreeRun` | bin/ed/undo.c:140-146 | following the links of a deleted run frees each of its nodes once and clears its marks |
| `EdClear.ClearEntries` | bin/ed/undo.c:138-147 | over the whole stack, the nodes freed are distinct and none is freed that a later entry still needs |
| `EdClear.ClearUndo` | bin/ed/undo.c:133-150 | clearing frees exactly the allocated nodes that are not on the ring, each once, leaves no mark on a freed node, and saves the buffer for undo |
| `EdClear.OwnedOnce` | bin/ed/undo.c:133-150 | an allocated node is off the ring if and only if an entry of the stack owns it, and then it is exactly one, a deletion: nothing is forgotten and nothing freed twice |
| `EdSession.ExecCommand` | bin/ed/main.c:439-774 | every command on the linked buffer, k and u included, does what the reference editor does, with the same success or failure |
| `EdSession.MarkCommand` | bin/ed/main.c:584-593 | k puts the mark on the node of the addressed line, all invariants of the editor hold afterwards, and the reference editor has the same marks |
| `EdSession.BuildActive` | bin/ed/glbl.c:41-69 | the active list holds the selected lines of the range, in order and without duplicates |
| `EdSession.NextLine` | bin/ed/glbl.c:96-98 | the next active node is the first line not yet visited of the reference editor, and it is on the ring |
| `EdSession.VisitLines` | bin/ed/glbl.c:96-134 | the loop of a global command visits the lines that the reference editor visits and leaves the same buffer, for every command list |
| `EdSession.GlobalCommand` | bin/ed/main.c:531-547 | g and v refine the reference editor from selection to the last visit |
| `EdSession.MatchingAddr` | bin/ed/main.c:888-909 | a search finds the nearest matching line in its direction, going round the end of the buffer, the current line last; it fails if and only if no line matches |
| `EdSession.SearchNearest` | bin/ed/main.c:888-909 | what nearest means, in addresses: forwards the lines behind the current one come first, then those from line 1 on, backwards those before it, then those from the end |
| `EdSession.MarkedAddr` | bin/ed/main.c:1256-1264 | a mark leads to its line wherever the line has moved, and to an error when the line is not in the buffer, unless the buffer is empty |
| `EdSession.Editor.constructor` | bin/ed/buf.c:247-268 | the initial state satisfies all invariants and is the empty buffer with nothing to undo |
| `EdSession.Editor.Obey` | bin/ed/main.c:207-245 | one command from the main loop refines the reference editor |
| `EdSession.Editor.Run` | bin/ed/main.c:207-245 | for every script, whose commands may compute their addresses from the buffer and the marks they find, the linked editor ends in the state of the reference editor; a command that fails ends the script, unless it comes from a terminal |
| `EdLaws.UndoRestores` | bin/ed/undo.c:84-129 | u after any command gives back the buffer and the current line that the command found, and a second u gives back what the command left |
| `EdLaws.GlobalUndone` | bin/ed/glbl.c:96-134 | one u takes back a whole global command, also one that failed half way |
| `EdLaws.UndoRestoresMarks` | bin/ed/undo.c:84-150 | u after any command gives every mark the address it had before the command, marks of deleted lines included |
| `EdLaws.GlobalUndoneMarks` | bin/ed/glbl.c:96-134 | the same for a whole global command |
| `EdLaws.MoveMark` | bin/ed/main.c:1108-1148 | moving lines keeps every mark on its line, moved or not, and gives no other mark an address |
| `EdLaws.SessionMark` | bin/ed/main.c:1242-1278 | over whole sessions a mark never leads to a line other than the one it was put on; it leads there whenever the line is in the buffer, unless the undo stack was cleared at a time when the line was not, and from then on it leads nowhere |
| `EdLaws.ExecNamed` | bin/ed/main.c:439-774 | every command keeps line identities unique, in the buffer and in the saved copy, and one identity is one line in both |
| `EdLaws.ReachableNamed` | bin/ed/main.c:207-245 | in every state that any script reaches, identities name lines |
| `EdLaws.ExecStays` | bin/ed/glbl.c:184-197 | no command, u included, adds a line to those to be visited, changes the text of one, or takes one out of the buffer without taking it off the list |
| `EdLaws.ExecActive` | bin/ed/main.c:1143-1144 | a command that succeeds takes off the list exactly the lines that it deletes, moves or replaces |
| `EdLaws.GlobalVisits` | bin/ed/glbl.c:96-134 | a global command visits selected lines in order, none twice; at its visit a line is still in the buffer, still matches, and no command run at an earlier visit has touched it |
| `EdLaws.GlobalVisitsAll` | bin/ed/glbl.c:96-134 | a global command that does not fail visits every selected line, except those that a command touched |
| `EdLaws.SubstImages` | bin/ed/sub.c:127-151 | substitution examines every line of its range once and none that it put in; each is replaced by its image up to the first line on which it fails, of that one the part that fits is put in, and all other lines stay |
| `EdLaws.SubstCommand` | bin/ed/sub.c:113-220 | for every pattern, template, count and flag: s succeeds if and only if it fails on no line of the range and changes one; it fails on a line if and only if g meets an empty match before the end of the line or a resulting line is too long; the lines before the first such line become what the template makes of their chosen matches |
| `EdLaws.ReplacerFails` | bin/ed/sub.c:113-220 | the exact condition under which a substitution fails on one line |
| `EdLaws.ReplacerImage` | bin/ed/sub.c:167-220 | the exact lines that replace a line, and the line itself where there are fewer matches than the count |
| `EdEffects.AppendLaw` | bin/ed/main.c:455-460 | for every address: a leaves the lines up to it and the lines behind it, puts the texts between them, and makes the last of them current; it refuses exactly the addresses outside 0 to the last line, and then changes nothing |
| `EdEffects.InsertLaw` | bin/ed/main.c:565-574 | the same for i, in front of the line, which may not be 0 |
| `EdEffects.ChangeLaw` | bin/ed/main.c:461-469 | the same for c, in the place of the lines of the range |
| `EdEffects.DeleteLaw` | bin/ed/main.c:470-479 | after d the lines of the range are gone, all others stay, and the line behind the range is current, or the last line if there is none; exact refusals |
| `EdEffects.JoinLaw` | bin/ed/main.c:575-583 | after j one line with the joined text stands in the place of the range and is current, all other lines stay; one line is left as it is |
| `EdEffects.CopyLaw` | bin/ed/main.c:758-766 | after t the texts of the range stand behind the third address, which may lie in the range, the last of them is current, and all lines stay |
| `EdEffects.MoveLaw` | bin/ed/main.c:602-613 | after m the block stands in one piece and in order, the line of the third address directly before it, all other lines keep their order, and the last line moved is current; it is refused exactly when the third address lies in the block and is not its last line, or an address is outside the buffer |
| `EdEffects.MarkLaw` | bin/ed/main.c:584-593 | after k the letter leads to the line and all other letters lead where they led; only a to z |
| `EdEffects.MarkEmpty` | bin/ed/main.c:1256-1264 | in an empty buffer every letter leads to address 0, set or not |
| `EdEffects.UndoLaw` | bin/ed/main.c:767-775 | u exchanges the buffer with the saved one, empties the list of lines to be visited, and fails exactly when nothing is saved |
| `EdEffects.SubstCurrent` | bin/ed/sub.c:120-155 | after s the last line put in for the last line that changed is current; the current line stays if no line changed |
| `EdEffects.SubstRefused` | bin/ed/main.c:733-757 | s refuses every range that is not in the buffer |
| `EdEffects.TouchedLaw` | bin/ed/main.c:1136-1146 | the lines that a legal command deletes, moves or replaces, by address: those of the range of c, d and m, of j if there are two or more, those that s changes, and none for the others |
| `EdEffects.ActiveLaw` | bin/ed/glbl.c:184-197 | a command in a command list takes off the list of lines to be visited exactly those; u takes off all |
| `EdEffects.RunListLaw` | bin/ed/glbl.c:100-134 | a command list obeys its commands in order and stops at the first that fails |
| `EdEffects.SessionLaw` | bin/ed/main.c:207-245 | at a terminal a session obeys its commands in order; elsewhere it ends at the first that fails |
| `EdEffects.GlobalChain` | bin/ed/glbl.c:96-134 | a global command from visit to visit: the first finds the buffer as it was, each other what the one before has left, the last leaves the result, and it fails exactly when the last does |
| `EdEffects.GlobalSelects` | bin/ed/glbl.c:41-69 | every line visited is a line of the range that matches |
| `EdEffects.GlobalReaches` | bin/ed/glbl.c:96-134 | every matching line of the range is visited, or deleted, moved or replaced by a command before |
| `EdEffects.GlobalInOrder` | bin/ed/glbl.c:96-134 | lines are visited in the order of their addresses when the command begins |
| `EdSubst.ApplyTemplate` | bin/ed/sub.c:225-254 | the in-place expansion yields the pieces of the template in order, which EdSubst.TemplateMatch, TemplateEscape, TemplateChar and TemplateEmpty name for every template, for every buffer size at the start |
| `EdSubst.TemplateMatch` | bin/ed/sub.c:234-239 | an ampersand stands for the matched text, whatever follows it |
| `EdSubst.TemplateEscape` | bin/ed/sub.c:240-249 | a backslash and a digit from 1 to the number of groups stand for the text of that group, and for nothing if it took no part in the match; a backslash and anything else stand for the character |
| `EdSubst.TemplateChar` | bin/ed/sub.c:247-250 | every other character stands for itself |
| `EdSubst.TemplateEmpty` | bin/ed/sub.c:233-253 | an empty template stands for nothing |
| `EdSubst.Substitute` | bin/ed/sub.c:167-220 | for every matcher that keeps its offsets in the text, the loop terminates and computes the scan of the line, its error and its lines |
| `EdSubst.SplitLines` | bin/ed/sub.c:136-149 | the result buffer is cut at its newlines |
| `EdSubst.ScanKeeps` | bin/ed/sub.c:180-207 | gaps, matches and tail of a scan make up the line again |
| `EdSubst.ScanChooses` | bin/ed/sub.c:182-183 | with a count k the k-th match is replaced and no other, without one every match; without the flag g no match behind the first replaced one is looked for |
| `EdSubst.ScanMatches` | bin/ed/sub.c:180-207 | every match is the one that the matcher finds in the text behind the match before |
| `EdSubst.ScanEnds` | bin/ed/sub.c:205-207 | the search leaves out a further match only when the flag g is off and a match has been replaced, or when it is stuck at an empty match |
| `EdSubst.JoinedLines` | bin/ed/sub.c:136-149 | the stored lines, joined by newlines, are the result, and hold no newline |
| `EdSubst.SubstitutedMeans` | bin/ed/sub.c:167-220 | what becomes of a line, for all patterns, templates, counts and flags: the chosen matches are replaced, nothing else changes; the error of an infinite loop occurs if and only if g is set and an empty match leaves text behind |
| `EdSubst.SubstitutedFirst` | bin/ed/sub.c:167-220 | without count and flag the result is the text before the first match, its expansion, and the text behind |
| `EdSubst.SubstitutedNth` | bin/ed/sub.c:167-220 | with a count k and without g the result is the text up to the k-th match, its expansion, and the text behind it; the match is what the matcher finds where the one before ended |
| `EdSubst.SubstitutedAll` | bin/ed/sub.c:167-220 | with g and without count the result is that of a reference that replaces one match after the other from left to right, until none is found |
| `EdCbc.RoundTrip` | bin/ed/cbc.c:324-397 | decryption undoes encryption for every data, every padding, every chaining vector and every invertible block function |
| `EdCbc.Chained` | bin/ed/cbc.c:324-355 | block i of the file encrypts block i of the data combined with block i - 1 of the file, with the initial vector for the first; the last block holds the bytes left over, padding from the front of pvec, and their number in its last byte |
| `EdCbc.EncryptSize` | bin/ed/io.c:186-189 | the file is 8 - n mod 8 bytes longer than n bytes of data |
| `EdCbc.BlocksThen` | bin/ed/cbc.c:324-359 | encrypting block by block and then the rest is encrypting at once |
| `EdCbc.Stream.constructor` | bin/ed/cbc.c:91-106 | a new stream has put nothing, and has the decryption of the file to give |
| `EdCbc.Stream.EncodeBlock` | bin/ed/cbc.c:324-340 | a full buffer is chained and written |
| `EdCbc.Stream.EncodeLast` | bin/ed/cbc.c:341-359 | the last block holds the bytes left over, padding, and their number, whatever was in the buffer |
| `EdCbc.Stream.PutChar` | bin/ed/cbc.c:126-138 | buffering does not show: the bytes put are those before and the new one |
| `EdCbc.Stream.Flush` | bin/ed/cbc.c:142-154 | the file is the encryption of all that was put, an extra block included when the data fill the last one |
| `EdCbc.Stream.DecodeBlock` | bin/ed/cbc.c:362-397 | reading a block changes nothing of what is still to be delivered, for every file, damaged ones included |
| `EdCbc.Stream.GetChar` | bin/ed/cbc.c:110-122 | the bytes come in order, then EOF, and EOF ever after |
| `EdCbc.WriteStream` | bin/ed/io.c:166-191 | the stream of characters becomes the encrypted file, and the size reported is its size |
| `EdCbc.ReadStream` | bin/ed/io.c:63-107 | reading to the end gives the decryption of the file, for every file |
| `EdCbc.WriteThenRead` | bin/ed/cbc.c:110-154 | what is written comes back, whatever padding either side uses |
| `DdConv.Output.WriteBlock` | bin/dd/dd.c:376-440 | a block is written once and in order for every pattern of partial writes and of writes that signals interrupt |
| `DdConv.Output.FlushBlocks` | bin/dd/dd.c:351-445 | writing whole blocks and moving the rest to the front neither loses nor repeats a byte, and leaves less than a block |
| `DdConv.Output.FlushAll` | bin/dd/dd.c:351-445 | a forced write empties the buffer |
| `DdConv.Output.CloseFilled` | bin/dd/dd.c:331-349 | osync fills the last block exactly, when out.dbp stands behind the output and the output in the buffer does not exceed a block; otherwise all is written as it is |
| `DdConv.Input.Read` | bin/dd/dd.c:254-318 | what is read stands behind what is left of earlier reads |
| `DdConv.Input.Translate` | bin/dd/conv.c:59-61 | only the bytes last read are translated |
| `DdConv.Def` | bin/dd/conv.c:52-79 | one buffer for input and output suffices: its output and its rest are the translated input |
| `DdConv.RunDef` | bin/dd/conv.c:52-87 | byte i of the output is the table entry of byte i of the input, or byte i itself without a table; behind the input there is nothing, or under osync NULs to the end of the block; for all block sizes and every way the input arrives and the output is taken |
| `DdSpec.FilledLaw` | bin/dd/dd.c:340-346 | a filled output is the output and fill bytes behind it, to the end of the block it ends in |
| `DdConv.Unblock` | bin/dd/conv.c:209-243 | a call converts what it can and keeps less than a record, so that the output to come is that of all the input |
| `DdConv.CloseUnblock` | bin/dd/conv.c:245-264 | the short record at the end is converted like the others; the output under osync is OsyncLines of it |
| `DdConv.RunUnblock` | bin/dd/conv.c:209-264 | the output is the input cut into records of cbsz bytes, each without trailing spaces and with a newline, for every chunking; under osync it is filled to whole blocks if and only if the short last record does not run over the end of a block, or ends where a block ends; no access leaves the buffers sized in setup |
| `DdSpec.UnblockedLaw` | bin/dd/conv.c:209-264 | a record whose bytes from n on are spaces and whose byte before them is none becomes the line of its first n bytes |
| `DdConv.SkipCut` | bin/dd/conv.c:149-155 | the rest of a cut line is skipped up to its newline, as far as it has been read |
| `DdConv.BlockRecord` | bin/dd/conv.c:131-177 | one turn of the loop: a line is padded, cut, or left in the buffer until more of it arrives |
| `DdConv.Block` | bin/dd/conv.c:96-180 | a call keeps the output to come, in whatever state a line that crosses reads is |
| `DdConv.CloseBlock` | bin/dd/conv.c:182-200 | the last line without newline is padded, not translated, and counted; the output under osync is OsyncRecords of it, of what was written before, and of what the buffer held at first |
| `DdConv.RunBlock` | bin/dd/conv.c:96-200 | the output is every line cut or padded to cbsz bytes, and st.trunc the count of DdSpec.Cuts, for every chunking of the input, every output block size and every pattern of writes; under osync the output is determined byte by byte, and the last block is filled right if and only if RecordHarmless holds, for which Harmless, a condition on the input alone, suffices; no access leaves the buffers sized in setup |
| `DdSpec.BlockedLaw` | bin/dd/conv.c:96-178 | a line up to its newline becomes cbsz bytes: the bytes of the line through the table, then the table entry of the space |
| `DdSpec.BlockedEnd` | bin/dd/conv.c:182-199 | the same for a last line without newline, whose bytes do not go through the table when it is shorter than a record; nothing makes no record |
| `DdSpec.CutsSample` | bin/dd/conv.c:157-194 | the count on three inputs: a line too long, a line that just fits, a line without newline |
| `DdConv.BlockThenUnblock` | bin/dd/conv.c:96-264 | the two programs one after the other, with any input and output block sizes in either pass, give the text back if and only if it is regular |
| `DdConv.Setup` | bin/dd/dd.c:139-147 | the buffer sizes for which all of this holds |
| `DdSpec.RoundTrip` | bin/dd/conv.c:96-264 | unblock after block gives the text back if and only if every line ends in a newline, has at most cbsz bytes and no trailing space |
| `DdSpec.BlockedMapped` | bin/dd/conv.c:183-199 | blocking with a table is blocking and then translating, if and only if the last line is terminated, or long enough to be cut, or not changed by the table |
| `DdSpec.LastUntranslated` | bin/dd/conv.c:183-199 | an input on which the order matters |
| `DdSpec.CutsCount` | bin/dd/conv.c:157-170 | the count of truncated records is the number of lines longer than cbsz, plus those of exactly cbsz bytes whose newline is the first byte of a later read, plus an unended last line that loses nothing |
| `DdSpec.CutsVary` | bin/dd/conv.c:157-170 | one input that gives two counts, depending on where a read ends |
| `DdSpec.OsyncLinesRight` | bin/dd/dd.c:340-346 | unblock fills the last block if and only if the last line does not run over its end or ends where a block ends |
| `DdSpec.OsyncRecordsRight` | bin/dd/dd.c:340-346 | block fills the last block right if and only if there is no unended last line, or its record ends where a block ends, or it leaves room and both the bytes written over and the end of the block before it in the buffer are spaces |
| `DdSpec.OsyncAlways` | bin/dd/dd.c:340-346 | it does so whatever the buffer held at first, if and only if one of these holds with at least one whole block written before: a condition on the input alone |
| `DdSpec.OsyncLoses` | bin/dd/dd.c:340-346 | when one of the bytes written over is not a space, the result is wrong whatever the buffer held |
| `DdSpec.OsyncMayFail` | bin/dd/dd.c:340-346 | a last record that leaves room in the first block goes wrong for some contents of the buffer |
| `DdSpec.OsyncLosesLine` | bin/dd/dd.c:340-346 | the line A without newline, with cbs=2 and obs=3, is lost |
| `DdSpec.OsyncRunsOver` | bin/dd/dd.c:340-346 | the line A without newline in block, with cbs=3 and obs=2, and AB in unblock: three bytes are written in blocks of two |
| `DateVary.YearLength` | bin/date/vary.c:102-124 | the month lengths add up to the distance between years in the formula of POSIX, for every year |
| `DateVary.MonthEnd` | bin/date/vary.c:104-124 | the day behind the last of a month is the first of the next, across years and in February |
| `DateVary.DayOrder` | bin/date/vary.c:104-124 | the day number orders valid dates |
| `DateVary.SameSecond` | bin/date/vary.c:104-124 | seconds since the Epoch determine all fields |
| `DateVary.PosixFormula` | bin/date/vary.c:102-124 | the seconds moved are those of section 4.15 of the Base Definitions volume of POSIX.1-2008, with the day of the year taken from a calendar that names the day on which each month starts |
| `DateVary.Calendar` | bin/date/vary.c:102-124 | the lengths of months of vary.c are the differences between the days of the year on which the months start, in leap years and others |
| `DateVary.SpringOf2001` | bin/date/vary.c:102-124 | seconds and weekday of the last days of January to June 2001 |
| `DateVary.AutumnOf2001` | bin/date/vary.c:102-124 | seconds and weekday of the last days of July to December 2001 |
| `DateVary.OtherDates` | bin/date/vary.c:102-124 | seconds and weekday of the Epoch, of leap days, of years without, and of dates before 1970 |
| `DateVary.Sizes` | bin/date/vary.c:251-410 | a week is 7 days, a day 24 hours, an hour 60 minutes, a minute 60 seconds |
| `DateVary.Tm.AdjYear` | bin/date/vary.c:127-146 | the year moves by val, or is set with the two-digit and four-digit forms; the date stays valid if and only if it is not 29 February or the year reached is a leap year |
| `DateVary.YearKeepsDate` | bin/date/vary.c:127-146 | since the day is left alone, the date stays valid if and only if it is not 29 February or the year reached is a leap year |
| `DateVary.YearBreaksDate` | bin/date/vary.c:127-146 | a date and a year for which it does not |
| `DateVary.Tm.AdjMon` | bin/date/vary.c:148-205 | val months forwards or backwards are exactly val months in years times 12 plus months; a named month is reached in less than a year in the asked direction, the current one counting, and a month set by number is that month; the day is cut to the length of the month reached |
| `DateVary.Tm.AddDays` | bin/date/vary.c:212-225 | the loop terminates and moves the day number by exactly val, from every valid date |
| `DateVary.Tm.SubDays` | bin/date/vary.c:227-238 | the same backwards |
| `DateVary.Tm.AdjDay` | bin/date/vary.c:207-249 | days forwards and backwards by exactly val, a day of the month only if the month has it; a negative val changes the day of the month alone |
| `DateVary.Tm.AdjWday` | bin/date/vary.c:251-285 | weeks; a named day is less than a week away in the asked direction; a number names a day of the same week |
| `DateVary.NamedWeekday` | bin/date/vary.c:257-281 | if tm_wday was right, the day reached is the day named |
| `DateVary.Tm.AdjHour` | bin/date/vary.c:287-330 | the seconds move by 3600 times val, all fields stay in range, minute and second do not change |
| `DateVary.Tm.AdjMin` | bin/date/vary.c:332-371 | the seconds move by 60 times val and all fields stay in range |
| `DateVary.Tm.AdjSec` | bin/date/vary.c:373-412 | the seconds move by val and all fields stay in range |
| `DateVary.Adjust` | bin/date/vary.c:454-476 | one adjustment by any fixed unit moves the seconds since the Epoch by exactly so much |
| `DateVary.ForthAndBack` | bin/date/vary.c:454-476 | forth and back by the same amount gives back every field, across month and year ends and leap days |
| `DateVary.MonthsForthAndBack` | bin/date/vary.c:148-205 | forth and back by the same number of months gives the date back if and only if the month reached on the way has a day of that number; otherwise the last day of that month replaces the day |
| `DateVary.MonthsLose` | bin/date/vary.c:148-205 | 31 January 2001, a month on and a month back, is 28 January |
| `CpdupWire.DecEnc` | bin/cpdup/hclink.h:76-79 | a number of n bytes reads back as it was stored |
| `CpdupWire.LeafHeader` | bin/cpdup/hclink.c:337-349 | the header and data of a leaf in a buffer read back as they were stored |
| `CpdupWire.LeafLaw` | bin/cpdup/hclink.c:337-349 | the bytes of a leaf at their places: id with the low byte first, two NULs, size, data; the next leaf begins at the next multiple of eight |
| `CpdupWire.Sender.LeafData` | bin/cpdup/hclink.c:337-349 | a leaf is appended and aligned; the leaves before it stay readable |
| `CpdupWire.Sender.Finish` | bin/cpdup/hclink.c:306-320 | the packet carries exactly the leaves appended, whatever the padding holds |
| `CpdupWire.Sender.CheckSpace` | bin/cpdup/hclink.c:387-400 | if there is room nothing changes; otherwise the packet goes out as one to be continued and an empty one is begun, so that no leaf is lost; if the leaves fit into any packet, there is room and no empty packet has been sent |
| `CpdupWire.ReplyDone` | bin/cpdup/hclink.c:306-320 | packets to be continued and a last one make up a reply |
| `CpdupWire.Receiver.NextItem` | bin/cpdup/hclink.c:463-496 | the next leaf of a packet is found, or its end; none of the assertions fails |
| `CpdupWire.Receiver.NextChainedItem` | bin/cpdup/hclink.c:498-524 | leaves come back in the order in which they were appended, across any number of packets, then NULL, and NULL ever after; the header field magic is overwritten exactly when a packet is read on the way |
| `CpdupDir.EncodeStat` | bin/cpdup/hcproto.c:361-384 | fifteen leaves of 16 bytes for the fields |
| `CpdupDir.SendEntry` | bin/cpdup/hcproto.c:630-641 | for every name and every fill of the packet, the space asked for suffices: no size assertion fails and the packet stays below the buffer size |
| `CpdupDir.ScanDir` | bin/cpdup/hcproto.c:601-644 | the reply holds the leaves of the entries found, in the order in which they are found and each as often, of all entries but those named "." and ".." |
| `CpdupDir.EntryLaw` | bin/cpdup/hcproto.c:361-387 | the leaves of an entry one by one: fifteen numbers with their ids and sizes, if lstat succeeds, and the name with its NUL last |
| `CpdupDir.Readdir` | bin/cpdup/hcproto.c:494-515 | the leaves up to a name are decoded to the next entry, with its stat or without; at the end there is no name |
| `CpdupDir.DecodeNumber` | bin/cpdup/hcproto.c:261-316 | a leaf of rc_encode_stat sets the field it came from and no other |
| `CpdupDir.ListDir` | bin/cpdup/hcproto.c:494-515 | an entry is read by the master if and only if the slave finds it and its name is neither "." nor ".."; the entries come in the order in which they are found, each as often, with name and stat, however many packets they take |
| `CpdupFile.ReadFile` | bin/cpdup/hcproto.c:945-976 | the reply holds one leaf for every read, the empty one at the end included, split into the packets that the test of hcc_check_space gives for those sizes; no size assertion fails |
| `CpdupFile.HcRead` | bin/cpdup/hcproto.c:853-877 | a request gets the next bytes of the file, as many as asked for or left, whatever leaves and packets they are in; if it ends inside the first leaf of a packet that it has read, the offset kept in magic is lost and the next request copies a negative number of bytes |
| `CpdupFile.FetchFile` | bin/cpdup/hcproto.c:840-877 | for every file and every list of request sizes, each request gets its part of the file, if and only if no request before it has ended inside a read of the slave that began a packet other than the first |
| `CpdupFile.BadSpoils` | bin/cpdup/hcproto.c:853-877 | where the packets of a file spoil a request, told from the sizes of the reads alone |
| `CpdupFile.RegularSpoils` | bin/cpdup/hcproto.c:962-970 | for a regular file, told from its size: a request must not end behind the first 32768 bytes and inside a read, unless that is the last read and has at most 32728 bytes |
| `CpdupFile.BoundaryFine` | bin/cpdup/hcproto.c:853-877 | a request that ends where a read of the slave ended does no harm |
| `CpdupFile.WholeRequests` | bin/cpdup/hcproto.c:962-970 | requests of whole multiples of 32768 bytes are safe on every regular file |
| `CpdupFile.TwoPackets` | bin/cpdup/hclink.c:387-400 | the packets of a file of 65536 bytes: one with the first half, one with the second half and the empty leaf |
| `CpdupFile.SmallRequests` | bin/cpdup/cpdup.c:1387-1388 | on such a file requests of 8191 bytes, with which cpdup begins to read a remote .cpignore, fail at the sixth |
| `CpdupSwap.Swap16Reverses` | bin/cpdup/misc.c:81-85 | a 16-bit number sent in the other byte order comes out as it was meant |
| `CpdupSwap.Swap32Reverses` | bin/cpdup/misc.c:87-92 | the same for 32 bits |
| `CpdupSwap.SwapSamples` | bin/cpdup/misc.c:81-99 | one number of each size and its bytes in reverse order |
| `CpdupSwap.Swap32Twice` | bin/cpdup/misc.c:87-92 | swapping twice changes nothing |
| `CpdupSwap.Swap64Exact` | bin/cpdup/misc.c:94-99 | the 64-bit swap reverses the bytes if and only if bit 39 is clear or the low half is all ones, because the halves are joined as signed numbers |
| `CpdupSwap.Swap64Fails` | bin/cpdup/misc.c:94-99 | a number that it gets wrong |
| `CpdupCache.LengthDecimal` | bin/cpdup/md5.c:120-123 | the length of a name, printed with %zu, cut to a long and then to an int, is read back if and only if it is below 2 to the 31 |
| `CpdupCache.ParsePrintOne` | bin/cpdup/md5.c:105-139 | a line is read back as the code and the name it was printed from, also when the name holds spaces and newlines, if and only if the name is shorter than 2 to the 31 less 1 and the code than 2 to the 31 less 64; otherwise an int overflows or the name comes back shorter |
| `CpdupCache.ParsePrint` | bin/cpdup/md5.c:105-139 | a file is read back as the list it was printed from, in order, if and only if that holds for every entry |
| `CpdupCache.FileSample` | bin/cpdup/md5.c:40-42 | a line as it is on disk |
| `CpdupCache.Notations` | bin/cpdup/md5.c:122 | numbers in decimal, octal, hexadecimal and with a sign, and a length as it is printed |
| `CpdupCache.ParseAgain` | bin/cpdup/md5.c:105-139 | for every file, damaged ones and NUL bytes included: its entries, written and read again, are the same if and only if that holds for each of them, as it does for every file that can be read |
| `CpdupCache.NotCountable` | bin/cpdup/misc.c:53-57 | a line that no reading survives, however short: a length of 2 to the 31 less 1 |
| `CpdupCache.Fextract` | bin/cpdup/misc.c:43-79 | it takes n characters or a word and skips one space if asked to; the buffer has room for the text and the NUL behind it, and its size stays an int, if and only if n is less than the largest int, or the word is shorter than 2 to the 31 less 64 |
| `CpdupCache.LoadOne` | bin/cpdup/md5.c:107-138 | one turn of the parser, the recovery from a damaged line included |
| `CpdupCache.Cache.Flush` | bin/cpdup/md5.c:29-68 | a dirty cache is written with the nodes that were looked at and have a code, in order; CpdupCache.Kept says so by position |
| `CpdupCache.WrittenKept` | bin/cpdup/md5.c:36-46 | the i-th entry written is of node at[i], where at lists in order the places of exactly those nodes that were looked at and have a code |
| `CpdupCache.Cache.Load` | bin/cpdup/md5.c:100-141 | the list is what the parser makes of the file, whatever is in it, if and only if no call of fextract exceeds an int |
| `CpdupCache.FlushThenLoad` | bin/cpdup/md5.c:29-141 | a cache that is written and read again is the same list, under the same exact condition |
| `CpdupCache.HexValue` | bin/cpdup/fsmid.c:38-42 | a code of 64 bits printed with 16 digits is read back |
| `CpdupCache.FsmidRoundTrip` | bin/cpdup/fsmid.c:33-133 | an FSMID cache file is read back as the codes and names it was printed from, if and only if the names are shorter than 2 to the 31 less 1 |
| `CpdupList.ShashWild` | bin/cpdup/cpdup.c:1614-1633 | a name with an asterisk, a question mark, a brace, a bracket or a bar goes to the bucket where patterns are looked for |
| `CpdupList.ShashOthers` | bin/cpdup/cpdup.c:1614-1633 | the bucket of the empty name and of a name of one letter |
| `CpdupList.List.Find` | bin/cpdup/cpdup.c:1567-1595 | looking into two chains finds a node that forbids the name if and only if the list has one, for every hash function and every fnmatch; the value is that of the newest such node in bucket 0, or else of the node with the name |
| `CpdupList.List.AddList` | bin/cpdup/cpdup.c:1567-1612 | a name is added unless it is there or a pattern matches it; list and chains stay consistent, names stay unique; the value returned is the one found, or n |
| `CpdupList.List.Collect` | bin/cpdup/cpdup.c:1555-1565 | iteration yields the names with one value, each once |
| `CpdupList.Compare` | bin/cpdup/cpdup.c:1000-1043 | copied are the source names that are not ignored; removed are exactly the target names that are neither source names nor ignored, by name or by a pattern in bucket 0; each once, however names hash |
| `CpdupList.CompareDirs` | bin/cpdup/cpdup.c:1000-1043 | with the hash function of cpdup, a name that is listed, or that any pattern with an asterisk, a question mark, a brace, a bracket or a bar matches, is neither copied nor removed; any other source name that no pattern matches is copied, and any other target name without source is removed; each once |
| `CpdupIgnore.TakeLines` | bin/cpdup/cpdup.c:1391-1398 | one turn of the loop: the lines that have ended become names, and the unfinished one moves to the front of the buffer |
| `CpdupIgnore.ScanFile` | bin/cpdup/cpdup.c:1386-1404 | for every way in which reads split a file without NUL bytes, the names are those of Taken, a function of the file |
| `CpdupIgnore.TakenLines` | bin/cpdup/cpdup.c:1386-1404 | the names are the lines of the file if and only if no line fills the buffer of 8191 bytes, except that the last may do so |
| `CpdupIgnore.LongLine` | bin/cpdup/cpdup.c:1386-1404 | a file of which the second line is lost |
| `CpdupIgnore.ScanRemote` | bin/cpdup/cpdup.c:1386-1404 | through hc_read, a regular file of another host without long lines gives its lines if and only if it has at most 65496 bytes; on longer ones the scan fails |
| `CpdupIgnore.CompareIgnoring` | bin/cpdup/cpdup.c:1000-1043 | from the file to the result: copied and removed are exactly the names that the scanned patterns leave, and if no line fills the buffer, neither a line of the file nor what a line with an asterisk, a question mark, a brace, a bracket or a bar matches is copied or removed |
| `CpdupIgnore.LinesLaw` | bin/cpdup/cpdup.c:1387-1405 | the lines of a file: up to each newline, and what stands behind the last one, if anything |

## Left out

- The state of `ed` is a record passed through methods instead of global variables and heap nodes; only the class `EdSession.Editor` updates in place. In-place update of nodes and aliasing show only as maps from node numbers and equality of numbers, which are never used twice: the invariants speak of nodes long after they left the ring, for which numbers are enough.
- Signals in `ed` and `cpdup`, memory exhaustion, and errors of input and output in `ed`, `dd` and `cpdup`.
- The command syntax of `ed`: addresses are any function of the buffer and the marks, patterns any function of a line; the commands e, E, f, h, H, l, n, p, P, q, r, w, x, z, =, ! and the interactive G and V, which print, read, write or switch messages on and off, are not there.
- A global command inside the command list of another, which the program refuses.
- EdSession.MarkCommand: the letters that islower accepts are a to z, as in the C locale.
- NUL characters in the text (isbinary) and the flag newline_added.
- EdSubst.Substitute: a matcher that finds nothing leaves its offsets as they were, which the loop then reads.
- The cipher behind `EdCbc` is any invertible function on blocks of 8 bytes; keys, parity bits and passwords are not there.
- The other modes of `dd`: bs, count, swab, sync, noerror, sparse, seeking, tapes; the counts of full and partial blocks.
- DateVary.Adjust: the calls of mktime after an adjustment, which may change the fields again, time zones, and integers that overflow.
- The text forms of `date -v`: the names of months and days are given as numbers.
- Packets of a peer with the other byte order, beyond the swaps themselves; transaction numbers, descriptors, and error replies.
- CpdupWire.Receiver.NextChainedItem: no packet of a reply but the first is empty, as `CpdupDir.ScanDir` and `CpdupFile.ReadFile` ensure; behind an empty last packet the code would go on at a stale offset.
- CpdupDir.EncodeStat: fields are numbers of 32 or 64 bits; a wider device number would be cut.
- CpdupCache.Cache.Flush: a file that cannot be opened, and the option that forbids writing.
- CpdupIgnore.ScanFile: a file with NUL bytes, of which what a read delivers behind a NUL is dropped, so that the names depend on where reads end.
- The copying of files, hard links, ownership and removal in `cpdup`; the descriptor list of the protocol.
