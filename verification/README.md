# A verified model of the flight-software test and table tools

This project models five parts of a cFS mission repository and proves what they promise.
Everything is stated for all inputs, all runs or all reachable states of the model.

| Part | Files | What it is |
|---|---|---|
| Stub table | `StubEntries`, `StubSpec`, `StubTable`, `StubViews`, `StubRuns`, `StubCodes`, `StubHooks`, `StubAnswers`, `StubBuffers`, `StubWrites`, `StubSlots`, `StubQueue`, `ObjectIds`, `StubObjects` | the 200-slot open-addressed table behind the unit-test stubs, with its clients: return codes, hooks, data buffers, message queues and object IDs |
| Table CRC | `CrcWords`, `Crc`, `CrcOrder` | the table-driven CRC-16, the tool that reports the CRC of a table file, and the errors that it detects |
| Table converter | `ElfFields`, `ElfReader`, `TableFile`, `TableDefinition`, `TableConverter`, `ElfAbi`, `ElfEncode`, `ElfFile`, `ElfBuild` | ELF object file in, cFE table file out, joined to the CRC tool |
| List | `UtList` | the doubly linked list of the unit-test library |
| Memory | `Eeprom`, `MemRange` | nested read-modify-write of EEPROM, and the memory-range validator |
| Shared | `Basics` | bytes, optional values, 32-bit ranges |

How the stub table is layered. `StubSpec` says what every operation does if searches look at
all 200 slots. `StubTable` is the array with the running search bound, hashing and wrap-around;
every method is proved equal to its specification, so `StubRuns.ExecuteAll` shows that the
bound is never observable in any run. A *view* is the list of entries of one key and kind in
probe order; `StubViews` shows that each operation edits one view and leaves all others alone.
Return codes (`StubCodes`), hooks (`StubHooks`), reads (`StubBuffers`) and writes (`StubWrites`)
of data buffers, queues (`StubQueue`) and object IDs (`StubObjects`) are then refinements of
simple abstract machines over views; `StubSlots` follows each data buffer by its slot, whatever
the order of the others. `StubAnswers` says when operations abort and what a test is told. Data buffers may lie in blocks of the test's own memory; a
*sharing* names the blocks that one key uses and the keys that write, and the buffer theorems
hold for every interleaving in which those writers stay out of those blocks.

How the converter is layered. `ElfFields` proves the in-place byte swaps; `ElfReader` proves
that every field of the headers, sections and symbols that a host of either byte order reads has
the value that the "ELF Header", "Sections" and "Symbol Table" sections of chapter 4 of the
System V ABI encode; `TableFile` gives the output format an independent reader and a round trip;
`TableDefinition` reads the table definition object that the file carries; `TableConverter` runs
the whole program on nothing but the file, and then the CRC tool on its output. What the program
does with those field values is modelled as it is coded: names come from the last named string
table, and objects from sh_offset + st_value. `ElfAbi` says exactly when that is what the ABI means.
`ElfEncode` is an encoder written from the order and widths of the structures' members alone, with
round trips through the reader; `ElfFile` describes whole files by their sections and symbols and
says what the converter makes of them; `ElfBuild` builds such a file for every table.

Where the code and its documentation disagree, the model follows the code:

- Deferred codes and buffers are documented as used in the order in which they were added
  (`osal/ut_assert/inc/utstubs.h:100-101`, `:120-121`). That holds if and only if the first free
  slot lies beyond all entries of the same key and kind (`StubCodes.InsertOrder`). This is kept
  as long as no slot is freed (`StubCodes.RegistrationOrder`), and so for every test that sets
  up everything before its first call (`StubCodes.SetUpThenCalls`, `StubBuffers.SetUpThenReads`);
  `StubCodes.LaterCodeCanComeFirst` is a four-operation run in which a later code comes first.
- The object search means to accept an extra character only if it is unprintable, but looks at
  the terminating zero; `ElfReader.NameTestAgreesUnlessPrintable` states exactly which names
  the two tests judge differently.
- The ABI finds the names of symbols in the string table that the symbol table's sh_link names;
  the code takes the last named one that does not hold the section names.
  `ElfAbi.StringsAreLinkedOnes` and `ElfAbi.NameIsAbiName` give the condition under which it reads
  the ABI's names, and `ElfAbi.OtherStringsCanBeUsed` sections for which it does not.
- In executables and shared objects, which the header checks accept, st_value is an address; the
  code still adds it to sh_offset. `ElfAbi.ObjectIsWhereDesignated`: it reads an object where the
  ABI puts it if and only if the file is relocatable or the object's section has address zero.
- A put of zero bytes into a stub queue is answered with success, but nothing is stored, so that
  this message is never delivered (`StubQueue.QueueConservesMessages` accounts for it).
- The range validator's "range too small" answer is given only when the last active record
  holds the address and is too small; `MemRange.TooSmallIsReportedOnlyByTheLast` says exactly
  when the answer has its documented meaning, and `MemRange.LaterRecordHidesTooSmall` is a full
  table for which it has not.
- A record that starts at zero with size zero ends, in address arithmetic, at the highest address:
  the range validator takes it to hold everything, and a record that wraps to hold nothing
  (`MemRange.HoldsAll`, used by `MemRange.SuccessExactly`).
- The CRC tool assumes headers of 116 bytes; `TableFile.ToolSeesThePayload` shows that it sees
  exactly the payload if and only if the format has that size, which fails by two bytes when
  alignment is switched off with a 38-byte name.

The table name capacity is 38 in `tools/elf2cfetbl/elf2cfetbl.c:103`, while
`cfe/fsw/cfe-core/src/inc/cfe_tbl.h:71` rounds it up to 40. The format is a parameter of the
model, and both give 116 bytes with alignment (`TableFile.DefaultHeaderSize`).

## Model

| member | source | states |
|---|---|---|
| StubEntries.ProbeIsNearest | osal/ut_assert/src/utstubs.c:124-175 | A result is the nearest matching slot in wrap-around probe order (or nothing matches at all) if and only if it is what the recursive search of all slots returns. |
| StubEntries.ProbeOrder | osal/ut_assert/src/utstubs.c:124-162 | Probe order, without the functions of the search: it starts at the key modulo 199 and goes up slot by slot, from 199 to 0. |
| StubEntries.FindIsHead | osal/ut_assert/src/utstubs.c:124-175 | A search fails exactly when the key has no entry of that kind, and otherwise returns the first entry of its view. |
| StubEntries.ViewUpdate | osal/ut_assert/src/utstubs.c:108-118 | Writing or clearing one slot replaces only that slot's contribution to each view; nothing else moves although no tombstone is left. |
| StubEntries.HeadUpdate | osal/ut_assert/src/utstubs.c:108-118 | Rewriting or clearing the slot that a search found replaces or drops the head of that view and keeps the tail. |
| StubTable.StubTable.GetStubEntry | osal/ut_assert/src/utstubs.c:124-175 | The length-bounded hashed probe returns what a search of all 200 slots returns, for every key and every kind but CALL_ONCE, and for that kind too if the marker lies within the bound; an UNUSED search fails only on a full table and extends the bound to cover the slot it hands out. |
| StubTable.StubTable.Probe | osal/ut_assert/src/utstubs.c:145-162 | The probing loop with its wrap-around and limit returns the nearest match if it lies within the limit, else nothing, and says how far it went. |
| StubTable.StubTable.ResetState | osal/ut_assert/src/utstubs.c:177-195 | Key 0 zeroes every slot, any other key exactly its own slots; the table invariant and the search bound stay valid. |
| StubTable.StubTable.CallOnce | osal/ut_assert/src/utstubs.c:197-239 | The function runs exactly when no marker for it exists; a marker goes to the lowest free slot and a full table aborts. |
| StubTable.StubTable.SetDeferredRetcode | osal/ut_assert/src/utstubs.c:241-261 | A positive count adds an entry in the first free slot of the key's probe order, other counts change nothing, a full table aborts. |
| StubTable.StubTable.ClearDeferredRetcode | osal/ut_assert/src/utstubs.c:263-276 | The find-and-clear loop terminates with all deferred codes of the key gone and every other slot unchanged. |
| StubTable.StubTable.CheckDeferredRetcode | osal/ut_assert/src/utstubs.c:278-301 | The nearest deferred code counts down, and is returned and removed exactly when it reaches zero. |
| StubTable.StubTable.SetForceFail | osal/ut_assert/src/utstubs.c:303-328 | The value replaces the key's forced code or claims a free slot, so the entry stays unique. |
| StubTable.StubTable.ClearForceFail | osal/ut_assert/src/utstubs.c:330-339 | The forced code of the key is removed if there is one. |
| StubTable.StubTable.GetStubRetcodeAndCount | osal/ut_assert/src/utstubs.c:341-359 | Returns the last code and the count of the key's counter entry, the count as a signed 32-bit number, or fails when there is none; StubAnswers.RunThenQuery says what these are after a run. |
| StubTable.StubTable.CheckForceFail | osal/ut_assert/src/utstubs.c:379-394 | Returns the forced code if one is set and counts the use. |
| StubTable.StubTable.SetDataBuffer | osal/ut_assert/src/utstubs.c:396-434 | A non-empty buffer becomes a new entry at position 0, as a copy or as a reference; an absent or empty one changes nothing. |
| StubTable.StubTable.CopyToLocal | osal/ut_assert/src/utstubs.c:472-503 | Copies from the position of the nearest buffer at most what is asked and left; the entry is zeroed when fully consumed. |
| StubTable.StubTable.CopyFromLocal | osal/ut_assert/src/utstubs.c:505-536 | Overwrites the nearest buffer from its position, in the copy or in the test's own block, with at most what fits. |
| StubTable.StubTable.SetHookFunction | osal/ut_assert/src/utstubs.c:541-592 | A callback replaces the key's hook or claims a slot; a null callback removes it. |
| StubTable.StubTable.RegisterContext | osal/ut_assert/src/utstubs.c:594-623 | Appends one parameter to the key's context, up to its capacity. |
| StubTable.StubTable.DefaultStubImpl | osal/ut_assert/src/utstubs.c:630-716 | Deferred code, else forced code, else default; the call is counted, the hook sees the earlier count and the context, and the context is cleared. |
| StubRuns.Step | osal/ut_assert/src/utstubs.c:177-716 | Every operation keeps: free slots fully zeroed, at most one COUNTER, FORCE_FAIL, HOOK, CONTEXT and CALL_ONCE entry per key, deferred counts positive, buffer positions below their sizes, direct buffers inside their blocks. |
| StubRuns.Run | osal/ut_assert/src/utstubs.c:177-716 | That invariant holds after every run, and a run replies to each of its operations. |
| StubRuns.RunConcat | osal/ut_assert/src/utstubs.c:177-716 | Running one sequence after another equals running their concatenation, states and replies. |
| StubRuns.StepFrame | osal/ut_assert/src/utstubs.c:108-716 | An operation leaves every view that it does not name unchanged: other keys, and other kinds of its own key. |
| StubRuns.Execute | osal/ut_assert/src/utstubs.c:177-716 | One operation on the real table, with bounded searches, gives the state and reply of the specification. |
| StubRuns.ExecuteAll | osal/ut_assert/src/utstubs.c:124-716 | Over every run, bounded hashed searching gives the states and replies that searching all slots would. |
| StubViews.UpsertView | osal/ut_assert/src/utstubs.c:303-328 | Claiming or rewriting the slot of a unique kind makes the new entry the head of its view. |
| StubViews.InsertView | osal/ut_assert/src/utstubs.c:241-261 | A new entry lands between the entries nearer and the entries farther than the first free slot. |
| StubViews.ResetView | osal/ut_assert/src/utstubs.c:177-195 | A reset empties exactly the views of the named key, or all of them. |
| StubViews.ClearDeferredView | osal/ut_assert/src/utstubs.c:263-276 | Clearing deferred codes empties that one view. |
| StubViews.CallFrame | osal/ut_assert/src/utstubs.c:630-716 | A stub call leaves its own buffers, hook and once-marker and everything of other keys as they were. |
| StubCodes.CounterCountsCalls | osal/ut_assert/src/utstubs.c:662-681 | Over every run, a stub's count is the number of its calls since the last reset that cleared it, modulo 2^32. |
| StubCodes.InsertOrder | osal/ut_assert/src/utstubs.c:241-261 | The exact position of a new entry among those of its key; it comes last if and only if the first free slot lies beyond all of them. |
| StubCodes.StepRefinesQueue | osal/ut_assert/src/utstubs.c:241-301 | The deferred codes of a key behave as a count-down queue under every operation whose registration finds its slot last. |
| StubCodes.AppendsLastKept | osal/ut_assert/src/utstubs.c:124-175 | While no slot is freed, the first free slot stays beyond all entries of the key. |
| StubCodes.RegistrationOrder | osal/ut_assert/inc/utstubs.h:91-110 | In a run that frees no slot, codes queue up in the order in which they were registered. |
| StubCodes.DueOnPartialSums | osal/ut_assert/inc/utstubs.h:91-110 | A queue (n1,r1)..(nk,rk) makes a code due on call n if and only if n is one of the partial sums, and then it is that code. |
| StubCodes.CallReturns | osal/ut_assert/src/utstubs.c:630-681 | Without a hook, a call returns the due deferred code, else the forced code, else the default. |
| StubCodes.CallsReturnDueCodes | osal/ut_assert/src/utstubs.c:278-301 | In every run that otherwise leaves the key's codes alone, the m-th call returns the code due on call m, else forced or default. |
| StubCodes.DeferredCodesInOrder | osal/ut_assert/inc/utstubs.h:91-110 | Codes registered in a run that frees no slot, with none pending before, are returned on calls n1, n1+n2, ... in that order; all other calls give the forced or default code. |
| StubCodes.SetUpNeverFrees | osal/ut_assert/src/utstubs.c:241-623 | A run of registering operations only, for any keys, frees no slot. |
| StubCodes.SetUpThenCalls | osal/ut_assert/inc/utstubs.h:91-110 | The documented order under a condition on the test's text alone: if everything is registered before the first call, codes are returned in the order in which they were added. |
| StubCodes.LaterCodeCanComeFirst | osal/ut_assert/inc/utstubs.h:91-110 | A run of four operations and two calls in which the code registered later is returned first, because a nearer slot was freed in between. |
| StubHooks.CallOutcome | osal/ut_assert/src/utstubs.c:630-716 | A call returns what its hook makes of the selected code, the number of earlier calls and the registered parameters; without a hook, the selected code. |
| StubHooks.RunHook | osal/ut_assert/src/utstubs.c:541-623 | After every run, the hook is the last one set and not removed or reset, and the parameters are the first four since the last call or reset. |
| StubHooks.RunForced | osal/ut_assert/src/utstubs.c:303-394 | After every run, the forced code is the last one set and not cleared or reset. |
| StubHooks.RunPending | osal/ut_assert/src/utstubs.c:241-301 | After every run whose registrations find their slots in order, the pending deferred codes are what a count-down queue makes of the operations. |
| StubHooks.HookGetsWhatHappened | osal/ut_assert/src/utstubs.c:662-716 | Over every run: the hook of the next call is given the selected code, the number of calls since the last reset and the first four parameters since the last call; hook, count, parameters and forced code follow from the operations, the due deferred code is read from the table. |
| StubHooks.CallFollowsTheScript | osal/ut_assert/src/utstubs.c:630-716 | From an empty table and from the operations alone, under the same condition: what a call returns after every run, with or without a hook, deferred codes, forced code and parameters. |
| StubAnswers.AbortsExactly | osal/ut_assert/src/utstubs.c:177-716 | An operation aborts the test exactly if it needs a slot and all 200 are in use; operations that rewrite an entry, read, write or clear never do. |
| StubAnswers.Replies | osal/ut_assert/src/utstubs.c:197-301 | The checks reply with the due deferred code and with the forced code, a one-time function runs exactly without a marker and never for key 0, and all other operations report nothing. |
| StubAnswers.MarkerIsLowest | osal/ut_assert/src/utstubs.c:197-239 | The marker of a one-time function goes to the lowest free slot of the whole table. |
| StubAnswers.StepKeepsCode | osal/ut_assert/src/utstubs.c:662-681 | A call leaves in its counter entry the code that it selected, before the hook changed it: the due deferred code, else the forced one, else the default. A reset removes it, and no other operation changes it. |
| StubAnswers.CounterKeepsLastCode | osal/ut_assert/src/utstubs.c:662-681 | Over every run whose deferred codes find their slots in order, computed from the operations: the counter entry holds the code selected at the last call since the last reset, or there is none. |
| StubAnswers.RunThenQuery | osal/ut_assert/src/utstubs.c:341-359 | After any such run on the real table: the query fails exactly if the stub was not called since its last reset, else it gives the code selected at the last call and the number of calls as a signed 32-bit number. |
| StubAnswers.StepCountsUses | osal/ut_assert/src/utstubs.c:303-394 | The use count of a forced code goes up, modulo 2^32, with each check and each call on which no deferred code is due; a new value keeps it, clearing and resets return it to zero. |
| StubAnswers.ForcedAndDeferred | osal/ut_assert/src/utstubs.c:630-660 | In every state without a hook and pending codes: with one code forced and another deferred to the second call, two calls return the one and then the other. |
| StubAnswers.RegisterThenRead | osal/ut_assert/src/utstubs.c:396-503 | A buffer registered for a key without buffers is read from its first byte on, at most what is asked for, as a copy or from the block. |
| StubAnswers.RegisterThenWrite | osal/ut_assert/src/utstubs.c:396-536 | A block registered for a key without buffers is written from its first byte on; the rest of it and all other blocks stay. |
| StubBuffers.CopyToLocalServes | osal/ut_assert/src/utstubs.c:472-503 | A read of the table is a read of the abstract stream of buffers and never spans two of them. |
| StubBuffers.CopyToLocalView | osal/ut_assert/src/utstubs.c:472-503 | The first buffer is advanced by what was read and disappears exactly when nothing of it is left. |
| StubBuffers.SetDataStream | osal/ut_assert/src/utstubs.c:396-434 | A registration adds exactly its bytes as one more buffer, and as the last one when its slot is last. |
| StubBuffers.StepRefinesStream | osal/ut_assert/src/utstubs.c:396-503 | Every operation but the key's own writes acts on the key's buffers as the abstract stream prescribes, as long as writers of other keys stay out of its blocks. |
| StubBuffers.StepApart | osal/ut_assert/src/utstubs.c:396-536 | Every operation keeps writers out of the blocks of a key, and those that act apart leave the contents of its blocks alone. |
| StubBuffers.ReadsDeliverTheStream | osal/ut_assert/src/utstubs.c:472-503 | Over any run of reads of any sizes and registrations in order, interleaved with operations on other keys, writes included, that stay out of the key's blocks: what was read followed by what is left is what was there followed by what was registered. |
| StubBuffers.SetUpRegistersInOrder | osal/ut_assert/inc/utstubs.h:112-135 | Buffers that are all registered during set-up find their slots in order. |
| StubBuffers.SetUpThenReads | osal/ut_assert/inc/utstubs.h:112-135 | If all buffers of a key are registered during set-up, later reads of any sizes deliver their bytes in the order in which they were added. |
| StubWrites.CopyFromLocalView | osal/ut_assert/src/utstubs.c:505-536 | One write goes to the first buffer only, copied or direct: it stores what fits from the buffer's position on, and the entry is gone exactly when the buffer is full. |
| StubWrites.WritesFillTheSpaces | osal/ut_assert/src/utstubs.c:505-536 | Over every run of writes, interleaved with operations that touch neither the key's buffers nor its blocks, for any number of direct buffers on distinct blocks: the accepted chunks fill the free spaces in buffer order, each chunk stays in one buffer, a buffer is gone exactly when full, and nothing else of the blocks changes. |
| StubSlots.SlotStays | osal/ut_assert/src/utstubs.c:396-716 | A buffer stays as it is in its slot under every operation that does not reset it, read from it or write to it. |
| StubSlots.ReadStep | osal/ut_assert/src/utstubs.c:472-503 | A read returns the next bytes of the one buffer that it finds, and leaves the rest in that slot. |
| StubSlots.EachBufferIsDelivered | osal/ut_assert/src/utstubs.c:472-503 | Over every run without a reset of the key or writes to it, whatever is registered meanwhile and in whatever order it lands: the chunks read from a buffer followed by what is left of it are its bytes in order. |
| StubSlots.RegisteredIsDelivered | osal/ut_assert/src/utstubs.c:396-434 | The same from the registration on: a buffer is delivered as it was handed over, wherever it lands. |
| StubSlots.WriteStep | osal/ut_assert/src/utstubs.c:505-536 | A write stores what fits at the position of the one buffer that it finds, copied or direct, and moves the position. |
| StubSlots.EachBufferIsFilled | osal/ut_assert/src/utstubs.c:505-536 | Over every run without a reset or a read of the key, with registrations in between, for copied and direct buffers: what writes store in a buffer lands there one chunk after the other from its position on, nothing before it changes, and it is gone exactly when full. |
| StubQueue.QueueKeysDiffer | osal/src/ut-stubs/osapi-utstub-queue.c:139-196 | Different queue IDs never share a table key, even when the address arithmetic wraps. |
| StubQueue.QueuePut | osal/src/ut-stubs/osapi-utstub-queue.c:184-196 | A put on the real table calls its stub and on success stores the message under the queue's key. |
| StubQueue.QueueGet | osal/src/ut-stubs/osapi-utstub-queue.c:139-159 | A get on the real table calls its stub and on success copies from the nearest message; nothing copied means queue empty. |
| StubQueue.GetAnswers | osal/src/ut-stubs/osapi-utstub-queue.c:139-159 | If the stub's call does not return success, a get answers its code and leaves the queue alone. Else it answers -8, queue empty, exactly if no message is there or no byte is asked for; otherwise success with the first bytes of the first message, as many as asked for and there, and the rest of that message stays first. |
| StubQueue.PutAnswers | osal/src/ut-stubs/osapi-utstub-queue.c:184-196 | If the stub's call does not return success, a put answers its code and stores nothing; else it answers success, and aborts exactly if a non-empty message finds no slot. |
| StubQueue.PutThenGet | osal/src/ut-stubs/osapi-utstub-queue.c:139-196 | A message put into an empty queue is delivered whole by the next get, which leaves the queue empty, in every state with three free slots and stubs for which no hook or code is set. |
| StubQueue.NewPutThenGet | osal/src/ut-stubs/osapi-utstub-queue.c:139-196 | The same on the real table, from a new one: put and get succeed and the get delivers the message, for every ID and message. |
| StubQueue.QueueKeyIs | osal/src/ut-stubs/osapi-utstub-queue.c:139-196 | The key of a queue is the address of the get stub plus the ID, in address arithmetic. |
| StubQueue.PutConserves | osal/src/ut-stubs/osapi-utstub-queue.c:184-196 | A put adds exactly its message to its own queue if it succeeded, and nothing to any other queue. |
| StubQueue.GetConserves | osal/src/ut-stubs/osapi-utstub-queue.c:139-159 | A get with a large enough size takes exactly one whole message out of its own queue, or finds it empty. |
| StubQueue.QueueConservesMessages | osal/src/ut-stubs/osapi-utstub-queue.c:139-196 | Over every interleaving of puts, gets and other stub operations, resets and writes included, messages held plus messages whose put succeeded equal messages delivered whole plus still held plus thrown away by a reset plus the empty ones, which are never stored; per queue and whatever the order. |
| ObjectIds.IdParts | osal/src/ut-stubs/utstub-helpers.c:166-169 | Type and index are recovered from every ID that the fix-up builds. |
| ObjectIds.IdValue | osal/src/ut-stubs/utstub-helpers.c:166-169 | The ID of index n and type t is 0x40000000 + 0x10000 t + n. |
| ObjectIds.IdExamples | osal/src/ut-stubs/utstub-helpers.c:112-163 | Index and type that the deletion reads from two well-formed IDs, and the type from one without the upper bits. |
| StubObjects.LiveObjectsAreDistinct | osal/src/ut-stubs/utstub-helpers.c:62-163 | In every run without a reported overlap, the valid bits are exactly the objects issued and not deleted since the last clear, each issued once. |
| StubObjects.IssuedInSequence | osal/src/ut-stubs/utstub-helpers.c:62-107 | Over every run, each type issues the indices 1, 2, 3 and so on since the last clear, and 127 again once they run out. |
| StubObjects.ReportsExactly | osal/src/ut-stubs/utstub-helpers.c:62-163 | By the ledger of issued and deleted objects: an overlap is reported exactly if the object is outstanding, a deletion of something not created exactly if it is not, and a wrong type exactly if the ID names another one. |
| StubObjects.GivenBack | osal/src/ut-stubs/utstub-helpers.c:62-163 | A deletion of an issued ID under its own type retires its own index and reports no wrong type. |
| StubObjects.AllocAborts | osal/src/ut-stubs/utstub-helpers.c:62-107 | An allocation aborts exactly for type 0 or 13 and more, or if the marker of the clearing function finds no slot. |
| StubObjects.DeleteAborts | osal/src/ut-stubs/utstub-helpers.c:112-163 | A deletion ends the run exactly if that marker finds no slot or the index is 128 or more. |
| StubObjects.ClearsOncePerReset | osal/src/ut-stubs/utstub-helpers.c:62-163 | Over every run, from its operations alone: an allocation or deletion clears all objects exactly when no allocation, deletion or call of the clearing function came before it since the last reset of everything or of that function. |
| StubObjects.RunsOncePerReset | osal/ut_assert/src/utstubs.c:197-239 | Until its marker is reset, a one-time function runs at the first opportunity and never again. |
| StubObjects.ObjectStubs.PrepareObjects | osal/src/ut-stubs/utstub-helpers.c:49-55 | All types lose their objects exactly when the once-per-reset marker was absent. |
| StubObjects.ObjectStubs.AllocStubObjId | osal/src/ut-stubs/utstub-helpers.c:62-107 | Issues the next index of the type (the last one again when they run out), sets its bit, reports an overlap exactly if it was set, and encodes type and index in the ID. |
| StubObjects.ObjectStubs.DeleteStubObjId | osal/src/ut-stubs/utstub-helpers.c:112-163 | Clears exactly the bit of the ID's index, and reports a wrong type or an object that was not live. |
| StubObjects.ObjectStubs.CheckForOpenSockets | osal/src/ut-stubs/utstub-helpers.c:180-198 | Reports every live queue object once, in ascending order, and nothing else. |
| CrcWords.TableIsEightShifts | tools/tblCRCTool/cfe_ts_crc.c:76-111 | Each of the 256 table entries is its index after eight shift-and-XOR steps with 0xA001. |
| CrcWords.TableStepIsShift8 | tools/tblCRCTool/cfe_ts_crc.c:119-127 | The signed 16-bit step with its promotions and arithmetic shift equals absorbing the byte and shifting eight times, also for negative state. |
| CrcWords.SignExtensionKeepsState | tools/tblCRCTool/cfe_ts_crc.c:119-137 | Sign-extending a result to 32 bits and feeding it back loses nothing. |
| CrcWords.SignIsExtended | tools/tblCRCTool/cfe_ts_crc.c:137 | The low half of a result is the CRC; the upper half is 0xFFFF if the CRC is 0x8000 or more, else 0. |
| CrcWords.StepsCancel | tools/tblCRCTool/cfe_ts_crc.c:119-127 | Feeding a state its own two bytes, low byte first, brings it to zero. |
| CrcWords.ShiftKeepsParity | tools/tblCRCTool/cfe_ts_crc.c:76-111 | A shift of the register keeps the parity of its bits, because the polynomial has three of them. |
| Crc.TableStepIsBitwise | tools/tblCRCTool/cfe_ts_crc.c:119-127 | One step of the loop is eight steps of the bit-at-a-time CRC. |
| Crc.CalculateCRC | tools/tblCRCTool/cfe_ts_crc.c:69-139 | For every message and seed the routine returns the bit-at-a-time CRC in its low half, and its sign, bit 15, in all bits of the upper half; other CRC types return zero. |
| Crc.CheckValue | tools/tblCRCTool/cfe_ts_crc.c:69-139 | The CRC of the nine digits 1 to 9 is 0xBB3D, the catalogued check value of this polynomial. |
| Crc.CheckMessage | tools/tblCRCTool/cfe_ts_crc.c:69-139 | The routine returns 0xFFFFBB3D for them. |
| Crc.CrcComposes | tools/tblCRCTool/cfe_ts_crc.c:172-179 | The CRC of a concatenation is the CRC of the second part seeded with the CRC of the first. |
| Crc.TableCrc | tools/tblCRCTool/cfe_ts_crc.c:143-191 | The 100-byte loop terminates with the length and the sign-extended CRC of everything after the first 116 bytes, for every file length. |
| Crc.CrcIsLinear | tools/tblCRCTool/cfe_ts_crc.c:119-127 | Two CRCs differ by the CRC of the difference of their inputs. |
| Crc.BurstsAreDetected | tools/tblCRCTool/cfe_ts_crc.c:76-127 | Different bit sequences of equal length that agree outside 16 consecutive bits never have the same CRC. |
| Crc.AdjacentBytesAreDetected | tools/tblCRCTool/cfe_ts_crc.c:76-127 | Messages that differ only within two adjacent bytes never have the same CRC. |
| Crc.OddErrorsAreDetected | tools/tblCRCTool/cfe_ts_crc.c:76-127 | Bit sequences of equal length that differ in an odd number of places never have the same CRC. |
| Crc.OddByteErrorsAreDetected | tools/tblCRCTool/cfe_ts_crc.c:76-127 | The same for whole messages. |
| CrcOrder.PowerTimes | tools/tblCRCTool/cfe_ts_crc.c:76-127 | Shifting the unit m + n times is multiplying the results of m and of n shifts modulo the polynomial. |
| CrcOrder.OrderIs32767 | tools/tblCRCTool/cfe_ts_crc.c:76-127 | The register returns after 32767 shifts and not before. |
| CrcOrder.ReturnsExactly | tools/tblCRCTool/cfe_ts_crc.c:76-127 | It returns exactly after the multiples of 32767 shifts. |
| CrcOrder.TwoBitErrorsAreDetected | tools/tblCRCTool/cfe_ts_crc.c:76-127 | An error of exactly two bits is detected if and only if their distance is not a multiple of 32767. |
| CrcOrder.UpToThreeErrorsAreDetected | tools/tblCRCTool/cfe_ts_crc.c:76-127 | Any one, two or three wrong bits are detected in messages of up to 4095 bytes. |
| Crc.AppendedCrcCancels | tools/tblCRCTool/cfe_ts_crc.c:119-127 | A message followed by its own CRC, low byte first, has CRC zero. |
| ElfFields.SwapAllField | tools/elf2cfetbl/elf2cfetbl.c:1922-2012 | In a layout of non-overlapping fields, each field comes out reversed exactly once. |
| ElfFields.SwapAllOutside | tools/elf2cfetbl/elf2cfetbl.c:1922-2012 | Bytes outside the swapped fields keep their values. |
| ElfFields.SwapAllInvolutive | tools/elf2cfetbl/elf2cfetbl.c:1922-2061 | Swapping a structure twice restores it. |
| ElfFields.DecodeReversed | tools/elf2cfetbl/elf2cfetbl.c:2018-2061 | Reading reversed bytes in one byte order is reading the bytes in the other. |
| ElfFields.SwapUInt16 | tools/elf2cfetbl/elf2cfetbl.c:2018-2024 | The in-place exchange reverses exactly one two-byte field. |
| ElfFields.SwapUInt32 | tools/elf2cfetbl/elf2cfetbl.c:2030-2039 | The in-place exchanges reverse exactly one four-byte field. |
| ElfFields.SwapUInt64 | tools/elf2cfetbl/elf2cfetbl.c:2041-2061 | The in-place exchanges reverse exactly one eight-byte field. |
| ElfReader.LayoutsAreWellLaid | tools/elf2cfetbl/elf2cfetbl.c:1922-2012 | The fields swapped in the three structures of both classes lie inside the structure and do not overlap. |
| ElfEncode.ByteOrders | tools/elf2cfetbl/ELF_Structures.h:43-78 | What two and four bytes mean in both encodings. |
| ElfEncode.HeaderBytes | tools/elf2cfetbl/ELF_Structures.h:43-78 | By byte numbers in both classes: the bytes of the file that the reader takes for e_type, e_machine, e_version, e_shoff, e_shentsize, e_shnum and e_shstrndx. |
| ElfEncode.SectionBytes | tools/elf2cfetbl/ELF_Structures.h:340-371 | The same for sh_name, sh_type, sh_addr, sh_offset, sh_size, sh_link and sh_entsize of every section header. |
| ElfEncode.SymbolBytes | tools/elf2cfetbl/ELF_Structures.h:421-443 | The same for st_name, st_value, st_size and st_shndx of every symbol. |
| ElfEncode.AcceptedBytes | tools/elf2cfetbl/elf2cfetbl.c:1397-1588 | The accepted files by the values of their bytes: length, magic, class, encoding, versions, a type of at most 4 and a known machine, in both directions. |
| ElfEncode.HeaderRoundTrip | tools/elf2cfetbl/ELF_Structures.h:43-78 | A header encoded member by member in the order and with the widths of the structure is read with the values that were encoded, in both classes and encodings. |
| ElfEncode.EncodedHeaderIsAccepted | tools/elf2cfetbl/elf2cfetbl.c:1397-1588 | An encoded header is accepted if and only if its type is at most 4, its machine known and its version 1. |
| ElfEncode.SectionRoundTrip | tools/elf2cfetbl/ELF_Structures.h:340-371 | An encoded section header is read with the values that were encoded. |
| ElfEncode.SymbolRoundTrip | tools/elf2cfetbl/ELF_Structures.h:421-443 | An encoded symbol is read with the values that were encoded. |
| ElfReader.HostReadsGabiValue | tools/elf2cfetbl/elf2cfetbl.c:369-612 | For both classes, both encodings and both host orders, every field read from the conditionally swapped structure has the encoded value. |
| ElfReader.HostImageProperties | tools/elf2cfetbl/elf2cfetbl.c:1922-2012 | Swapping a structure is an involution and keeps the bytes outside the multi-byte fields. |
| ElfReader.SwapElfHeader | tools/elf2cfetbl/elf2cfetbl.c:1922-1956 | The sequence of in-place swaps is the swap of the whole header layout, in both classes. |
| ElfReader.SwapSectionHeader | tools/elf2cfetbl/elf2cfetbl.c:1962-1990 | The same for section headers. |
| ElfReader.SwapSymbol | tools/elf2cfetbl/elf2cfetbl.c:1996-2012 | The same for symbols. |
| ElfReader.Reader.GetElfHeader | tools/elf2cfetbl/elf2cfetbl.c:1397-1588 | Succeeds exactly on files with the right magic, class, encoding, versions, type and machine, and then every header field has its encoded value. |
| ElfReader.Reader.GetSectionHeader | tools/elf2cfetbl/elf2cfetbl.c:1594-1766 | Fails exactly when the offset, in 64-bit arithmetic with wrap-around, is negative as a signed number or the header does not lie in the file; otherwise name, type, offset and sizes are the encoded ones, and symbol and string tables are recorded. |
| ElfReader.Reader.ReadSections | tools/elf2cfetbl/elf2cfetbl.c:660-668 | Reads all e_shnum sections or fails exactly if one is not in the file; the recorded tables are those of the whole sequence. |
| ElfReader.LastSymtabIsRecorded | tools/elf2cfetbl/elf2cfetbl.c:1672-1684 | What is recorded about the symbol table stems from the last named symbol table section. |
| ElfReader.Reader.GetSymbol | tools/elf2cfetbl/elf2cfetbl.c:1772-1850 | Succeeds exactly when the offset fits in a signed 32-bit integer and the symbol lies in the file; the fields are then the encoded ones, the name is read from the recorded string table, and a symbol with the name of the table definition is noted. |
| ElfReader.Reader.ReadSymbols | tools/elf2cfetbl/elf2cfetbl.c:679-687 | Reads all symbols, or fails exactly if one of them cannot be read; the table definition noted is the last symbol with its name, or none. |
| ElfReader.LoopVisitsSymbolsOneToLast | tools/elf2cfetbl/elf2cfetbl.c:1672-1684 | For a regular symbol table of n entries ending below 2^31, the loop makes n - 1 reads, and read i is of entry i + 1, inside the section. |
| ElfReader.ReadName | tools/elf2cfetbl/elf2cfetbl.c:1814-1824 | The character loop reads up to the first zero byte, at most the buffer's length. |
| ElfReader.NameTestAgreesUnlessPrintable | tools/elf2cfetbl/elf2cfetbl.c:2172-2193 | The name test agrees with the one its comments describe if and only if the name is not the wanted one with one printable character added. |
| ElfReader.PrintableExtraIsAccepted | tools/elf2cfetbl/elf2cfetbl.c:2177-2187 | A concrete name that the described test rejects and the code accepts. |
| ElfReader.SearchAgreesUnlessPrintable | tools/elf2cfetbl/elf2cfetbl.c:2168-2204 | The search finds what the described test would find if and only if no symbol before that one is the wanted name with one printable character added. |
| ElfReader.FindObject | tools/elf2cfetbl/elf2cfetbl.c:2168-2204 | The search returns the lowest accepted index, and the end only if no name is accepted. |
| TableFile.BigEndianValue | tools/elf2cfetbl/elf2cfetbl.c:2366-2404 | A word written by the tool is read back big-endian with its own value. |
| TableFile.PutWord | tools/elf2cfetbl/elf2cfetbl.c:2366-2428 | Hosts of both byte orders append the same big-endian word. |
| TableFile.PutText | tools/elf2cfetbl/elf2cfetbl.c:2415-2438 | A text field is its text, zero-filled to capacity, then the padding bytes. |
| TableFile.PaddingRoundsUp | tools/elf2cfetbl/elf2cfetbl.c:2417-2424 | With alignment a field takes the least multiple of four that holds it, for every field length; without, its own length. |
| TableFile.ParseEncode | tools/elf2cfetbl/elf2cfetbl.c:2406-2456 | An independent reader of the format gets back every word, both texts and the payload of a written file. |
| TableFile.ToolSeesThePayload | tools/tblCRCTool/cfe_ts_crc.c:160-179 | What the CRC tool looks at is the payload if and only if the headers take 116 bytes. |
| TableFile.ToolSeesEveryPayload | tools/tblCRCTool/cfe_ts_crc.c:160-179 | With headers of 116 bytes the tool looks at exactly the payload, also at an empty one. |
| TableFile.DefaultHeaderSize | tools/elf2cfetbl/elf2cfetbl.c:2406-2438 | The headers take 116 bytes with a 32-byte description and a 38- or 40-byte name, and 114 with 38 bytes unaligned. |
| TableFile.DefaultPlaces | tools/elf2cfetbl/elf2cfetbl.c:2406-2438 | With a 32-byte description and a 38- or 40-byte name: eight words from byte 0, the description in bytes 32 to 63, three words from byte 64, the name in bytes 76 to 115, and the payload from byte 116 on. |
| TableDefinition.DefaultDefSize | cfe/fsw/cfe-core/src/inc/cfe_tbl_filedef.h:54-87 | The definition has 160 bytes with either capacity of the table name. |
| TableDefinition.HostSeesDef | tools/elf2cfetbl/elf2cfetbl.c:2118-2126 | After the conditional swap of its size field, a host of either byte order sees the texts and the size that the file encodes. |
| TableDefinition.GetTblDefInfo | tools/elf2cfetbl/elf2cfetbl.c:2096-2152 | Succeeds exactly if the symbol's size is 0 or that of the structure, its offset fits in 32 bits and the structure lies in the file, and then returns the definition that the file encodes. |
| ElfFile.DefRoundTrip | cfe/fsw/cfe-core/src/inc/cfe_tbl_filedef.h:54-87 | A definition encoded as object name, table name, description, target file name and size, in that order, is read with the texts and the size that were encoded, for all formats and both encodings. |
| TableConverter.PayloadSize | tools/elf2cfetbl/elf2cfetbl.c:2224-2276 | In .bss st_size; elsewhere ObjectSize if st_size is 0, else the smaller of the two. |
| TableConverter.PayloadIsSlice | tools/elf2cfetbl/elf2cfetbl.c:2447-2456 | In a long enough file the payload outside .bss is the file's slice at sh_offset + st_value. |
| TableConverter.BssPayloadIsZero | tools/elf2cfetbl/elf2cfetbl.c:2440-2446 | In .bss the payload is st_size zero bytes. |
| TableConverter.PayloadPastTheEnd | tools/elf2cfetbl/elf2cfetbl.c:2447-2456 | Each payload byte that would lie past the end of the file is 0xFF. |
| TableConverter.Converter.ReadDefinition | tools/elf2cfetbl/elf2cfetbl.c:696-702 | The same for the definition symbol of the loaded file. |
| TableConverter.Converter.LocateAndReadUserObject | tools/elf2cfetbl/elf2cfetbl.c:2158-2299 | Finds the lowest accepted symbol or fails; succeeds exactly if it is in .bss or its offset fits in 32 bits; changes the size of that symbol only and positions the source file. |
| TableConverter.Converter.OutputDataToTargetFile | tools/elf2cfetbl/elf2cfetbl.c:2305-2459 | The output is the encoding of the headers and payload on both hosts; it reports failure exactly if the size does not fit in the size field. |
| TableConverter.Load | tools/elf2cfetbl/elf2cfetbl.c:635-687 | The reading half of the program succeeds exactly on accepted files whose sections and symbols can all be read, and holds exactly those. |
| TableConverter.OnlyOneWay | tools/elf2cfetbl/elf2cfetbl.c:618-722 | The file determines sections, symbols and definition: there is at most one way to convert it. |
| TableConverter.Convert | tools/elf2cfetbl/elf2cfetbl.c:618-722 | From the file alone: a table file is written if and only if the source is accepted, its sections and symbols can be read, its last table definition symbol is a good definition, and the object named there is found and can be reached; the output is that object's payload behind the headers of that definition. |
| TableConverter.SizeFieldIsPayloadLength | tools/elf2cfetbl/elf2cfetbl.c:2382-2388 | In the written file the size field is the payload length modulo 2^32, and equals it if and only if that is below 2^32; word by word, the file header is 0x63464531, 8, its length, the spacecraft, processor and application IDs, the time tag and 0, with the requested values or 0; the texts are the requested ones, else those of the definition. |
| TableConverter.HeaderLengths | tools/elf2cfetbl/elf2cfetbl.c:2406-2424 | The length in the file header is 64 with a 32-byte description, or an aligned 30-byte one. |
| TableConverter.ConvertThenCheck | tools/tblCRCTool/cfe_ts_crc.c:143-191 | From the file alone, for every format with headers of 116 bytes: under the same if-and-only-if, the CRC tool's size and sign-extended CRC of the converted file are those of the object's bytes, which lie at sh_offset + st_value, or of zeros in .bss. |
| ElfFile.PresentedFileLoads | tools/elf2cfetbl/elf2cfetbl.c:635-687 | Every file that encodes given sections, names and symbols, in either class and encoding, is loaded with exactly those. |
| ElfFile.NamesLookedFor | tools/elf2cfetbl/elf2cfetbl.c:45 | The names that the program looks for are .bss and CFE_TBL_FileDef, character by character. |
| ElfFile.DefinitionNames | tools/elf2cfetbl/elf2cfetbl.c:1829-1834 | A symbol is a table definition exactly if its name is CFE_TBL_FileDef or has one character before that. |
| ElfFile.PresentedFileConverts | tools/elf2cfetbl/elf2cfetbl.c:618-722 | Such a file is converted if its last definition symbol stands for an encoded definition and the object named there can be reached. |
| ElfFile.ConvertPresented | tools/elf2cfetbl/elf2cfetbl.c:618-722 | Without the reader's own functions, for every such file, on hosts of either order: the table file holds the eight words of the file header, the description, the length, the table name and the bytes of the object, or zeros in .bss. |
| ElfFile.ConvertsOnlyIf | tools/elf2cfetbl/elf2cfetbl.c:618-722 | Conversely, every file that converts, with the repository's formats, has a definition symbol of size 0 or 160, the last one with that name, whose 160 bytes lie in the file below 2^32, and an object in .bss or below 2^32. |
| ElfBuild.BuiltFileIsComplete | tools/elf2cfetbl/elf2cfetbl.c:618-722 | For every class, encoding, machine, definition and table contents, the object file built from them presents that definition and those contents. |
| ElfBuild.BuildThenConvert | tools/elf2cfetbl/elf2cfetbl.c:618-722 | From table contents to table file: converting the built object file gives a table file with exactly those contents and the texts of the definition, for every such table below 2^31 bytes. |
| ElfAbi.LastStringsAreRecorded | tools/elf2cfetbl/elf2cfetbl.c:1686-1692 | The string table that the code uses is the last named one that does not hold the section names. |
| ElfAbi.StringsAreLinkedOnes | tools/elf2cfetbl/elf2cfetbl.c:1686-1692 | It is the one that the symbol table links to if and only if the two start at the same offset, in particular if the linked one is the last. |
| ElfAbi.NameIsAbiName | tools/elf2cfetbl/elf2cfetbl.c:1814-1824 | Then the name that the code reads for a symbol is the zero-terminated string that the ABI gives it, if that has fewer than 60 characters and starts below 2^31. |
| ElfAbi.LongNamesAreCut | tools/elf2cfetbl/elf2cfetbl.c:1814-1824 | Of a name of 60 characters or more the first 60 are kept. |
| ElfAbi.LoadedHasSymtab | tools/elf2cfetbl/elf2cfetbl.c:821-830 | Nothing is loaded from a file without a named symbol table section. |
| ElfAbi.Conversions | tools/elf2cfetbl/elf2cfetbl.c:1772-1850 | The conversions to signed 32-bit and unsigned 64-bit numbers at their limits. |
| ElfAbi.SeekFails | tools/elf2cfetbl/elf2cfetbl.c:1814-1824 | A name whose offset is negative as a 32-bit number is read from where the file stands. |
| ElfAbi.WideSeekFails | tools/elf2cfetbl/elf2cfetbl.c:1644-1651 | The same for section names, whose offsets are 64-bit numbers. |
| ElfAbi.OtherStringsCanBeUsed | tools/elf2cfetbl/elf2cfetbl.c:1686-1692 | Sections for which the code uses another string table than the linked one. |
| ElfAbi.ObjectIsWhereDesignated | tools/elf2cfetbl/elf2cfetbl.c:2246-2253 | The code reads an object where the ABI puts it if and only if the file is relocatable or the object's section has address zero. |
| ElfAbi.PayloadIsDesignated | tools/elf2cfetbl/elf2cfetbl.c:2447-2456 | For every file that converts, exactly under that condition the payload outside .bss is taken from the designated place, and then it is the bytes there. |
| UtList.ListHead.Add | osal/ut_assert/src/utlist.c:55-86 | Appends a node with a copy of the data; links, ends and count again describe one sequence, and other nodes keep their data. |
| UtList.ListHead.DeleteNode | osal/ut_assert/src/utlist.c:98-127 | Removes exactly the given member, at head, tail, middle or as the only one; all remaining links are mutually inverse and data is untouched. |
| UtList.ListHead.RemoveNode | osal/ut_assert/src/utlist.c:139-145 | Returns the member's data and removes exactly that member. |
| UtList.ListHead.DeleteFirst | osal/ut_assert/src/utlist.c:88-91 | Drops the first item, and nothing from an empty list; the remaining nodes are old ones and no node's data changes. |
| UtList.ListHead.DeleteLast | osal/ut_assert/src/utlist.c:93-96 | Drops the last item, and nothing from an empty list; the remaining nodes are old ones and no node's data changes. |
| UtList.ListHead.RemoveFirst | osal/ut_assert/src/utlist.c:129-132 | Returns and drops the first item. |
| UtList.ListHead.RemoveLast | osal/ut_assert/src/utlist.c:134-137 | Returns and drops the last item. |
| UtList.ListHead.Reset | osal/ut_assert/src/utlist.c:48-53 | The loop terminates with an empty list and no node's data changes. |
| UtList.ListHead.IsEmpty | osal/ut_assert/src/utlist.c:157-160 | True exactly when the sequence is empty. |
| UtList.ListHead.Depth | osal/ut_assert/src/utlist.c:162-165 | The length of the sequence. |
| UtList.ListHead.First | osal/ut_assert/src/utlist.c:147-150 | The member that holds the first item, or none when the sequence is empty. |
| UtList.ListHead.Last | osal/ut_assert/src/utlist.c:152-155 | The member that holds the last item, or none when the sequence is empty. |
| UtList.ListHead.NodeAt | osal/ut_assert/src/utlist.c:147-150 | Walking the links from the first node reaches exactly the member at that place, or the end. |
| UtList.Execute | osal/ut_assert/src/utlist.c:48-145 | Any sequence of all operations (add, delete and remove of any member, at either end or by place, reset) on the heap structure gives the contents and removed data of the abstract sequence, and leaves the data of all earlier nodes alone. |
| UtList.StepTakesOne | osal/ut_assert/src/utlist.c:48-145 | On the abstract items: adding appends one, a reset drops all, and every other operation takes out exactly the item that it names, keeps all others in order, and hands out its data exactly if it is a removal. |
| UtList.SurvivorsKeepTheirOrder | osal/ut_assert/src/utlist.c:48-145 | Over every run of all operations, the list is what is left of the earlier items followed by the added ones, in the order in which they were added. |
| UtList.QueueIsFifo | osal/ut_assert/src/utlist.c:129-132 | What a queue delivered, followed by what it holds, is what it held followed by what was added, in order. |
| UtList.StackKeepsItsFloor | osal/ut_assert/src/utlist.c:134-137 | A run of pushes and pops that never goes below a depth leaves everything below it untouched. |
| UtList.PopReturnsThePush | osal/ut_assert/src/utlist.c:134-137 | After a balanced run of pushes and pops, a pop returns the data pushed before it. |
| Eeprom.Memory.Write32 | psp/fsw/shared/cfe_psp_eeprom.c:67-81 | An aligned address gets the word's four bytes in the configured order; a misaligned one changes nothing. |
| Eeprom.Memory.Write16 | psp/fsw/shared/cfe_psp_eeprom.c:104-179 | Through a 32-bit read-modify-write exactly the two addressed bytes change, in both byte orders; a misaligned one changes nothing. |
| Eeprom.Memory.Write8 | psp/fsw/shared/cfe_psp_eeprom.c:202-267 | Through nested read-modify-writes exactly the addressed byte changes, in both byte orders. |
| Eeprom.MergeWord | psp/fsw/shared/cfe_psp_eeprom.c:118-177 | Merging a half-word into the loaded word and storing the word equals storing the half-word alone. |
| Eeprom.MergeHalf | psp/fsw/shared/cfe_psp_eeprom.c:207-265 | Merging a byte into the loaded half-word and storing it equals storing the byte alone. |
| Eeprom.WritesCompose | psp/fsw/shared/cfe_psp_eeprom.c:67-267 | Four byte writes, or two half-word writes, leave the memory that one aligned word write leaves. |
| Eeprom.LoadAfterStore | psp/fsw/shared/cfe_psp_eeprom.c:67-81 | A word that was written is read back. |
| Eeprom.ByteOrders | psp/fsw/shared/cfe_psp_eeprom.c:67-179 | The bytes of a word and a half-word in both byte orders. |
| MemRange.MemoryTable.ValidateRange | psp/fsw/shared/cfe_psp_memrange.c:71-157 | Succeeds if and only if the type is known, the range does not wrap and an active compatible record contains it; otherwise, once the parameters are in order, answers with the verdict of the last active record. |
| MemRange.Answer | psp/fsw/shared/cfe_psp_memrange.c:71-157 | The answer is success exactly under that condition. |
| MemRange.Verdict | psp/fsw/shared/cfe_psp_memrange.c:100-154 | One record alone answers success exactly when it contains the range and its type is compatible. |
| MemRange.SuccessExactly | psp/fsw/shared/cfe_psp_memrange.c:71-157 | Address by address: a non-empty range that does not wrap validates if and only if the type is known and some record in use has exactly that type, or any if any is wanted, and holds every address of the range. |
| MemRange.FailureExactly | psp/fsw/shared/cfe_psp_memrange.c:94-157 | Why it fails, by the last record in use: wrong type if and only if it holds every address of the range, too small if and only if it holds the first but not all, address not found if and only if it does not hold the first. |
| MemRange.NothingInUse | psp/fsw/shared/cfe_psp_memrange.c:94-157 | With no record in use the answer is that the address was not found. |
| MemRange.ParameterChecks | psp/fsw/shared/cfe_psp_memrange.c:83-91 | An unknown type is reported first, then a range that wraps; an empty range wraps unless it is at zero. |
| MemRange.WrongType | psp/fsw/shared/cfe_psp_memrange.c:120-145 | A table with EEPROM only answers wrong type for RAM, and success for EEPROM and for any type. |
| MemRange.MemoryTable.RangeSet | psp/fsw/shared/cfe_psp_memrange.c:219-255 | Sets exactly the numbered record when all parameters are legal; otherwise reports the first illegal one and changes nothing. |
| MemRange.LegalParameters | psp/fsw/shared/cfe_psp_memrange.c:219-255 | Each code of the setter if and only if, in numbers: range number below 10, type 1 or 2, word size 1, 2 or 4, attributes 1 to 3, the first illegal one reported. |
| MemRange.MemoryTable.RangeGet | psp/fsw/shared/cfe_psp_memrange.c:288-309 | Returns the numbered record unchanged, or reports a null pointer or a bad number. |
| MemRange.SetThenGet | psp/fsw/shared/cfe_psp_memrange.c:219-309 | What is set is what is got, and no other record changes. |
| MemRange.SetThenValidate | psp/fsw/shared/cfe_psp_memrange.c:71-255 | From an empty table, a plain range that was set legally validates, as does every non-empty part of it; if it was not set, the answer is that the address was not found. |
| MemRange.SetRangeValidates | psp/fsw/shared/cfe_psp_memrange.c:219-255 | After a plain range was set, every non-empty part of it validates for its own type and for any type. |
| MemRange.ContainsMeansAllAddresses | psp/fsw/shared/cfe_psp_memrange.c:100-120 | For plain ranges, the end-point comparison holds if and only if every address of the one is in the other. |
| MemRange.TooSmallIsReportedOnlyByTheLast | psp/fsw/shared/cfe_psp_memrange.c:94-157 | For a range that no record covers, "range too small" is answered if and only if the last active record holds the address and ends before the range does; so the answer has its documented meaning if and only if no record is too small or the last one is. |
| MemRange.LaterRecordHidesTooSmall | psp/fsw/shared/cfe_psp_memrange.c:94-157 | A full table of ten records in which one is too small for the range, yet the answer is "address not found". |

## Left out

- Stub table: hooks that re-enter the table; a hook is a function of its callback, the code, the count and the context.
- Stub table: malloc failure, freeing, and pointers into copied buffers (UT_GetDataBuffer); a copy is a value inside its entry, a direct buffer a block of the test's memory.
- Stub table: UT_GetStubCount, which is one search, and debug output.
- StubWrites.WritesFillTheSpaces: is about direct buffers on distinct blocks, with none registered for the key in between; StubSlots.EachBufferIsFilled covers copied buffers and registrations. Two written buffers in one block start at the same place and overwrite each other, so that nothing is said about what such a block holds.
- StubQueue.QueueConservesMessages: other operations of the run do not register, read or write under the queue's own key.
- StubObjects.ObjectStubs.DeleteStubObjId: ends the run for an ID whose index is outside the bitmap, where the C code reports a failure and then accesses memory outside its array.
- StubCodes.CounterCountsCalls: covers runs that were not aborted; a call that finds no free slot for its counter aborts the test.
- The other stub functions, utassert.c, uttest.c and uttools.c: thin wrappers, counters and reports.
- Crc.TableCrc: reads a file as a byte sequence; read errors and lengths of 2^31 and more are not modelled.
- ElfReader.Reader.GetElfHeader: takes the list of known machines as a parameter.
- ElfReader.Reader.GetSectionHeader: an unnamed section has an empty name, where the C code leaves its buffer uninitialised; names that overrun the 60-character buffer, an index times entry size of 2^31 and more, and a zero entry size of a symbol table, by which the code divides, are outside the model.
- ElfReader.Reader.GetSymbol: an empty name is not that of the table definition, where the C code compares bytes of its buffer that were not written for this symbol.
- ElfReader.ReadName: does not model the write one past the buffer for a name of 60 characters.
- TableConverter.Convert: assumes what the C code takes for granted, that the section indices it follows lie in the section table and that the description and table name it copies end within their fields; the name of the target file is not modelled.
- TableConverter.Converter.OutputDataToTargetFile: the loop counter does not overflow at 2^31.
- elf2cfetbl: command line, epoch times, verbose output, opening of files and write errors, and the exit status, which is success even when no table definition was found.
- UtList: allocation failure and wrap-around of the entry count at 2^32.
- Eeprom.Memory.Write32: a memory of at most 2^32 bytes; the aligned reads CFE_PSP_MemRead16/32, whose bodies are not part of this model, are plain reads in the configured byte order.
- EEPROM enable, disable and power functions, CFE_PSP_MemRanges and configuration data: constant returns.
- Ground-system GUI, configuration headers and performance IDs: no logic beyond constants and I/O.
