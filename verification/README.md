# Proofs about the study projects

This project models the parts of the repository whose correctness is not
visible from one function body, and proves what they promise. `dafny verify
dfyconfig.toml` checks all of it.

- **Peterson's lock** (`Peterson*.dfy`). The two source files differ in one
  fence. Both programs, and a third with the fence moved behind the turn
  store, run on two machines: sequentially consistent interleaving, and
  x86-TSO with store buffers, forwarding and drains at any time. Every shared
  access is a step of its own and N is arbitrary. The source's fence, in front
  of the turn store, does not make the lock safe on TSO. The exact conditions
  are proved on both sides, with the failing runs spelled out. What the machine
  promises each thread is proved beside them: stores reach memory in program
  order, loads see the thread's own newest store, a thread alone counts right.
- **Lock-free stack** (`LockFree*.dfy`). Compare-and-swap on a packed word with
  a 17-bit serial number, any number of threads, nodes reused through a pool.
  For every schedule the stack is right all along if and only if each pop that
  succeeds puts the present successor of the top node into the word; a push
  needs no such condition. The limit that a caller can check is exact too: with
  two or more threads all runs that draw at most `k` serial numbers are right if
  and only if `k` is at most the number of tag values. The pool is the same
  algorithm with a word of its own; run together the two keep every node in
  exactly one place and conserve the values, and the limit is the same. Both are
  lock-free: left alone a call returns, and a compare-and-swap fails only because
  another has succeeded. The steps follow `Push` (lines 69-92) and `Pop` (lines
  94-121) of `22.12.03 - LockFreeStack/LockFreeStack.h`, and `Alloc` and `Free`
  (lines 99-168) of `ObjectPool.h` beside it.
  `LockFreeMonitor.dfy` and `LockFreeAlarm.dfy` are about the test program in
  `main.cpp` there (lines 14-37), whose monitor raises the alarm when the node
  count leaves the range from 0 to the number of threads. The count is never
  negative. While no more numbers are drawn than there are tag values no pop
  fails and the count stays in range; but the program runs for ever, and with
  two or more threads it has a run in which the alarm goes off. These files are
  in a Korean code page, not UTF-8, so the table cites the promise in the
  repository's own description instead.
- **Reader/writer lock wrapper** (`RwLock.dfy`). One unlock call for both
  modes, steered by a shared flag, over the operating system's slim lock as
  specified. Refinement of a readers/writer set.
- **Protocol buffer** (`ProtocolBuffer.dfy`). The array and its cursors refine
  a byte stream, and the byte stream refines a bounded queue of typed values and
  raw runs of bytes.
- **Headers of the MySQL client** (`LittleEndian.dfy`, `ByteOrder.dfy`,
  `TrailingSpace.dfy`, `Timespec.dfy`). Byte-order functions against direct
  loads, two word-at-a-time scanners against the byte scan, deadlines and
  millisecond waits with their wrap-around. The copies under `DBConnector/` are
  the same files.
- **Small stateful pieces** (`ScopeLog.dfy`, `SessionId.dfy`,
  `IntervalTimer.dfy`, `CoreCounts.dfy`).

## How the model is built

Code that several threads run is a state machine over its steps: a value for
the shared and local state, a function for one step, and theorems over all
schedules. A step that is not enabled (a fence with stores still buffered, a blocked
acquisition, a drain of an empty buffer) leaves the state as it is, so every
list of steps is a run. Classes model the objects that one thread updates in
place. Their methods are tied to specification functions, and the theorems are
about those functions. Specification state that the program does not have
(`spec`, `balance` and `calls` in the lock-free stack, `mode` in the lock
wrapper) never decides a step of the program.

Integers are unbounded, so each wrap-around and cast of the source is written
out. `throw;` without an active exception is modelled as a refusal that changes
nothing. Clock readings, the pool's choice of a node, and the addresses of
strings are parameters.

Where comments and code differ, the code is followed: the comment on
`skip_trailing_space` says that it returns the last non-space character, the
code returns the position behind it.

Properties that turn out false are stated with their exact condition: the TSO
results above, the stack after scopes with empty names, the 32-bit wait, the
24-bit codec, the interval timer whose cycle and gap do not fit in 2^32 ms, the
bit total of overlapping masks, the stack's serial numbers, and the range of the
stack's node count in the test program.

## Model

| member | source | states |
|---|---|---|
| `PetersonTSORuns.ExclusionExactly` | CppProject/22.10.19 - 피터슨 알고리즘 버그 찾기/소스.cpp:21-30 | over all TSO runs the two threads are never both between loop exit and lowering the flag, if and only if the fence stands after the turn store or N is 0; so the source's placement fails for every N >= 1 |
| `PetersonTSORuns.FinalCountExactly` | CppProject/22.10.19 - 피터슨 알고리즘 버그 찾기/소스.cpp:45-54 | every completed and drained TSO run prints 2N under exactly the same condition |
| `PetersonTSORuns.BothEnter` | CppProject/22.10.19 - 피터슨 알고리즘 버그 찾기/소스.cpp:22-25 | an explicit TSO run, for any N >= 1, that puts both threads into the critical section through a turn store that drains late |
| `PetersonTSORuns.FinishWithLoss` | CppProject/22.10.19 - 피터슨 알고리즘 버그 찾기/소스.cpp:27-29 | an explicit complete TSO run, for any N >= 1, that ends with 2N - 1 |
| `PetersonTSO.CleanMutualExclusion` | CppProject/22.10.19 - 피터슨 알고리즘 버그 찾기/소스.cpp:21-30 | in every TSO run whose loop exits are decided with an empty own buffer, exclusion holds and lasts until the increment has reached memory |
| `PetersonTSO.CleanCount` | CppProject/22.10.19 - 피터슨 알고리즘 버그 찾기/소스.cpp:27 | in those runs memory plus at most one buffered increment is the number issued, and 2N at the end |
| `PetersonTSO.LateFenceRunsAreClean` | CppProject/22.10.19 - 피터슨 알고리즘 버그 찾기/소스.cpp:23-25 | with the fence moved behind the turn store every run is of that kind |
| `PetersonTSO.ScRunsAreCleanTsoRuns` | CppProject/22.10.12 - Spinlock/02 DontUseInterlocked.cpp:21-29 | each sequentially consistent run is such a TSO run with the same states |
| `PetersonTSOMemory.DrainIsInOrder` | CppProject/22.10.19 - 피터슨 알고리즘 버그 찾기/소스.cpp:22-29 | in every TSO run a drain writes the oldest store of the thread's program order that memory does not have, to its variable and to no other |
| `PetersonTSOMemory.LoadOfCnt` | CppProject/22.10.12 - Spinlock/02 DontUseInterlocked.cpp:26 | the load of `cnt` gives the value the thread stored last as long as that store is buffered, and otherwise what memory holds |
| `PetersonTSOMemory.LoadOfTurn` | CppProject/22.10.12 - Spinlock/02 DontUseInterlocked.cpp:24 | the load of `turn` in the loop test likewise decides by the thread's own last store, or by memory |
| `PetersonTSOMemory.AloneCountsRight` | CppProject/22.10.12 - Spinlock/02 DontUseInterlocked.cpp:21-29 | with any fences or none, a thread that runs alone has all its increments in memory once its buffer is empty, and N when it has ended |
| `PetersonTSOMemory.FencePublishesFlag` | CppProject/22.10.19 - 피터슨 알고리즘 버그 찾기/소스.cpp:22-24 | in every run of the fenced program a thread past its fence has its flag up in memory |
| `PetersonSC.MutualExclusion` | CppProject/22.10.12 - Spinlock/02 DontUseInterlocked.cpp:21-29 | for any N, any schedule and either program, at most one thread is past its wait loop |
| `PetersonSC.NoLostIncrement` | CppProject/22.10.12 - Spinlock/02 DontUseInterlocked.cpp:26 | with load and store as separate steps the counter is the number of stores issued, and 2N when both threads have ended |
| `PetersonSC.BoundedBypass` | CppProject/22.10.12 - Spinlock/02 DontUseInterlocked.cpp:23-24 | while a thread waits the other one passes its loop at most once, and not at all if the turn favours the waiting one |
| `PetersonSC.BypassHappens` | CppProject/22.10.12 - Spinlock/02 DontUseInterlocked.cpp:21-29 | for any N >= 1 a reachable state in which the one bypass does happen |
| `PetersonSC.StepLowersMeasure` | CppProject/22.10.12 - Spinlock/02 DontUseInterlocked.cpp:21-29 | every step except a turn of the wait loop, or a step after the end, lowers a bounded measure |
| `PetersonSC.AloneProgress` | CppProject/22.10.12 - Spinlock/02 DontUseInterlocked.cpp:24 | from every reachable unfinished state some thread, run alone for two steps, gets on |
| `PetersonSC.FairRunsTerminate` | CppProject/22.10.12 - Spinlock/02 DontUseInterlocked.cpp:21-29 | if both threads get two steps per round, both have ended after at most 18N + 3 rounds, with the counter at 2N |
| `RwLock.Exclusion` | CppProject/23.02.05 - MySql_C_Connect/mysql/include/thr_rwlock.h:94-115 | with any number of threads that unlock only what they hold, a writer excludes every other holder in every reachable state |
| `RwLock.UnlockTakesRightBranch` | CppProject/23.02.05 - MySql_C_Connect/mysql/include/thr_rwlock.h:117-131 | each unlock reads true exactly when its caller is the writer, no reader ever coexists with a true flag, and the slim lock is always owned in the mode that is released |
| `RwLock.RefinesAbstractLock` | CppProject/23.02.05 - MySql_C_Connect/mysql/include/thr_rwlock.h:73-131 | each step is a stutter, grant or release of the stepping thread on a readers/writer set |
| `RwLock.UnlockExactly` | CppProject/23.02.05 - MySql_C_Connect/mysql/include/thr_rwlock.h:117-131 | an unlock call keeps the lock sound if and only if its caller holds it, and gives up that hold and no other |
| `RwLock.TryCallsExactly` | CppProject/23.02.05 - MySql_C_Connect/mysql/include/thr_rwlock.h:83-115 | in every reachable state a shared try call succeeds if and only if there is no writer, an exclusive one if and only if there is no holder; the caller then holds the lock in that mode, and otherwise nothing has changed |
| `RwLock.BlockingCallsExactly` | CppProject/23.02.05 - MySql_C_Connect/mysql/include/thr_rwlock.h:73-104 | a blocked call waits exactly as long as a writer, or any holder, is there, and then takes the lock in its mode |
| `RwLock.CallsKeepPromise` | CppProject/23.02.05 - MySql_C_Connect/mysql/include/thr_rwlock.h:73-131 | a thread that has left a blocking call holds the lock in that call's mode, one that has left a try call in that mode or not at all, one that has left unlock not at all |
| `RwLock.LockThenUnlock` | CppProject/23.02.05 - MySql_C_Connect/mysql/include/thr_rwlock.h:73-131 | each of the four lock calls, where it gets the lock, followed by unlock restores the lock state and the flag |
| `TrailingSpace.SkipTrailingSpace` | CppProject/23.02.05 - MySql_C_Connect/mysql/include/m_string.h:317-329 | the version reading 8 bytes at a time returns the byte scan's result on every string and reads nothing outside it |
| `TrailingSpace.SkipTrailingSpaceAligned` | CppProject/23.02.05 - MySql_C_Connect/mysql/include/m_string.h:280-310 | so does the version with aligned words of 4 or 8 bytes, at any address and in either byte order, and the source's assertion holds |
| `TrailingSpace.ScanWords` | CppProject/23.02.05 - MySql_C_Connect/mysql/include/m_string.h:303-305 | its word loop reads only whole words inside the string at aligned addresses and drops nothing but trailing spaces |
| `TrailingSpace.TrimmedLenIsUnique` | CppProject/23.02.05 - MySql_C_Connect/mysql/include/m_string.h:326-328 | the byte scan's result is the one position with only spaces behind it and none just before it |
| `TrailingSpace.LoadedWordOfSpaces` | CppProject/23.02.05 - MySql_C_Connect/mysql/include/m_string.h:283-289 | a loaded word equals the constant exactly when all its bytes are spaces, on either kind of machine |
| `ByteOrder.ReadersAreDirectLoads` | CppProject/23.02.05 - MySql_C_Connect/mysql/include/byte_order_generic.h:20-74 | on every byte string the shift-and-add readers give what the x86 direct loads give, signed and unsigned, at widths 2, 3, 4, 5, 6 and 8 |
| `ByteOrder.LoadOfStore` | CppProject/23.02.05 - MySql_C_Connect/mysql/include/my_byteorder.h:45-101 | loading a stored value gives it back, cut to the width |
| `ByteOrder.StoreOfLoad` | CppProject/23.02.05 - MySql_C_Connect/mysql/include/my_byteorder.h:31-101 | storing a loaded value gives back the bytes, for every byte string, signed or unsigned |
| `ByteOrder.Sint3Exactly` | CppProject/23.02.05 - MySql_C_Connect/mysql/include/my_byteorder.h:31-43 | sint3korr recovers a stored int if and only if it lies between INT_MIN24 and INT_MAX24 |
| `ByteOrder.SignedLoadOfStore` | CppProject/23.02.05 - MySql_C_Connect/mysql/include/byte_order_generic.h:20-36 | the other signed readers recover a stored value if and only if it fits the width |
| `ByteOrder.Sint3OfBits` | CppProject/23.02.05 - MySql_C_Connect/mysql/include/my_byteorder.h:33-42 | the source's expression for sint3korr on 32-bit words, a bit test, shifts and ors, has the value that the other lemmas speak of, for all three bytes |
| `ByteOrder.BitsOf` | CppProject/23.02.05 - MySql_C_Connect/mysql/include/my_byteorder.h:31 | every byte is the value of some eight bits, so that covers all byte strings |
| `ByteOrder.Int2store` | CppProject/23.02.05 - MySql_C_Connect/mysql/include/byte_order_generic.h:76-81 | writes the two bytes that the direct 16-bit store writes and no others |
| `ByteOrder.Int3store` | CppProject/23.02.05 - MySql_C_Connect/mysql/include/my_byteorder.h:77-82 | writes the low three bytes of the 32-bit value, lowest first, and no others |
| `ByteOrder.Int4store` | CppProject/23.02.05 - MySql_C_Connect/mysql/include/byte_order_generic.h:83-89 | writes the four bytes that the direct 32-bit store writes and no others |
| `ByteOrder.Int5store` | CppProject/23.02.05 - MySql_C_Connect/mysql/include/my_byteorder.h:84-91 | writes the low five bytes and no others |
| `ByteOrder.Int6store` | CppProject/23.02.05 - MySql_C_Connect/mysql/include/my_byteorder.h:93-101 | writes the low six bytes and no others |
| `ByteOrder.Int8store` | CppProject/23.02.05 - MySql_C_Connect/mysql/include/byte_order_generic.h:91-97 | two 4-byte stores write the eight bytes of the direct 64-bit store and no others |
| `ProtocolStream.BufferIsTypedQueue` | CppProject/22.10.10 - MMO TCPFighter Server/ProtocolBuffer.cpp:16-333 | every interleaving of typed writes, string and raw writes, reads that ask for the type or length of the oldest item, and Clear gives the outcomes, refusals included, of a queue of items, and leaves exactly the pending items' bytes unread |
| `ProtocolStream.ValuesRoundTrip` | CppProject/22.10.10 - MMO TCPFighter Server/ProtocolBuffer.cpp:16-333 | any list of mixed typed values and raw runs that fits is read back whole and leaves nothing unread |
| `ProtocolStream.BytesAreFifo` | CppProject/22.10.10 - MMO TCPFighter Server/ProtocolBuffer.cpp:315-333 | for every interleaving of puts, gets and Clear, bytes returned followed by bytes unread are the bytes accepted since the last Clear, and free, unread and returned room add up to the size |
| `ProtocolStream.DecodeEncode` | CppProject/22.10.10 - MMO TCPFighter Server/ProtocolBuffer.cpp:38-47 | a value survives the copy into and out of the buffer exactly when it lies in the range of its C++ type, given in numbers |
| `ProtocolStream.InsertThenExtract` | CppProject/22.10.10 - MMO TCPFighter Server/ProtocolBuffer.cpp:16-309 | one << and one >> move 1, 2, 4 or 8 bytes as the type says, the write is accepted if and only if they are free, and the value read is the one written if and only if it lies in the type's range |
| `ProtocolStream.EncodeDecode` | CppProject/22.10.10 - MMO TCPFighter Server/ProtocolBuffer.cpp:200-209 | reading a type and writing it again reproduces the bytes, whatever they are |
| `ProtocolBuffer.Buffer.constructor` | CppProject/22.10.10 - MMO TCPFighter Server/ProtocolBuffer.cpp:4-10 | an empty buffer of the given size |
| `ProtocolBuffer.Buffer.PutData` | CppProject/22.10.10 - MMO TCPFighter Server/ProtocolBuffer.cpp:315-323 | appends all bytes if they fit, else leaves array and cursor untouched |
| `ProtocolBuffer.Buffer.GetData` | CppProject/22.10.10 - MMO TCPFighter Server/ProtocolBuffer.cpp:325-333 | takes the oldest unread bytes if there are enough, else changes nothing |
| `ProtocolBuffer.Buffer.Insert` | CppProject/22.10.10 - MMO TCPFighter Server/ProtocolBuffer.cpp:16-146 | the twelve << operators: one step of the typed stream, moving the write cursor by the width of the type |
| `ProtocolBuffer.Buffer.Extract` | CppProject/22.10.10 - MMO TCPFighter Server/ProtocolBuffer.cpp:178-309 | the twelve >> operators: one step of the typed stream, moving the read cursor by the width of the type |
| `ProtocolBuffer.Buffer.InsertString` | CppProject/22.10.10 - MMO TCPFighter Server/ProtocolBuffer.cpp:148-159 | appends the characters in front of the terminator |
| `ProtocolBuffer.Buffer.InsertWide` | CppProject/22.10.10 - MMO TCPFighter Server/ProtocolBuffer.cpp:161-172 | appends two bytes for each wide character in front of the terminator |
| `ProtocolBuffer.WideBytesAt` | CppProject/22.10.10 - MMO TCPFighter Server/ProtocolBuffer.cpp:161-166 | each wide character occupies its own two bytes, low byte first |
| `ProtocolBuffer.Buffer.RunOps` | CppProject/22.10.10 - MMO TCPFighter Server/ProtocolBuffer.cpp:16-333 | any sequence of operations on the array and its cursors gives the stream's result, and on an empty buffer with matching reads the outcomes of the queue |
| `ProtocolBuffer.Buffer.Clear` | CppProject/22.10.10 - MMO TCPFighter Server/ProtocolBuffer.h:73-76 | forgets everything written and read |
| `ProtocolBuffer.Buffer.Empty` | CppProject/22.10.10 - MMO TCPFighter Server/ProtocolBuffer.h:78-82 | true exactly when nothing is unread |
| `ProtocolBuffer.Buffer.FreeSize` | CppProject/22.10.10 - MMO TCPFighter Server/ProtocolBuffer.h:90-92 | the largest put that is accepted |
| `ProtocolBuffer.Buffer.UseSize` | CppProject/22.10.10 - MMO TCPFighter Server/ProtocolBuffer.h:94-96 | the number of unread bytes |
| `ProtocolBuffer.Buffer.MoveWp` | CppProject/22.10.10 - MMO TCPFighter Server/ProtocolBuffer.h:65 | the unchecked move keeps the cursors in order exactly within the stated bounds, and then exposes the bytes found in the array |
| `ProtocolBuffer.Buffer.MoveRp` | CppProject/22.10.10 - MMO TCPFighter Server/ProtocolBuffer.h:66 | the same for the read cursor, which then skips unread bytes |
| `TimespecSpec.DeadlineExactly` | CppProject/23.02.05 - MySql_C_Connect/mysql/include/my_global.h:688-698 | a deadline is always normalised, and equals clock plus timeout if and only if the tick sum stays below 2^64 |
| `TimespecSpec.TimeoutThenWait` | CppProject/23.02.05 - MySql_C_Connect/mysql/include/thr_cond.h:89-94 | from setting a deadline to asking for the wait: zero once it has passed, else within 1 ms of the rest, if and only if the wait needs no more than 32 bits |
| `TimespecSpec.WaitExactly` | CppProject/23.02.05 - MySql_C_Connect/mysql/include/thr_cond.h:89-94 | the same for any timespec, and the wait of 2^32 ms that comes out as zero |
| `TimespecSpec.WaitShrinks` | CppProject/23.02.05 - MySql_C_Connect/mysql/include/thr_cond.h:89-94 | a later clock never gives a longer wait |
| `TimespecSpec.CompareIsOrder` | CppProject/23.02.05 - MySql_C_Connect/mysql/include/my_global.h:724-740 | on normalised timespecs the comparison is that of the times |
| `TimespecSpec.DifferenceExactly` | CppProject/23.02.05 - MySql_C_Connect/mysql/include/my_global.h:742-750 | the unsigned difference is the true one if and only if that is between 0 and 2^64 |
| `TimespecSpec.SecondsExactly` | CppProject/23.02.05 - MySql_C_Connect/mysql/include/my_global.h:712-715 | the conversion from seconds is exact up to 18446744073 seconds and no further |
| `Timespecs.Timespec.SetNsec` | CppProject/23.02.05 - MySql_C_Connect/mysql/include/my_global.h:688-698 | stores that deadline |
| `Timespecs.Timespec.Set` | CppProject/23.02.05 - MySql_C_Connect/mysql/include/my_global.h:712-715 | stores the deadline the given seconds ahead, exactly if and only if neither the product nor the tick sum wraps |
| `Timespecs.GetMilliseconds` | CppProject/23.02.05 - MySql_C_Connect/mysql/include/thr_cond.h:89-94 | a 32-bit wait that is zero from the deadline on and within 1 ms of the rest before it, if and only if that takes at most 32 bits |
| `Timespecs.Cmp` | CppProject/23.02.05 - MySql_C_Connect/mysql/include/my_global.h:724-740 | for normalised fields 1, -1 or 0 exactly when the first time is later, earlier or the same |
| `ScopeLogSpec.LinesParseBack` | CppProject/22.11.17 - IOCP_ECHO_Server/Log.cpp:219-242 | at the debug threshold the text of the lines written by any tree of scopes parses back to that tree if and only if all scopes have names |
| `ScopeLogSpec.ParsedAreEvents` | CppProject/22.11.17 - IOCP_ECHO_Server/Log.cpp:219-242 | nothing but the lines of a tree parses as that tree |
| `ScopeLogSpec.WellNestedExactly` | CppProject/22.11.17 - IOCP_ECHO_Server/Log.h:88-99 | begin and end lines are well nested if and only if they are those of a tree of scopes |
| `ScopeLogSpec.StackAfter` | CppProject/22.11.17 - IOCP_ECHO_Server/Log.h:88-99 | each scope with an empty name costs the surrounding program one stack entry, as long as there is one |
| `ScopeLogSpec.StackRestoredExactly` | CppProject/22.11.17 - IOCP_ECHO_Server/Log.cpp:219-242 | the stack is as before if and only if every scope has a name or the stack was empty |
| `ScopeLogSpec.QuietBelowDebug` | CppProject/22.11.17 - IOCP_ECHO_Server/Log.cpp:320-333 | below the debug threshold scopes write nothing |
| `ScopeLog.Logger.PushName` | CppProject/22.11.17 - IOCP_ECHO_Server/Log.cpp:219-226 | an empty name is refused without a trace, another one is logged and pushed |
| `ScopeLog.Logger.PopName` | CppProject/22.11.17 - IOCP_ECHO_Server/Log.cpp:233-242 | takes the top off and logs it; nothing on an empty stack |
| `ScopeLogSpec.LogWrites` | CppProject/22.11.17 - IOCP_ECHO_Server/Log.cpp:320-333 | for each of the five thresholds, by name, the levels whose lines are written, and no other |
| `ScopeLog.Logger.WriteLog` | CppProject/22.11.17 - IOCP_ECHO_Server/Log.cpp:320-333 | appends a line exactly for those levels and says so |
| `ScopeLog.Logger.SetThreshold` | CppProject/22.11.17 - IOCP_ECHO_Server/Log.cpp:73-76 | changes the threshold only |
| `ScopeLog.Logger.RunScopes` | CppProject/22.11.17 - IOCP_ECHO_Server/Log.h:88-99 | scope objects built and destroyed in tree order produce the run of the lemmas, and restore the stack if all are named |
| `SessionId.IdsRepeatExactly` | CppProject/22.10.10 - MMO TCPFighter Server/Session.cpp:30-34 | no id is the invalid one, and two calls agree if and only if they are a multiple of 2^W - 1 calls apart |
| `SessionId.ConsecutiveIdsDiffer` | CppProject/22.10.10 - MMO TCPFighter Server/Session.cpp:30-34 | any 2^W - 1 consecutive ids are pairwise distinct, across the wrap-around |
| `SessionId.Generator.GetSessionID` | CppProject/22.10.10 - MMO TCPFighter Server/Session.cpp:30-34 | returns the next result of that sequence |
| `IntervalTimer.TimerSees` | CppProject/22.11.17 - IOCP_ECHO_Server/main.cpp:6-25 | at every call, with any gaps and cycles, the timer compares the cycle with the true time since its last firing modulo 2^32 |
| `IntervalTimer.AnswersExactly` | CppProject/22.11.17 - IOCP_ECHO_Server/main.cpp:19-24 | every answer is right, for all call times with a fixed cycle and a greatest gap, if and only if gap and cycle together are at most 2^32 ms (or the cycle is 0) |
| `IntervalTimer.NeverOverdue` | CppProject/22.11.17 - IOCP_ECHO_Server/main.cpp:19-24 | in that case the true time since the last firing stays below the cycle after every call |
| `IntervalTimer.SleepyMisses` | CppProject/22.11.17 - IOCP_ECHO_Server/main.cpp:13-22 | the calls that fail otherwise: 1 ms apart up to the last before the cycle is over, then one after 2^32 ms, which does not fire |
| `IntervalTimer.FiringsTakeTime` | CppProject/22.11.17 - IOCP_ECHO_Server/main.cpp:19-24 | k firings need at least k cycles of real time, whatever the gaps |
| `IntervalTimer.TimeBringsFirings` | CppProject/22.11.17 - IOCP_ECHO_Server/main.cpp:19-24 | with bounded gaps real time does not run ahead of the firings by more than a gap each and one cycle |
| `IntervalTimer.Timer.Call` | CppProject/22.11.17 - IOCP_ECHO_Server/main.cpp:13-24 | one call on the static variables |
| `CoreCounts.GetProcessorCoreCounts` | CppProject/GetProcessorCoreCounts.cpp:16-28 | physical is the number of core records and logical the number of their mask bits, both modulo 2^16; with disjoint masks the latter is the size of the union |
| `CoreCounts.AddBits` | CppProject/GetProcessorCoreCounts.cpp:22-26 | the inner loop adds the number of one bits of the mask and ends |
| `CoreCounts.CoresAreRecords` | CppProject/GetProcessorCoreCounts.cpp:19-21 | the physical count is the number of the records that describe a core |
| `CoreCounts.TotalIsUnionExactly` | CppProject/GetProcessorCoreCounts.cpp:18-28 | the bit total is the size of the union if and only if no two core records share a processor |
| `CoreCounts.BitsArePositions` | CppProject/GetProcessorCoreCounts.cpp:24-25 | the bits of a mask are the positions at which shifting finds a one |
| `LockFreeStack.Linearizable` | Readme.md:30-31 | for every schedule: after each step the linked nodes are the specification's stack, a pop sees null exactly when it is empty and returns the value the specification popped, if and only if no pop that succeeds swaps in a stale successor |
| `LockFreeStack.CasTakesEffect` | Readme.md:30-31 | a compare-and-swap that succeeds there is one push or pop of the specification |
| `LockFreeStack.WindowRunIsCurrent` | Readme.md:30-31 | a pop whose word is fewer serial numbers old than there are tag values never swaps in a stale successor |
| `LockFreeStack.ShortRunsStayInWindow` | Readme.md:30-31 | a run that has drawn no more serial numbers than there are tag values stays in that window |
| `LockFreeProgress.AloneReturns` | Readme.md:30-31 | from any state whatever, a thread that runs alone returns from its call after a number of steps read off the state, at most 8 |
| `LockFreeProgress.AloneFinishes` | Readme.md:30-31 | from every reachable state a pending push left alone puts exactly its item on the stack, a pending pop takes exactly the top item and its value, or finds the stack empty |
| `LockFreeProgress.FailsOnlyBySwap` | Readme.md:30-31 | a compare-and-swap fails only if, since its thread last read the word, another thread's has succeeded |
| `LockFreeProgress.SomeoneSucceeds` | Readme.md:30-31 | among any 8n + 1 steps of n threads inside calls there is a compare-and-swap that succeeds |
| `LockFreeMonitor.MonitorStaysQuiet` | Readme.md:30-31 | when every thread pushes and pops in turn, the node count stays between 0 and the number of threads in every run in which no pop that succeeds swaps in a stale successor |
| `LockFreeMonitor.PopsSucceed` | Readme.md:30-31 | in those runs no pop finds the stack empty |
| `LockFreeMonitor.MonitorInLimit` | Readme.md:30-31 | the count stays in range as long as no more serial numbers are drawn than there are tag values, or on one thread |
| `LockFreeMonitor.CountNeverNegative` | Readme.md:30-31 | in every run of that program, with no condition, the count is not negative |
| `LockFreeAlarm.MonitorExactly` | Readme.md:30-31 | for every number of tag values: the count stays in range in all runs of that program, which never stops drawing numbers, if and only if there is no second thread |
| `LockFreeAlarm.AlarmGoesOff` | Readme.md:30-31 | the run, for two threads or more, that ends with one node more counted than there are threads |
| `LockFreeStackAba.SafeExactly` | Readme.md:30-31 | all runs that draw at most `k` serial numbers are right, if and only if `k` is at most the number of tag values (4 or more) or there is no second thread |
| `LockFreeStackAba.SafeInSource` | Readme.md:30-31 | with the source's 17 bits the limit is 131072 |
| `LockFreeStackAba.LosesValue` | Readme.md:30-31 | the run with one serial number more, at whose end a pushed value is lost |
| `LockFreeStackAba.WindowIsNeeded` | Readme.md:30-31 | for every number of tag values, 1 included, a run that ends with a node on top that is back in the pool |
| `LockFreePool.StackWithPool` | Readme.md:30-31 | with the pool as a second lock-free list, both are right, every node that was made is in exactly one place, and the pool hands out only nodes not in use, in every run whose pops are current |
| `LockFreePool.StackWithPoolInLimit` | Readme.md:30-31 | so for any number of threads while each of the two has drawn no more serial numbers than there are tag values |
| `LockFreePoolValues.ValuesConserved` | Readme.md:30-31 | in those runs each value has been given to Push as often as it is on the stack, on its way in some thread's call, or has been returned by a Pop |
| `LockFreePoolValues.PushCarriesItsValue` | Readme.md:30-31 | a thread in a push carries the value that its caller gave, through Alloc and into the node |
| `LockFreePoolValues.ValuesInLimit` | Readme.md:30-31 | both, as long as each counter has drawn no more serial numbers than there are tag values |
| `LockFreePoolProgress.SystemAloneReturns` | Readme.md:30-31 | from every reachable state a call, Alloc or Free included, returns after at most 15 steps of its thread alone |
| `LockFreePoolProgress.SystemFailsOnlyBySwap` | Readme.md:30-31 | a compare-and-swap of the stack or of the pool fails only because another thread's has succeeded there |
| `LockFreePoolProgress.SomeoneSucceeds` | Readme.md:30-31 | among any 15n + 1 steps of n threads inside calls there is a compare-and-swap that succeeds |
| `LockFreePoolAba.SafeWithPoolExactly` | Readme.md:30-31 | that limit is exact for any number of threads: all runs that draw at most `k` numbers from each counter keep stack, pool and the pool's promise right, if and only if `k` is at most the number of tag values (4 or more) or there is no second thread |
| `LockFreePoolAba.LosesValueWithPool` | Readme.md:30-31 | the run of two threads with one serial number more, through the real pool, at whose end a pushed value is lost |
| `LockFreePoolAba.SafeForAnyThreads` | Readme.md:30-31 | so it is the limit that holds whatever the number of threads |

## Left out

- PetersonSC.Step: the wait for `start` and the printing are not steps; a thread that has not started yet is one that is not scheduled. `cnt` is unbounded, and stays within 2N, so it cannot overflow for the source's N of 1000000.
- PetersonTSO.Step: what the compiler may do to the plain variables (hoisting the loop's loads, data-race semantics) is not modelled; every access happens once and in program order.
- RwLock.Step: the slim lock is taken as specified and modelled on values; fairness, blocking queues and `native_rw_destroy` are not modelled. A try call fails only when the lock cannot be granted.
- LockFreeStack.Step: constructors run on reuse and the 64-bit overflow of the serial counter are not modelled. Nodes live in a map, not in memory, and freed nodes stay readable, as the pool never returns memory.
- LockFreeStackAba.SafeExactly: fewer than 4 tag values; there the limit is still sufficient (FewNumbersAreRight).
- LockFreePoolAba.SafeWithPoolExactly: fewer than 4 tag values; there the limit is still sufficient (StackWithPoolInLimit).
- LockFreeAlarm.MonitorExactly: the test program on the stack's machine, with the pool as specified; how many numbers the alarm takes at least is not stated beyond MonitorInLimit.
- ProtocolBuffer.Buffer.PutData: the source also accepts a negative size, which then reaches memmove as a huge one; sizes here are lengths.
- ProtocolBuffer.Buffer.Insert: one method stands for the twelve operators, which differ in the operand type only; a float or double is its bit pattern.
- ProtocolBuffer.Buffer.constructor: a failing malloc and the destructor.
- Timespecs.GetMilliseconds: only the branch compiled with HAVE_STRUCT_TIMESPEC, as my_config.h sets it, with a 64-bit time_t.
- ScopeLog.Logger.WriteLog: timestamps, the file and the 512-byte limit of a line; a line is its level and message.
- ScopeLog.Logger.RunScopes: scopes log nothing of their own in between.
- IntervalTimer.Timer.Call: the clock reading is a parameter; the first call's initial reading is the constructor's.
- CoreCounts.GetProcessorCoreCounts: the system call and its allocation; the records are a parameter.
- `ProtocolBuffer::Full`, `Log::PrintStackTrace`, `Log::Peek` on an empty stack: single branches.
- `native_mutex_*`, `native_cond_*`: pass-throughs to the operating system. `rw_pr_lock_t`, the key cache and decimals are not part of this model.
- The red-black tree, A*, JPS, the ring buffers, the other object pools and the sector code are separate algorithms and not part of this model.
- Sockets, console, windows, PDH and database calls have no logic of their own to prove.
