# Socket-Project: verified model

A Dafny model of the stateful parts of the socket programs, with proofs of what
each of them does over whole streams and whole runs.

- **File transfer** (`Bytes`, `FileMsg`, `Sender`, `Receiver`, `Transfer`). The
  sender's single reused packet, the receiver's three packet buffers with its
  partial and sticky cases, and the unsigned size test. The receiver is proved to
  be a function of the byte stream alone, and that function is proved exactly on
  everything the sender can send: complete, followed by other bytes, or cut off at
  any byte behind the size field.
- **Thread pool** (`TaskQueue`, `ThreadPool`, `Echo`). The ring as a class, refined
  to a sequence; the exact law of pop when tasks overrun the ring; the mutex and
  condition-variable protocol as a transition system with barging and spurious
  wakeups; the line echo as a stream function.
- **Chatroom** (`Chat`, `ChatServer`, `Login`, `Forwarding`). The client's parser,
  the slot table's loops, and a transition system in which every access to the
  shared table is its own step: the login loop publishes `online` before `fd` and
  `name`, workers log out, and a forwarding thread scans meanwhile.
- **Select server** (`SelectBuffer`). The per-connection buffer class, and whole
  connections built from receives and partial sends.
- **Poll server** (`PollServer`). The slot table, the scan that stops early, proved
  equal to the full scan, and the descriptors over whole runs.
- **Configuration** (`Config`). The line scanner with its exact round-trip law.

Each program method is proved against a function of its inputs or of the old
state; the theorems are lemmas about those functions and about runs of them.

`dafny verify dfyconfig.toml` checks everything.

## Where the code does not do what one expects

- A push onto a ring with `sum - 1` waiting tasks makes all of them invisible
  (`TaskQueue.PushTasks`, `ThreadPool.OverflowStrands`); first-in first-out holds
  in a run exactly when every push finds room (`ThreadPool.FifoExactly`).
- A receiver whose connection closes early, at any byte behind the size field, still
  announces completion and writes a file of the announced length, repeating the last buffer
  (`Transfer.ClosedEarly`, with the exact condition under which that is the file;
  `Transfer.EarlyCloseCorrupts` gives a file and a cut for which it is not).
- Between `online = 1` and the name's `strcpy` two online slots can share a name
  (`Login.WindowClashes`, `Login.ClashReachable`), and a private message to the slot's
  former user goes to the user being logged in (`Forwarding.PrivateEndToEnd`,
  `Forwarding.NewcomerReceives`).
- A select-server buffer that is not flagged yet can still have something sent exactly
  when it has room for the rest of CR LF CR LF (`SelectBuffer.ProgressExactly`);
  without that room nothing more is ever sent, and one batch can lead there
  (`SelectBuffer.StuckForEver`, `SelectBuffer.StuckReachable`).
- The echo reproduces its own output exactly when no line was longer than its
  buffer (`Echo.EchoStable`); a line of 512 bytes or more comes back without its
  newline, and sending that back gives nothing (`Echo.LongLineLost`).
- `get_value` tests for `=` at the key's length from the line's start, not behind
  the place where it found the key (`Config.StoredComesBack`; the file "AB=IP", "IP=7"
  in `Config.ForeignLineCaptures`). After a last line that merely contains the key it
  returns the previous answer (`Config.AbsentIsNull`; the file "XIP=7" in
  `Config.StaleAnswer`). A last line without its newline loses the last byte of its
  value (`Config.UnterminatedLosesLast`).
- The header comment in `common/my_chatroom.h:18` calls flag 4 a request for the
  list of online users; the server answers with the fixed text "ONLINE LIST", and
  the model follows the server.

## Assumptions

- A `recv` of the file receiver gives 1 to `sizeof(struct FileMsg)` bytes, or 0 when
  the peer has closed; `fread` is short only at the end of the file; `send` and
  `fwrite` in the transfer are complete; the output file opens. `struct FileMsg` has
  its LP64 layout (4160 bytes with six of alignment), little-endian on both sides.
- `size` in the receiver stays below 2^64 (it counts bytes written); the wrapping
  subtraction `packet.size - size` is modelled.
- `pthread_cond_signal` wakes at least one waiting worker; waking more is the same as
  spurious wakeups, which are steps of their own.
- C strings are byte sequences without NUL; names and messages fit their fields.
- The slot number and the message handed to a new thread arrive by value.
- In the chatroom's transition systems every access to the shared table is one step,
  and a name counts as one access: its `strcpy` and the `strcmp`s that read it do not
  overlap. A half-copied name is not modelled.
- A system call's results are parameters. Where a method takes a list of them, the
  end of the list means that the call would block (select server) or that the peer
  has closed (file receiver, echo).
- `accept` returns a descriptor that is not open; `poll` reports nothing for a
  negative descriptor, and counts every slot it reports.

## Model

| member | source | states |
|---|---|---|
| Sender.FillHeader | transfer/Example/sender.c:53-54 | the size and the terminated name replace the start of the packet; the rest of the name field and everything behind it keep their former bytes |
| Sender.SendPacket | transfer/Example/sender.c:57-60 | what one turn puts on the wire (header, data read, what the buffer held behind a short read, alignment) and that the buffer is zero afterwards |
| Sender.SendFile | transfer/Example/sender.c:45-60 | the bytes sent for a file are the packet sequence `Wire`, for any former contents of the packet |
| FileMsg.LeRoundTrip | transfer/Example/sender.c:53 | the size field reads back as the size stored |
| Bytes.UpperRaises | server/backup/server_thread_pool.c:17-22 | raising leaves no code from 97 to 122 and changes a byte only from there, to 32 less |
| Receiver.Absorb | transfer/Example/receiver.c:34-53 | exact fit, partial and sticky branch: the packet gets the first 4160 bytes of what is held plus the chunk, the carry gets the rest and is no longer than the old offset |
| Receiver.FillPacket | transfer/Example/receiver.c:34-54 | the inner loop leaves the next whole block in `packet` and accounts for every byte taken; at end of stream it leaves the partial bytes over the old packet |
| Receiver.NextIntoPacket | transfer/Example/receiver.c:28-54 | with the carry restored, `packet` becomes the next block of the pending stream and the held bytes followed by the chunks left are the rest of it |
| Receiver.WritePacket | transfer/Example/receiver.c:55-76 | while fewer bytes are written than announced: the write takes exactly the piece due, and the packet completes the file if and only if the announced size is reached; otherwise it completes at once; the name is taken from the first packet only |
| Receiver.ChildDo | transfer/Example/receiver.c:21-82 | name, file and packet count depend only on the concatenation of the chunks, never on their boundaries, and are the stream semantics `Received` of it, also past the end of the stream |
| Transfer.RoundsAreBlocks | transfer/Example/receiver.c:28-54 | on any stream the packet of round k is the k-th block; after the last whole block it is the leftover bytes over that block, for ever |
| Transfer.FinishMixed | transfer/Example/receiver.c:64-76 | for packets announcing one common size, from any point of the file on and cut anywhere: `size` is below `packet.size` at every write, the write takes exactly the piece due, and the run ends with the file and the packet count given |
| Transfer.WireCarries | transfer/Example/sender.c:52-60 | the sender's stream, cut anywhere and followed by anything, is such a stream, and starts with the header |
| Transfer.NameRead | transfer/Example/receiver.c:56-59 | the name the receiver opens is the name stored, whatever lies behind its terminator |
| Transfer.TransferExact | transfer/Example/receiver.c:21-82 | the exact file and packet count the receiver produces for every file, every former contents of the sender's packet, every segmentation, and every cut-off point behind the size field; the exact name as soon as its terminator arrived |
| Transfer.RoundTrip | transfer/Example/receiver.c:28-78 | when all the file's packets arrive, whatever follows: exactly the file, under its name, after exactly ceil(L/4096) packets |
| Transfer.ArrivedInPlace | transfer/Example/receiver.c:64-78 | on a stream cut at any byte behind the size field, the received file has the announced length and every byte carried by a whole packet that arrived is right and in its place |
| Transfer.WireLength | transfer/Example/sender.c:52-60 | a file goes out as ceil(L/4096) packets |
| Transfer.ClosedEarly | transfer/Example/receiver.c:34-76 | closed at any byte behind the size field and before the end: the received file is the pieces of the k whole packets, then copies of the last packet's buffer as overwritten by the bytes behind it; it is the sender's file if and only if the file goes on like that; the packet count is the full one |
| Transfer.EarlyCloseCorrupts | transfer/Example/receiver.c:34-76 | 4096 zero bytes and a one, cut off 30 bytes into the second packet and received in two pieces that `recv` can return, arrive as 4097 zero bytes, complete and under the right name |
| TaskQueue.Queue.constructor | server/backup/server_thread_pool.c:50-57 | the new queue is the empty ring of `sum` cells |
| TaskQueue.Queue.Push | server/backup/server_thread_pool.c:59-69 | new ring state; the visible tasks get the new one appended, or all vanish when `sum - 1` were visible |
| TaskQueue.Queue.TryPop | server/backup/server_thread_pool.c:71-84 | succeeds if and only if a task is visible; then returns the oldest and leaves the others |
| TaskQueue.PushTasks | server/backup/server_thread_pool.c:59-69 | push as an operation on the sequence of visible tasks, with its overflow case |
| TaskQueue.PopTasks | server/backup/server_thread_pool.c:76-81 | pop takes the head of that sequence |
| TaskQueue.CountsPush | server/backup/server_thread_pool.c:59-69 | tail stays pushes mod `sum`, and the cells keep holding the last `sum` pushes |
| TaskQueue.CountsPop | server/backup/server_thread_pool.c:71-84 | without any bound: pop is enabled if and only if pushes minus pops is no multiple of `sum`, returns the last push into its cell, and head stays pops mod `sum` |
| TaskQueue.CountsTasks | server/backup/server_thread_pool.c:73-81 | the number of visible tasks is pushes minus pops mod `sum`; they are the unpopped pushes if and only if fewer than `sum` are unpopped |
| TaskQueue.TakenIsLast | server/backup/server_thread_pool.c:61-66 | the push a pop returns is the last one before it into the same cell, and is the pop's own if and only if at most `sum` were waiting |
| ThreadPool.CoveredStep | server/backup/server_thread_pool.c:59-84 | every step keeps: while some worker sleeps unsignalled, visible tasks are at most the woken workers without the mutex |
| ThreadPool.NoLostWakeup | server/backup/server_thread_pool.c:59-84 | so in every state of every run, and a visible task never meets a pool in which all workers sleep |
| ThreadPool.RunLawful | server/backup/server_thread_pool.c:59-96 | in every run without any bound: hand-off k carried the last push into cell k at its time, and happened when pushes and pops did not differ by whole turns |
| ThreadPool.EchoesItsOwnAlways | server/backup/server_thread_pool.c:76-96 | in every state of every run a worker in `do_echo` is there with the descriptor of its own last hand-off |
| ThreadPool.OneWorkerEach | server/backup/server_thread_pool.c:86-96 | with distinct descriptors and at most `sum - 1` unserved, every connection being echoed was accepted and no two workers echo on the same one |
| ThreadPool.InOrderExactly | server/backup/server_thread_pool.c:59-96 | with distinct descriptors hand-off k is push k if and only if fewer than `sum` were waiting then |
| ThreadPool.FifoExactly | server/backup/server_thread_pool.c:59-96 | accepted descriptors are those handed out followed by the visible ones, throughout a run, if and only if every push found room |
| ThreadPool.BoundedIsFifo | server/backup/server_thread_pool.c:59-96 | with at most `sum - 1` unserved throughout, hand-offs are a prefix of the pushes and no push is handed out twice |
| ThreadPool.OverflowStrands | server/backup/server_thread_pool.c:59-75 | for a ring of any size and any number of workers: a run in which as many pushes as the ring has cells leave all accepted descriptors unserved, nothing visible, and every worker asleep |
| Echo.DoEcho | server/backup/server_thread_pool.c:24-40 | the bytes sent are the complete lines, each clipped to 512 bytes with its newline and raised; the unterminated rest is never sent; no code from 97 to 122 goes out, and when every line fits, the input up to its last newline comes back, only raised |
| Echo.ReplyConcat | server/backup/server_thread_pool.c:27-39 | whole lines are echoed independently of what follows |
| Echo.EchoStable | server/backup/server_thread_pool.c:24-40 | feeding the output back reproduces it if and only if every complete line fits the buffer |
| Echo.LongLineLost | server/backup/server_thread_pool.c:24-40 | a line of at least 512 bytes comes back as its first 512, raised and without newline, and those come back as nothing |
| Chat.Composer.ClientSend | chatroom/client/my_client.c:31-57 | the message sent for a typed line, and that `to` and `message` are cleared afterwards |
| Chat.ComposePrivate | chatroom/client/my_client.c:35-45 | the line `@n m` becomes a private message to n with body m |
| Chat.ComposeInverse | chatroom/client/my_client.c:35-54 | a private message determines the line it came from; every other line is passed on whole, `#` lines as list requests |
| ChatServer.Server.FindSub | chatroom/server/my_server.c:100-105 | the first free slot, or -1 exactly when all are online |
| ChatServer.Server.CheckOnline | chatroom/server/my_server.c:107-115 | true if and only if some online slot has the name |
| ChatServer.Server.Login | chatroom/server/my_server.c:128-157 | a name that is online is refused and changes nothing, whether or not a slot is free; otherwise exactly the first free slot is taken; online names stay different |
| ChatServer.Server.Logout | chatroom/server/my_server.c:75-78 | only the slot's online mark changes; online names stay different |
| ChatServer.Server.MsgForward | chatroom/server/my_server.c:26-57 | flag by flag: private messages to the first slot online under the recipient's name; list requests answered with "ONLINE LIST" as a notice to the first slot online under the author's; public messages and notices to every online slot with another name, in slot order, once each; nothing for any other flag |
| ChatServer.DeliversUnique | chatroom/server/my_server.c:26-57 | that description determines the copies sent completely |
| Login.InvMain | chatroom/server/my_server.c:128-157 | every step of the login loop keeps unique published names, the truth of what its scans found, one worker per online slot, and that no slot below a published one carries its name, not even as a leftover |
| Login.UniqueAlways | chatroom/server/my_server.c:117-158 | in every interleaving of logins and logouts all of this holds; so no two fully published online slots share a name |
| Login.UniqueOutsideWindow | chatroom/server/my_server.c:152-157 | outside the window between `online = 1` and the name no exception is needed |
| Login.WindowClashes | chatroom/server/my_server.c:153-155 | at every moment inside it, all online names differ if and only if no other online slot has the half-published slot's leftover name |
| Login.ClashReachable | chatroom/server/my_server.c:128-155 | for every table of two or more slots and any names with the middle one different from the others: a run that reaches such a clash |
| Login.LoginUndisturbed | chatroom/server/my_server.c:128-157 | without interference the steps do what `Server.Login` does |
| Forwarding.OrderedAlways | chatroom/server/my_server.c:26-57 | in any interleaving and for every flag: copies go out in increasing slot order, so no slot index receives two |
| Forwarding.BroadcastOnce | chatroom/server/my_server.c:38-44 | in any interleaving: a slot that stays as it is, online, gets one copy if and only if its name is not the sender's |
| Forwarding.PrivateOnce | chatroom/server/my_server.c:28-37 | in any interleaving: the published slot online under the recipient's name throughout gets the one copy and nobody else does, whatever names half-published slots carry |
| Forwarding.PrivateToNobody | chatroom/server/my_server.c:28-37 | in any interleaving: nothing is sent while no slot is online under the recipient's name |
| Forwarding.ListOnce | chatroom/server/my_server.c:45-53 | in any interleaving: the slot published under the author's name throughout gets one notice "ONLINE LIST" and nobody else gets anything |
| Forwarding.ListToNobody | chatroom/server/my_server.c:45-53 | in any interleaving: no answer while no slot is online under the author's name |
| Forwarding.StillRun | chatroom/server/my_server.c:26-57 | while the table stands still, the stepwise scan sends what the loop sends |
| Forwarding.PrivateEndToEnd | chatroom/client/my_client.c:31-58 | from typed line to recipient, on every reachable table: exactly one message with that body to the published slot online under the name; if there is none, nothing is sent, unless the slot being logged in still carries the name from a former user: then that slot gets the one message, and once its descriptor is written that is the new user's |
| Forwarding.ListEndToEnd | chatroom/client/my_client.c:47-49 | a typed line that starts with `#` is answered to the user who typed it, on every reachable table and with the same exception for a slot being logged in |
| Forwarding.NewcomerReceives | chatroom/server/my_server.c:152-155 | for every table: a reachable state in which a message typed for a user who has logged out goes to the connection of the user being logged in under another name, and only there |
| SelectBuffer.Buffer.constructor | server/backup/server_select_io_multiplexing.c:32-39 | a new buffer is empty and unflagged, with descriptor -1 |
| SelectBuffer.Buffer.Copy | server/backup/server_select_io_multiplexing.c:53-57 | as much of the batch as fits is appended, raised; what was stored before stays, and copying stops only at the end of the batch or of the buffer |
| SelectBuffer.Buffer.Store | server/backup/server_select_io_multiplexing.c:49-64 | one batch received: contents, and the flag raised exactly if it was or the text now ends in CR LF CR LF |
| SelectBuffer.Buffer.RecvToBuffer | server/backup/server_select_io_multiplexing.c:46-75 | buffer and return value after any results of `recv` |
| SelectBuffer.Buffer.SendFromBuffer | server/backup/server_select_io_multiplexing.c:77-94 | bytes sent, buffer and return value after any results of `send`; an emptied buffer is reset |
| SelectBuffer.Buffer.Turn | server/backup/server_select_io_multiplexing.c:162-177 | a turn receives if readable; if the connection is still there and in the write set, as many pending bytes as the socket has room for go out, and a buffer that becomes empty is fresh; 1 when the peer closed, -1 after a failure, else 0; the descriptor is dropped on nonzero |
| SelectBuffer.TurnSends | server/backup/server_select_io_multiplexing.c:77-94 | such a turn sends something whenever bytes are pending and the first `send` takes some, and everything, leaving a fresh buffer, when the socket has room for everything |
| SelectBuffer.RecvCodeMeans | server/backup/server_select_io_multiplexing.c:46-75 | the receive loop returns 0 when the socket would block, 1 when the peer closed and -1 on any other failure |
| SelectBuffer.TurnRuns | server/backup/server_select_io_multiplexing.c:127-177 | such turns extend the connection's run by enabled receives and sends: what they received is added to the bytes received, what they sent to the bytes sent |
| SelectBuffer.SessionSound | server/backup/server_select_io_multiplexing.c:127-177 | any sequence of turns from a fresh buffer on, up to and including the first that returns nonzero, is a run with exactly the bytes it received and sent; so bytes sent then bytes pending are a subsequence of the raised bytes received |
| SelectBuffer.RunSound | server/backup/server_select_io_multiplexing.c:46-94 | in every run: index bounds, sending only on a flagged buffer, a flag only on a text with CR LF CR LF in it, an emptied buffer is a fresh one; bytes sent then bytes pending are the bytes accepted; those are a subsequence of the raised bytes received |
| SelectBuffer.NothingDropped | server/backup/server_select_io_multiplexing.c:53-57 | everything received is accepted if and only if every batch fitted |
| SelectBuffer.SmallCyclesLoseNothing | server/backup/server_select_io_multiplexing.c:46-94 | when no cycle from one empty buffer to the next receives more than 4096 bytes, bytes sent then bytes pending are exactly the raised bytes received |
| SelectBuffer.BlockBeforeSending | server/backup/server_select_io_multiplexing.c:58-64 | nothing is sent, and no flag is up, unless some batch left the text ending in CR LF CR LF |
| SelectBuffer.ProgressExactly | server/backup/server_select_io_multiplexing.c:46-94 | an unflagged connection has some continuation in which something more is sent if and only if its buffer has room for the bytes of CR LF CR LF still missing |
| SelectBuffer.SessionProgress | server/backup/server_select_io_multiplexing.c:127-177 | the same for the program's turns: further turns can send something if and only if that room is left |
| SelectBuffer.StuckForEver | server/backup/server_select_io_multiplexing.c:53-64 | without that room nothing is sent in any continuation, and the room never comes back |
| SelectBuffer.StuckReachable | server/backup/server_select_io_multiplexing.c:53-64 | one batch of 4093, 4094, 4095 or 4096 zero bytes leads there |
| PollServer.Server.constructor | server/server.c:36-43 | listener in slot 0, all other slots free |
| PollServer.Server.Allocate | server/server.c:59-71 | the first free slot from 1 on gets the descriptor and nothing else changes; full, with the table unchanged, exactly if there is none |
| PollServer.RaiseText | server/server.c:80-82 | the in-place loop raises exactly the text before the first NUL, although it looks for that NUL at every turn |
| PollServer.Answer | server/server.c:77-83 | the reply to one read is its text up to the first NUL, with every lower-case letter raised and nothing else changed |
| PollServer.Server.ScanConnections | server/server.c:73-91 | the scan that stops when its countdown is used up does exactly what the full scan does, in the same order: one action for each reported open slot, on the descriptor in that slot, either the raised text back or a close that frees the slot |
| PollServer.Server.HandleWake | server/server.c:46-91 | table, actions and refused descriptor after a wake-up are those of the round without shortcuts, for every `retval` that counts the reports; the descriptor accepted is in the first free slot or refused, and every reported slot got its one action |
| PollServer.ScanHandles | server/server.c:73-90 | the full scan makes exactly one action for each reported open slot, in slot order, with the descriptor the slot held; slots with nothing to read become free and nothing else changes |
| PollServer.RoundHandles | server/server.c:52-90 | so does a whole wake-up, on the table after the accept; a failed accept does nothing |
| PollServer.NothingReady | server/server.c:73-90 | with no report left at later slots, the rest of the full scan does nothing |
| PollServer.ReadyUnchanged | server/server.c:59-66 | a slot just filled was not reported, so filling it changes no count |
| PollServer.ScanConserves | server/server.c:73-87 | the scan closes exactly the descriptors that leave the table |
| PollServer.DescriptorsBalanced | server/server.c:45-92 | in every run: listener in slot 0, open descriptors in different slots, and every descriptor accepted as often as closed, plus one while it is in a slot |
| Config.Lookups.GetValue | common/common.c:12-44 | the answer is that of the first capturing line, the previous answer if the last line only contains the key, else NULL; the buffer holds the answer, and keeps the previous one after NULL; for any text, terminated or not |
| Config.StrstrFirst | common/common.c:28 | the search finds the first place in the line where the key stands before any NUL, if and only if there is one |
| Config.ValueInMeans | common/common.c:32-33 | the answer is what stands behind the key and one more character, up to the first NUL, the end of the line, or the length subtracted |
| Config.RenderSplit | common/common.c:27 | the rendered file splits into its rendered lines |
| Config.StoredComesBack | common/common.c:27-37 | looking up a stored key answers from the first capturing line, which is its own, with its value, if and only if no earlier line captures the key |
| Config.AbsentIsNull | common/common.c:27-43 | NULL if and only if no line captures the key and the last line does not contain it |
| Config.CleanRoundTrip | common/common.c:27-43 | with different keys that occur only in their own lines, present keys give their values and absent ones NULL |
| Config.TerminatedAnswers | common/common.c:27-34 | in a file whose lines all end in a newline, a key without newline never makes the copy read or count outside its line |
| Config.ForeignLineCaptures | common/common.c:28-34 | with "AB=IP" before "IP=7", looking up "IP" gives the empty string |
| Config.StaleAnswer | common/common.c:28-43 | with only "XIP=7", looking up "IP" gives the previous answer |
| Config.UnterminatedLosesLast | common/common.c:27-35 | a value on a last line without newline comes back without its last byte; if it is empty the length wraps around |

## Left out

- Receiver.ChildDo: a `recv` that returns -1 is not modelled; the source then copies with a huge length.
- Receiver.ChildDo: a `fopen` that fails is not modelled; the source then closes a null file.
- Sender.SendFile: the command loop around it, and several files on one connection beyond "bytes that follow".
- TaskQueue.Queue.TryPop: the loop around `pthread_cond_wait` is in the transition system, where each pass is a step.
- ThreadPool.NoLostWakeup: fairness and termination of echoes; it says what states can be reached, not that workers are scheduled.
- Chat.Composer.ClientSend: a recipient longer than 19 bytes and a line longer than 511, which overrun fields in the source.
- ChatServer.Server.Login: accepting a user on a full table, where the source uses slot -1.
- Login.UniqueAlways: `close`, the login and logout notices and thread creation; they do not touch the table.
- Forwarding.BroadcastOnce: failures of `chat_send`, which the source ignores.
- SelectBuffer.Buffer.Turn: filling the descriptor sets, `max_fd`, and accepting; a reused descriptor starts with the old buffer in the source, while runs here start from a fresh one.
- SelectBuffer.Buffer.Store: with three bytes stored the source reads one byte before the array; the model asks for four.
- PollServer.Answer: a full 512-byte read without NUL, whose length the source takes past its buffer; the model raises and returns those 512 bytes.
- Config.Lookups.GetValue: missing files, and answering lines for which the source leaves its memory: a value over 49 bytes, the key at the very end of the text, or a last line "KEY=" without newline.
- Transfer.TransferExact: streams cut before the size field is complete, where the size tested is memory the source never initialised.
- Socket setup, connecting with a timeout, blocking-mode toggles, UDP programs and terminal output: system calls without an algorithm.
- `chatroom/server/server.c`, `transfer/transfer_*.c`, `sem/server.c` and the other servers under `server/backup/`: earlier or weaker versions of the programs modelled.
