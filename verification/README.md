# A model of the mysh shell and its chat system

The shell reads a line, lexes it, expands variables, and runs built-ins, pipelines and background jobs; three of its
built-ins are the two ends of a CRLF chat protocol. This project models the parts of it that carry state or arithmetic
and proves what they promise.

| modules | what they model |
|---|---|
| `Text`, `Framing`, `Socket` | C strings; CRLF frames; the bounded receive buffer with its in-place compaction, and the write loop |
| `Chat`, `ChatServer` | the server as steps on values, and the code over the linked list, the buffers and the counters, which computes those steps |
| `ChatInvariant`, `ChatSteps`, `ChatTheorems`, `ChatRounds`, `ChatWalk` | what every step keeps, what holds after every run, and why walking the list while nodes are removed skips and repeats nobody |
| `ChatWire`, `ChatFailures` | what a client decodes from the bytes that left, when writes may stop halfway; exactly when a run goes wrong, and a run for each way |
| `StartClient`, `RoundTrip` | what `start-client` and `send` put on the wire, what they show, and the way from one keyboard to another screen |
| `Jobs`, `JobRuns`, `JobDone`, `JobDisplay` | the background-job table in its arrays, its life over all orders of launch, kill, exit and reap, exactly when a job is reported done twice, and what a display and `ps` print |
| `PipelineParse`, `PipelineRun` | cutting a token list into commands; parent, children and pipes as a transition system under every interleaving |
| `Variables`, `Expander` | the list-backed variable store; the one-pass expander over its 128-byte buffer |
| `Strtok`, `Lexer`, `ShellLine` | `strtok()` in place; padding and tokenizing a line; expansion of the tokens and the commands of a line |
| `Paths`, `Listing` | the rewriting of `...` and `....` by `cd`; the recursive directory listing |

Code that changes things in place is modelled in place: classes for the server, its client nodes, the job table, the
variable store and the `strtok()` scanner, arrays for the buffers. Each such method is proved to compute a function of
the old state; what the program promises is proved about those functions.

## How the environment enters

`read()`, `write()`, `accept()`, `select()`, `waitpid()` and `kill()` are parameters, constrained only as the system
calls are: a read delivers between 1 and the requested number of bytes, or end of file, or an error; a write may be
partial or fail; an accepted descriptor is one nobody holds; `select()` reports only descriptors it was given; pids are
fresh, and no process is waited for twice. The theorems quantify over all such behaviours and over all cuts of a stream
into reads.

## Where the code does less than one would like

Each of these is stated with the exact condition under which the code does meet the property.

- A full receive buffer makes `read()` ask for 0 bytes, so the connection is taken for closed, although the comment at
  src/chat_helpers.c:31 promises an error for overlong messages. Bytes are lost if and only if a frame of the stream
  is longer than the 1128 usable bytes, whatever the reads (`Socket.ClosedIffFits`). No frame that the server,
  `start-client` or `send` emits is; only what failed writes left in front of one can make it so
  (`ChatTheorems.FrameSizeClosure`).
- The fan-out of a message may unlink the sender itself, whose node the outer loop then goes on using. The state
  records this as `freed`; a run comes to it if and only if some relay's write to its own sender breaks
  (`ChatFailures.RunFreedIff`; `ChatFailures.FreedRun` is such a run). The run theorems are about runs in which it
  does not happen.
- Clients removed during a fan-out are not subtracted from `client_connected`; the counter is the length of the list
  if and only if there was no such removal (`ChatTheorems.ServerStateInvariant`; `ChatFailures.DroppedRun` has one).
- A write that fails with an error other than a broken connection leaves the client in the list, one message short,
  and the answer to `\connected` may fail unnoticed with any error (src/server.c:210). Bytes of such a write that had
  left stay on the connection, in front of the next frame. A client decodes exactly the texts of the completed writes
  if and only if no write that failed halfway is followed by a completed one (`ChatWire.DecodesIff`). It decodes from
  its relays exactly its segment of the log if and only if no relay failed without ending the connection and none came
  behind a write that failed halfway (`ChatTheorems.TotalOrderBroadcast`). `ChatFailures.LostRun` and
  `ChatFailures.GluedRun` are runs in which these fail; in the second no relay is lost, and a client named `client1`
  shows as `1client1`.
- The update test of the variable store compares a prefix only. An assignment is a map update if and only if no stored
  key strictly extends the assigned one, and a history of assignments denotes a map throughout if and only if no name
  comes after a strict extension of it (`Variables.SetIsUpdateIff`, `Variables.HistoryRefinesIff`).
- The expander subtracts whole lengths from an unsigned counter, and does not check the length of a name. It writes
  past its output buffer if and only if some piece crosses the end of it and something non-empty follows
  (`Expander.OverflowsIff`; `Expander.OverflowExample` is a store and a token), and past the one for names if and only
  if it reaches a segment of 128 bytes or more; `Expander.ExpandVariables` returns both together. The tokens the main
  loop expands never do the latter (`Expander.ShellTokensFit`), but an expanded token of 128 bytes without '$' does so
  in `echo`: the second expansion is safe if and only if the token is shorter or holds a '$'
  (`ShellLine.EchoSeesOneExpansion`).
- A process is reported done a second time if and only if some kill of it succeeds while its job is already done and a
  display follows (`JobDone.SecondLineIff`; `JobRuns.KilledTwiceIsDoneTwice` is such a run), so one that is killed at
  most once gets at most one Done line (`JobRuns.DoneAtMostOnce`).
- `start-client` comes to the end of its input if and only if the input ends with a newline
  (`StartClient.InputEndsIff`).
- The padded line and the rewritten path must fit their buffers; the methods return the exact condition
  (`Lexer.LexLine`, `Paths.Rebuild`, `Paths.ArrivesWholeIff`).

## Model

| member | source | states |
|---|---|---|
| Text.CStrIff | src/server.c:200-224 | a C string is the one NUL-free prefix that ends the bytes or has a NUL behind it |
| Text.TakeIs | src/server.c:220-222 | strncat() appends a prefix, the whole string or exactly as many bytes as allowed |
| Text.DecimalIff | src/server.c:203-203 | %d prints the one numeral without superfluous zeros that denotes the number, behind a minus sign if it is negative |
| Socket.FindNetworkNewline | src/socket.c:130-139 | one past the first CRLF in the buffer, or -1 |
| Socket.ReadFromSocket | src/socket.c:65-92 | appends the bytes read, never beyond byte 1128, and reports complete, partial, closed or error exactly |
| Socket.GetMessage | src/socket.c:94-121 | takes the first complete message out and moves exactly the bytes behind its terminator to the front |
| Socket.ReadAndDrain | src/server.c:180-198 | one read and the drain loop yield all complete messages of buffer and bytes, and leave the unterminated rest |
| Socket.ReceiveOnce | src/socket.c:65-121 | the loop over the real buffer makes the step of the connection that the stream theorems speak of |
| Socket.Receive | src/socket.c:65-121 | any sequence of such turns computes that connection's messages and pending bytes |
| Socket.ChunkingIndependence | src/socket.c:65-139 | however a stream is cut into reads, the messages so far are the complete frames of what was read, and the buffer is exactly the unterminated, CRLF-free tail |
| Socket.ClosedIffFits | src/socket.c:69-84 | a connection reported closed lost bytes if and only if some frame of the stream is overlong, independently of the reads |
| Socket.ReadsClose | src/socket.c:69-74 | every long enough run of reads comes to the close report |
| Socket.WriteToSocket | src/socket.c:141-159 | partial writes resume where they stopped: all bytes leave, and 0 is returned, if and only if some number of write()s that take something each take them between them; otherwise exactly the bytes taken before the first that took nothing; if every write() takes a byte nothing is lost |
| Socket.AcceptedIff | src/socket.c:146-157 | the same about the number of bytes accepted |
| Chat.OutcomeIff | src/chat_helpers.c:41-60 | a frame completes under exactly that condition; otherwise the error decides between a lost write and a broken connection, and what left is what was taken before it |
| Chat.TakingCompletes | src/chat_helpers.c:41-60 | if each write() takes at least one byte, the frame leaves whole |
| Chat.AsksCountIff | src/server.c:200-200 | a message is the request exactly if it is the ten bytes `\connected`, or continues behind them with a NUL |
| Framing.DecodeEncode | src/socket.c:94-139 | decoding the frames of CRLF-free messages gives back those messages and the trailing partial one |
| Framing.EncodeDecode | src/socket.c:94-139 | re-encoding what was decoded gives back the byte stream |
| Framing.DecodeAppend | src/socket.c:65-121 | decoding is incremental: only the unterminated tail matters for what follows |
| ChatServer.Client.constructor | src/server.c:73-79 | a new node: no name, empty buffer, no successor |
| ChatServer.Server.constructor | src/server.c:108-136 | the server starts with the listening descriptor only |
| ChatServer.Server.Append | src/server.c:57-86 | the walk to the last node hangs the new one behind it: the list is the old one and the new node |
| ChatServer.Server.AcceptConnection | src/server.c:50-91 | accepting adds the client last, counts it and registers its descriptor; the older nodes stay as they are |
| ChatServer.Server.RemoveClient | src/chat_helpers.c:67-100 | unlinking takes out exactly this node and returns its successor |
| ChatServer.Server.WriteBufToClient | src/chat_helpers.c:41-60 | text and terminator are one frame; exactly the bytes write() takes of it before it fails are added to what left on this connection, and the result is 0 just if that is the whole frame, else 2 or 1 by errno |
| ChatServer.Server.WriteTo | src/chat_helpers.c:41-60 | the write enters the history of this client with the bytes that left; the other nodes stay |
| ChatServer.Server.Drop | src/server.c:242-247 | a broken recipient leaves the list and the descriptor set |
| ChatServer.Server.Fanout | src/server.c:226-255 | everybody in list order is written to once, also while nodes are removed; exactly the broken ones are gone, and each that stays was sent exactly the bytes its writes took |
| ChatServer.Server.Broadcast | src/server.c:217-255 | relaying a message makes the step Chat.Relay of the server's value and keeps the sender in the list |
| ChatServer.Server.SendCount | src/server.c:200-214 | `\connected` is answered with the counter to the asking client only; if the write fails, what left of the answer is on its connection |
| ChatServer.Server.NextMessage | src/server.c:198-198 | the next complete message leaves the client's buffer, no other node changes |
| ChatServer.Server.DrainClient | src/server.c:196-261 | handles every complete message in the client's buffer, in order, although each relay may change the list |
| ChatServer.Server.ReadFromClient | src/chat_helpers.c:36-39 | one read into this client's buffer and no other |
| ChatServer.Server.SetUsername | src/chat_helpers.c:12-26 | the client gets the name made from the next id |
| ChatServer.Server.FillClient | src/server.c:180-194 | one read; a name is given with the first complete message, and only once |
| ChatServer.Server.CloseClient | src/server.c:263-271 | descriptor, counter and list lose exactly this client |
| ChatServer.Server.ServeClient | src/server.c:172-275 | one turn of the client loop makes the step Chat.Serve, and the next pointer stands behind the served client in the list as it is then |
| ChatServer.Server.ServeClients | src/server.c:172-275 | the walk over the changing list computes the turns of all clients that were there when it began, and ends |
| ChatServer.Server.SelectRound | src/server.c:138-276 | one select round keeps the whole invariant and computes Chat.RunRound |
| ChatServer.RunServer | src/server.c:108-280 | the heap program computes Chat.Run over any number of rounds |
| ChatWalk.SkipAbsent | src/server.c:172-275 | clients removed before their turn make no difference to a round |
| ChatWalk.Resume | src/server.c:269-273 | going on from the next pointer comes to the same as going on through the snapshot taken at the start |
| ChatRounds.RoundReadsOnce | src/server.c:172-275 | in a round sockets are read in accept order, none twice; a ready client is read unless it was removed before its turn; survivors received exactly their one read |
| ChatRounds.NewcomerHearsRound | src/server.c:155-172 | a connection is accepted before anybody is read, so a newcomer is sent all that is relayed in its first round |
| ChatRounds.TurnEndsIff | src/server.c:180-275 | a turn removes and uncounts the client if and only if its read reports end of file or an error, or its buffer was full |
| ChatSteps.RelayKeeps | src/server.c:217-255 | a relay keeps the invariant, the sender's remaining messages still owed |
| ChatSteps.ServeKeeps | src/server.c:172-275 | every turn of a client keeps the invariant |
| ChatSteps.AcceptKeeps | src/server.c:155-165 | every accept keeps the invariant |
| ChatSteps.RunKeeps | src/server.c:138-276 | every run keeps the invariant |
| ChatTheorems.ServerStateInvariant | src/server.c:155-271 | after any run: list in accept order, distinct descriptors, the set is the listening one plus exactly the listed ones, max_fd bounds it, counter is list length plus broadcast-time removals |
| ChatTheorems.MaxFdIs | src/server.c:161-164 | the bound of select() is the greatest descriptor ever listened on or accepted |
| ChatTheorems.TotalOrderBroadcast | src/server.c:198-261 | every client was sent one contiguous segment of one log, accept to removal; what it decodes from the bytes that left are the arrivals, and those that end a relay are exactly that segment if and only if no relay failed without ending the connection and none came behind a write that failed halfway |
| ChatTheorems.ClientsAgree | src/server.c:226-255 | two clients under that condition decoded the shared part of the log identically |
| ChatTheorems.SenderFifo | src/server.c:198-261 | the log holds exactly a client's complete messages but the `\connected` requests, in its order; the rest is still in its buffer |
| ChatTheorems.MessageHandled | src/server.c:196-261 | a request adds nothing to the log and one answer to the asker; any other message adds exactly one entry, its own |
| ChatTheorems.RelayReaches | src/server.c:226-255 | a relay is written once to every listed client, the sender included; each stays, with exactly the bytes its writes took, unless the write to it broke the connection; the counter does not change |
| ChatTheorems.NamedIff | src/server.c:187-194 | a client has a name if and only if a complete message of it has arrived |
| ChatTheorems.NamesUnique | src/chat_helpers.c:12-26 | two clients never share a name |
| ChatTheorems.FrameSizeClosure | src/server.c:203-229 | every text is CRLF-free and fits 1128 bytes as a frame; the peer decodes exactly the completed texts if and only if no write that failed halfway precedes a completed one, and its buffer never fills if and only if no arrival, with the remains in front of it, is too long; if nothing failed both hold |
| ChatTheorems.CountAnswered | src/server.c:200-213 | a client that asks is told the length of the list plus the number of broadcast-time removals, and nobody else is written to |
| ChatTheorems.FreedIff | src/server.c:239-251 | a sender's node is freed during its own relay if and only if the write to its own socket breaks |
| ChatWire.WireDecodes | src/chat_helpers.c:41-60 | from the bytes that left, the peer decodes one message per completed write, each with the remains of failed writes in front of it, and its buffer holds the remains behind the last |
| ChatWire.DecodesIff | src/chat_helpers.c:41-60 | those are the texts of the completed writes if and only if no write that failed halfway is followed by a completed one |
| ChatWire.HeardSurvived | src/server.c:229-251 | the messages that end relays are the relayed texts, but for a last one that broke the connection, if and only if none was lost and none came behind a write that failed halfway |
| ChatWire.FitsIff | src/socket.c:69-84 | the stream fits the peer's buffer if and only if no arrival and no remainder is too long for it |
| ChatFailures.RunFreedIff | src/server.c:226-255 | a run frees a sender under its own relay if and only if some relay's write to its own sender breaks |
| ChatFailures.FreedRun | src/server.c:239-251 | a run that does |
| ChatFailures.LostRun | src/server.c:229-254 | a good run in which a client stays and missed a relay |
| ChatFailures.GluedRun | src/server.c:210-210 | a good run without a lost relay in which a client decodes a message nobody sent |
| ChatFailures.DroppedRun | src/server.c:239-251 | a good run after which the counter exceeds the length of the list |
| StartClient.PiecesOfLine | src/builtins.c:859-885 | the pieces of a line concatenate to the line; only the last may be short |
| StartClient.PiecesOfLines | src/builtins.c:855-891 | the pieces of a text are those of its lines, in order and none left out |
| StartClient.LinesOf | src/builtins.c:855-891 | every text that ends with a newline has such lines |
| StartClient.Fgets | src/builtins.c:859-859 | the bytes through the first newline, or as many as the buffer takes |
| StartClient.TypeOne | src/builtins.c:859-887 | one turn sends one frame and puts back a byte that did not end the line |
| StartClient.TypeStepPieces | src/builtins.c:859-887 | each turn sends the next piece of the declarative cutting and consumes exactly it |
| StartClient.InputEndsIff | src/builtins.c:875-885 | the input loop ends if and only if the input ends with a newline |
| StartClient.SendTyped | src/builtins.c:855-891 | the wire carries one frame per piece, all lines in order |
| StartClient.SendMessage | src/builtins.c:737-759 | `send` emits the first 1024 bytes of its tokens with single blanks in between, and CRLF; if nothing was cut off, the message cut at its blanks is the tokens |
| StartClient.JoinedAppend | src/builtins.c:740-752 | between any two tokens there is one blank, and nothing else is added |
| StartClient.JoinedWords | src/builtins.c:740-752 | cut at the blanks the joined tokens are the tokens, and there is one blank less than there are tokens |
| StartClient.SendIsOneFrame | src/builtins.c:737-759 | that is exactly one frame for the receiver, and it fits |
| StartClient.ReceiveShown | src/builtins.c:894-920 | every complete message is displayed: split at its first space as `name: text`, or as it is if it has none |
| StartClient.ShowIs | src/builtins.c:904-917 | a message without a space is shown as it is; one with a space is cut in two at the first |
| StartClient.ScreenFits | src/builtins.c:911-912 | the displayed line fits the buffer it is made in, for every message a receive buffer can hold |
| RoundTrip.TypedArrives | src/builtins.c:855-891 | what was typed arrives piece by piece at the server, however the stream is cut |
| RoundTrip.RelayIsShown | src/server.c:217-229 | a relayed frame is shown as sender's name and message |
| RoundTrip.CountIsRaw | src/server.c:200-214 | the answer to `\connected` is displayed as it is, and never taken for somebody's message |
| RoundTrip.AnswerIsDisplayed | src/builtins.c:904-917 | an asker whose answer arrives behind a clean stream sees the length of the list plus the broadcast-time removals as the next thing on its screen |
| RoundTrip.SaidToPeer | src/server.c:217-255 | if no relay to the viewer failed and none came behind a write that failed halfway, what the viewer decodes shows under a client's name exactly what that client had relayed since the viewer came, whatever became of answers to `\connected` |
| RoundTrip.EndToEnd | src/builtins.c:855-920 | after any good run, a viewer under that condition, whose buffer the stream fits, shows under the typist's name exactly the typed pieces but the `\connected` requests, in order, for every cutting of the bytes that left |
| RoundTrip.NothingFailed | src/chat_helpers.c:41-60 | a viewer whose writes all completed is under that condition, and the stream fits its buffer |
| Jobs.JobTable.Initialize | src/commands.c:382-386 | all slots become empty |
| Jobs.JobTable.FindNewSpot | src/commands.c:390-397 | the first empty slot, which is the one behind the used prefix, or -1 |
| Jobs.JobTable.AddProcess | src/commands.c:309-320 | the job goes to the next slot with the next number; the others stay |
| Jobs.JobTable.MarkKilled | src/builtins.c:657-662 | a kill with a signal other than 2 marks the first slot with that pid |
| Jobs.JobTable.ReapOne | src/commands.c:332-349 | one waitpid() answer finishes and shows exactly the running slots with that pid |
| Jobs.JobTable.SweepKilled | src/commands.c:350-361 | every slot marked as killed is finished and shown, in slot order |
| Jobs.JobTable.AllTerminated | src/commands.c:363-372 | whether no slot has status 0 |
| Jobs.JobTable.DisplayDone | src/commands.c:323-379 | reaps, sweeps, and empties the table if nothing runs; shows exactly the corresponding lines |
| Jobs.JobTable.FirstWord | src/builtins.c:596-599 | the first word of a command, or the command if it has none |
| Jobs.JobTable.Ps | src/builtins.c:590-612 | prints, for the slots marked as running in slot order, the first word of the command and the pid |
| JobRuns.JobTableInvariant | src/commands.c:309-397 | after any run used slots are a prefix, slot i has number i + 1, status 0 means running, 2 means not, and a launch takes the next number |
| JobDisplay.LaunchAndKillAre | src/commands.c:309-320 | a launch fills the next of 1000 slots with pid, number, the first 127 bytes of the command and status 0; a signal other than 2 gives the first slot with its pid status 3 |
| JobDisplay.DisplayIs | src/commands.c:323-379 | a display empties the table if and only if no job goes on running; otherwise exactly the killed and the waited-for running jobs become done and all others stay |
| JobDisplay.NumberingRestarts | src/commands.c:363-376 | at any point of any run, after a display that leaves nothing running the next job is number 1 in slot 0 |
| JobDisplay.DoneLineTells | src/commands.c:341-358 | every Done line of every run carries the number and the command its process was launched with |
| JobDisplay.DisplayOrder | src/commands.c:332-361 | a display first reports the processes waited for, in that order, then the killed jobs by number |
| JobDisplay.ListedIs | src/builtins.c:593-610 | ps lists exactly the jobs marked as running, each once, by number |
| JobDisplay.PsLineReads | src/builtins.c:596-602 | cut at its blanks, a line of ps is the first word of the command and the pid |
| JobRuns.RunningJobStays | src/commands.c:309-397 | from any point of any run on, a running job that is neither killed nor reaped keeps slot and number to the end, and new jobs meanwhile get consecutive numbers |
| JobRuns.DisplayKeepsRunning | src/commands.c:350-376 | a running job keeps slot and number through a display, so numbering restarts only when nothing runs |
| JobRuns.DisplayLeavesNoKilled | src/commands.c:350-361 | after a display no slot has status 3 |
| JobRuns.PsAfterDisplay | src/mysh.c:114-114 | the ps after a display lists exactly the slots with status 0 |
| JobRuns.DoneAtMostOnce | src/commands.c:332-361 | in every order of kill, exit and reap, at most max(1, kills) Done lines for a pid |
| JobDone.DisplayCount | src/commands.c:332-361 | a display shows one line for a process just if its slot is marked as killed, or it is waited for while its job counts as running |
| JobDone.SecondLineIff | src/commands.c:332-361 | over every run, a process gets a second Done line if and only if some kill of it succeeds while its job is already done and a display follows |
| JobRuns.KilledTwiceIsDoneTwice | src/commands.c:350-361 | a run in which that happens |
| PipelineParse.JoinOfSplit | src/commands.c:70-103 | joining the commands with bars gives the token list; no command holds a bar |
| PipelineParse.SplitOfJoin | src/commands.c:70-103 | bar-free commands come back from their joined token list |
| PipelineParse.WellFormedIff | src/commands.c:219-224 | no bar leads, trails or follows a bar if and only if all commands are non-empty |
| PipelineParse.RowCount | src/commands.c:201-217 | while no bars are adjacent there is one command more than counted bars, so the matrix has a row for each |
| PipelineParse.CountPipes | src/commands.c:197-217 | counts the bars that do not follow a bar |
| PipelineParse.FillCommands | src/commands.c:58-103 | accepts exactly the well-formed lists and fills each row with its command and NULL; no index leaves the matrix on any input |
| PipelineParse.ParseCommand | src/commands.c:196-226 | a simple command, a syntax error, or exactly the commands between the bars |
| PipelineRun.ForkKeeps | src/commands.c:117-118 | a fork keeps the invariant: the child inherits both ends of every pipe |
| PipelineRun.WireKeeps | src/commands.c:127-144 | every dup2() and close() of a child keeps it |
| PipelineRun.EofKeeps | src/commands.c:105-190 | end of file reaches a stage only after the stage before it has exited |
| PipelineRun.WiringIsExclusive | src/commands.c:105-174 | past the closing loops pipe j's write end is held by child j alone and its read end by child j + 1 alone |
| PipelineRun.BytesConserved | src/commands.c:105-190 | at every step of every interleaving bytes written are bytes read and bytes in flight, in order |
| PipelineRun.EofMeansAll | src/commands.c:105-190 | a stage that saw end of file has read all its predecessor ever wrote |
| PipelineRun.PipelineComposes | src/commands.c:105-190 | when every stage has answered its input, the output is the composition of the stages |
| PipelineRun.NoDeadlock | src/commands.c:105-190 | once wired, whatever the running stages want to do next, one of them can |
| PipelineRun.SettingUpGoesOn | src/commands.c:105-174 | until everything is wired somebody can fork, close or go on with its set-up |
| PipelineRun.SetupTakes | src/commands.c:117-174 | whatever runs in between, with n pipes everything is wired after exactly 2n + (n + 1)(2n + 4) set-up steps, and no interleaving has more |
| Variables.SetKeepsNoShadow | src/variables.c:94-139 | no newer key is a prefix of an older one, before and after |
| Variables.KeysDistinct | src/variables.c:94-139 | so keys are distinct and lookups have one candidate |
| Variables.SetChangesTarget | src/variables.c:106-137 | an assignment changes what is found under exactly one key: the newest that extends the name, or the name |
| Variables.SetIsUpdateIff | src/variables.c:106-106 | it is a map update if and only if no stored key strictly extends the name |
| Variables.HistoryRefinesIff | src/variables.c:94-189 | the list refines the finite map of every history if and only if no name follows a strict extension of it |
| Variables.Store.SetVariable | src/variables.c:94-139 | the linked list after an assignment |
| Variables.Store.FindVal | src/variables.c:167-189 | the value of the one binding with this key, or the empty string |
| Expander.SplitIsCut | src/variables.c:192-297 | the segments joined with '$' are the input, and hold no '$' |
| Expander.SplitOfCut | src/variables.c:192-297 | there is no other way to cut it |
| Expander.ExpandVariables | src/variables.c:192-297 | for every input and store the scan returns the first 128 bytes of the pieces of the declarative expansion, or writes past one of its buffers exactly when Fails says |
| Expander.ExpansionIs | src/variables.c:192-297 | the part in front of the first '$' stays, each '$' and the name behind it become the value of the name, and a '$' at the very end stays |
| Expander.OverflowsIff | src/variables.c:208-285 | the output buffer overflows just if some piece crosses the end of it and something non-empty follows |
| Expander.OverflowExample | src/variables.c:225-252 | one assignment and one short token for which it does |
| Expander.ShellTokensFit | src/mysh.c:104-106 | a token with a '$' from an input line never overruns the 128-byte name buffer |
| Expander.ExpandTwice | src/builtins.c:70-79 | with '$'-free values expanding an expansion changes nothing; it writes past the name buffer if and only if the first expansion is 128 bytes without a '$' |
| Strtok.WordsIff | src/io_helpers.c:63-74 | the words of a string are the one list of delimiter-free pieces that, with delimiters between them, makes up the string |
| Strtok.Scanner.Next | src/io_helpers.c:63-72 | each call hands out the next word as a pointer into the buffer, changes one byte behind it, and leaves earlier words intact |
| Lexer.Pad | src/mysh.c:87-98 | the padding loop writes the padded line, if length plus twice the bars is at most 256 |
| Lexer.TokenizeInput | src/io_helpers.c:59-78 | the token array points at the words in order, then NULL, if it is long enough |
| Lexer.LexLine | src/mysh.c:84-102 | with or without bars the token array ends up with exactly the tokens of the line |
| Lexer.LexIff | src/mysh.c:84-102 | those are bars and maximal runs without whitespace and bars: the one list that makes up the line with whitespace around it |
| Lexer.LexConcat | src/mysh.c:84-102 | the tokens concatenated are the line without its whitespace |
| Lexer.PadThenWords | src/mysh.c:87-99 | cutting the padded line at whitespace gives the tokens of the line |
| Lexer.PaddingIsIdempotent | src/mysh.c:87-99 | padding a second time changes no token |
| ShellLine.CommandsOfLine | src/mysh.c:84-102 | lexing a line and cutting its tokens gives the tokens of the segments between its bars, or a syntax error if one is blank |
| ShellLine.ExpandTokens | src/mysh.c:104-112 | every token with a '$' is replaced by its expansion, the others stay, unless one of them makes the expander fail |
| ShellLine.ExpandedIs | src/mysh.c:104-112 | leaving out the tokens without a '$' makes no difference |
| ShellLine.EchoSeesOneExpansion | src/builtins.c:70-79 | a token from the main loop passes through the expansion in echo unchanged, and safely if and only if it is shorter than 128 bytes or holds a '$' |
| Paths.Rebuild | src/builtins.c:346-396 | the loop builds the rewritten path, cut at 128 bytes, or writes past its buffer exactly when a slash has to go behind 128 bytes |
| Paths.ArrivesWholeIff | src/builtins.c:378-396 | the rewritten path arrives whole if and only if it fits |
| Paths.MeaningPreserved | src/builtins.c:335-397 | in every file system, from every directory, the rewritten path leads where the components mean, `...` as up two and `....` as up three |
| Paths.RebuiltCollapsed | src/builtins.c:349-396 | repeated and trailing slashes are gone, a leading one is kept and none is added |
| Listing.RecursiveLs | src/builtins.c:100-159 | the recursion over path names lists the tree in preorder, with the depth limit and the filter of the declarative listing |
| Listing.Ls | src/builtins.c:165-212 | without --rec it lists the first level of the same listing |
| Listing.LinesIff | src/builtins.c:113-155 | the listing has a line for exactly the entries reachable by names of which only the last may be "." or ".." |
| Listing.LinesInOrder | src/builtins.c:113-155 | entries come in the order they are read, each directory right before what is in it |
| Listing.FindFilters | src/builtins.c:116-142 | --f output is the substring filter of the output without it |
| Listing.DepthPrunes | src/builtins.c:103-108 | --d k lists the tree cut off below k levels, all of it |
| Listing.DepthReachesIff | src/builtins.c:103-108 | --d k is no limit if and only if k reaches the height of the tree |

## Left out

- Socket set-up, `start-server`, `close-server`, port checks and signal handlers: no hard property.
- Exits on failing `accept()`, `select()`, `fork()`, `pipe()` and `malloc()`; freeing memory.
- Fixed-size screen output: what is displayed is the list of strings passed to `display_message()`, without its
  128-byte cut.
- What the server does after it freed a sender's node under its own loop: only the exact condition for getting there.
- `send` writes its frame with a single `write()`; a partial write of it is not modelled.
- C `int` counters are bounded by assumption: at most 2147483647 clients, and variable values no longer than that.
- Embedded NUL bytes in lines and paths, and symbolic-link cycles in a listing.
- `RoundTrip.EndToEnd`: is about a viewer that came before the typist first spoke; `RoundTrip.SaidToPeer` has the
  other case.
- What runs inside a stage of a pipeline: a stage is any sequence of reads, writes and an exit. The exit statuses
  collected by `waitpid()` are not modelled.
- `Paths.Rebuild`: is the branch of `cd` for paths without '$'; the other branch expands each component first.
- The table of expanded tokens in src/mysh.c, which only grows until the shell exits.
- Validity of variable names and the split at '=', `echo`, `cat`, `wc`, option parsing of `ls`, looking up and running
  binaries, and the text of a background command: they would add only easy members.
- `Jobs.JobTable.FirstWord`: what freeing the command of a job without a word does to the table is not modelled.
