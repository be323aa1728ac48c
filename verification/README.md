# CommanderDataClient: the event-application state machine

CommanderDataClient is a console client. It keeps a local copy (the *mirror*) of a
server's key → JSON data set. The server pushes changes over a WebSocket, each
tagged with a sequence number `seq`. The client stores the last `seq` it saved
(the *cursor*) in `sequenceID.txt`. After every reconnect it asks the server to
resume from that cursor.

This project models the logic of `Program.cs` in Dafny:

- `Keys`: the `Key` struct (type, key, version). It has value equality and the
  rendering `"{type}.{version}.{key}"`. Because `type` is a Dafny keyword, the
  fields are called `kind`, `name` and `version`.
- `Decimal`: `int.ToString()` and `int.Parse` on 32-bit integers. These are the
  format of the cursor file.
- `CursorStore`: `LoadSequenceID` and `SaveSequenceID`, over the file's text
  (an `Option<string>`) and the in-memory `_sequenceID`.
- `Events`: `Process`, which applies one decoded message to the mirror
  (`map<Key, string>`) and the cursor, and `ApplyAll`, which applies messages in
  arrival order. A decoded message is a record of optional fields. A missing
  field means reading or casting that field throws. This keeps the source's
  order of failure points:
  - `data`, `key`, `type`, `version` and `deleted` are read before the mutation;
  - `seq` is read after the mutation;
  - the file write comes last.
- `Session`: one connection attempt's receive loop. Fragments are appended to a
  buffer. On an end-of-message flag the buffer is processed and cleared. The
  open-state check comes after processing. `RunSession` is the loop as written.
  `Reassemble` is the same buffering as a pure fold.
- `Supervisor`: start-up (empty mirror, cursor loaded or 0) and the reconnect
  loop. Each attempt connects with a URL that carries the current in-memory
  cursor, and starts with an empty buffer.

Parameters stand in for the outside world:
- The JSON library is a function `decode: string -> Option<Message>`.
- The socket is a list of `Fragment(text, endOfMessage, openAfter)` per attempt.
- The success of each cursor-file write is a function `writeOk: nat -> bool`. It
  is indexed by the message's position within its session.

Three behaviours of the code are easy to miss:
- **No monotonic guard on the cursor.** Every successful `Process` overwrites the
  cursor with the message's `seq`, even a smaller one (`Events.CursorCanMoveBackwards`).
- **A failed write does not advance the cursor.** `File.WriteAllText` throws
  before `_sequenceID = seq` runs, so the in-memory cursor stays put
  (`CursorStore.Save`).
- **The mirror is not persisted.** After a restart the mirror is empty but the
  cursor is loaded from the file. The resumed stream therefore only rebuilds
  entries changed after the cursor.

## Model

| member | source | states |
|---|---|---|
| Decimal.Render | CommanderDataClient/Program.cs:158 | the cursor text is non-empty, digits after an optional minus sign, with no leading zero and no white space, dot or ampersand |
| Decimal.Digits | CommanderDataClient/Program.cs:158 | the digits of a natural number are non-empty ASCII digits with no leading zero |
| Decimal.DigitsValueOfDigits | CommanderDataClient/Program.cs:158 | the digits written for a number are worth that number when read back |
| Decimal.TrimStart | CommanderDataClient/Program.cs:145 | the result is a suffix of the text that does not start with white space, and everything cut off before it is white space |
| Decimal.TrimEnd | CommanderDataClient/Program.cs:145 | the result is a prefix of the text that does not end with white space, and everything cut off after it is white space |
| Decimal.SignedValue | CommanderDataClient/Program.cs:145 | a value is produced only from a non-empty run of digits, and it is their decimal value with the sign applied; every such run whose signed value fits in 32 bits is accepted |
| Decimal.ParseTrimmed | CommanderDataClient/Program.cs:145 | on trimmed text, a result is produced exactly when the text is an optional sign followed by one or more digits whose signed value fits in 32 bits, and the result is that signed value |
| Decimal.Parse | CommanderDataClient/Program.cs:145 | `int.Parse` succeeds exactly when the text, without its surrounding white space, is an optional sign followed by one or more digits whose signed value fits in 32 bits, and it returns that signed value |
| Decimal.ParseRender | CommanderDataClient/Program.cs:145 | parsing the decimal text of any 32-bit value gives back that value |
| Decimal.ParseAcceptsPadding | CommanderDataClient/Program.cs:145 | for every 32-bit value and any white space before and after its decimal text, parsing gives back the value |
| Decimal.ParseAcceptsSignAndZeros | CommanderDataClient/Program.cs:145 | any number of leading zeros, with or without a plus sign, and a minus sign down to -2147483648, are accepted and give the signed value |
| Decimal.ParseRejectsEmpty | CommanderDataClient/Program.cs:145 | text that is empty or only white space, and a lone plus or minus sign with any white space around it, fail to parse |
| Decimal.ParseRejectsWhiteAfterSign | CommanderDataClient/Program.cs:145 | a sign followed by white space and then digits fails to parse, whatever white space surrounds it |
| Decimal.ParseRejectsWhiteInDigits | CommanderDataClient/Program.cs:145 | two runs of digits separated by white space fail to parse, whatever white space surrounds them |
| Decimal.ParseRejectsOverflow | CommanderDataClient/Program.cs:145 | any number above 2147483647 fails to parse, and with a minus sign any number above 2147483648 fails |
| Keys.Text | CommanderDataClient/Program.cs:23 | the rendering starts with the type and a dot and ends with a dot and the key, with a middle part as long as the version's text; TextRoundTrip recovers the version |
| Keys.TextRoundTrip | CommanderDataClient/Program.cs:18-24 | when the type has no dot, the rendering determines the key: reading it back gives the same (type, key, version) |
| Keys.TextNotInjective | CommanderDataClient/Program.cs:23 | two different keys can render the same when the type contains a dot |
| CursorStore.Load | CommanderDataClient/Program.cs:140-152 | a file whose text parses to n sets the cursor to n, and the cursor changes to nothing else; a missing file or unparsable text leaves the store as it was |
| CursorStore.Save | CommanderDataClient/Program.cs:155-160 | a successful write leaves text in the file that parses to `seq` and sets the cursor to `seq`; a failed write changes neither |
| CursorStore.Startup | CommanderDataClient/Program.cs:30 | at start-up the file is kept; a missing file or unparsable text gives cursor 0, and otherwise the cursor is the number the file holds |
| CursorStore.StartupDurable | CommanderDataClient/Program.cs:140-152 | right after start-up, a restart would load the same cursor |
| CursorStore.LoadAfterSave | CommanderDataClient/Program.cs:155-160 | loading what a successful save wrote yields the saved number, whatever cursor was in memory before |
| CursorStore.SaveDurable | CommanderDataClient/Program.cs:155-160 | if the file agrees with the in-memory cursor before a save, it agrees after, whether or not the write succeeds |
| Events.Upsert | CommanderDataClient/Program.cs:125 | after `AddOrUpdate` the key maps to the data and every other entry is unchanged |
| Events.Remove | CommanderDataClient/Program.cs:120 | after `TryRemove` the key is absent and every other entry is unchanged; removing an absent key is a no-op |
| Events.Fields | CommanderDataClient/Program.cs:110-113 | the reads before the mutation succeed exactly when data, key, type, version and deleted are all present, and they carry those values |
| Events.Mutate | CommanderDataClient/Program.cs:115-128 | a keepalive leaves the mirror as it is; otherwise only the message's key can change |
| Events.Process | CommanderDataClient/Program.cs:105-137 | only the message's own key can change in the mirror; the cursor changes only to the message's `seq` after a fully successful read and write; file and cursor stay in agreement |
| Events.KeepaliveKeepsMirror | CommanderDataClient/Program.cs:115-128 | a keepalive message never creates, updates or removes an entry, whatever its deleted and key fields |
| Events.UpsertEffect | CommanderDataClient/Program.cs:112-127 | a non-keepalive message with deleted = false maps its key to the data, overwriting, and leaves every other entry unchanged |
| Events.DeleteEffect | CommanderDataClient/Program.cs:112-122 | a non-keepalive message with deleted = true leaves its key absent and every other entry unchanged; an absent key leaves the mirror unchanged |
| Events.SuccessSetsCursor | CommanderDataClient/Program.cs:130-131 | after a fully successful message the cursor is its `seq`, and the file would load back to that `seq` |
| Events.EarlyFailureChangesNothing | CommanderDataClient/Program.cs:110-113 | a parse failure or a failed read of data, key, type, version or deleted changes neither the mirror nor the cursor nor the file |
| Events.LateFailureKeepsMutation | CommanderDataClient/Program.cs:115-131 | a missing `seq` or a failed write keeps the mirror mutation but leaves cursor and file unchanged |
| Events.ProcessIdempotent | CommanderDataClient/Program.cs:115-131 | processing the same message twice gives the same state as processing it once |
| Events.CursorCanMoveBackwards | CommanderDataClient/Program.cs:130-131 | a message with a smaller `seq` moves the cursor back, because there is no monotonic guard |
| Events.ApplyAll | CommanderDataClient/Program.cs:79-84 | applying messages one after another keeps the file in agreement with the in-memory cursor |
| Events.ApplyAllAppend | CommanderDataClient/Program.cs:79-84 | applying `xs + ys` is applying `xs` and then `ys` |
| Events.MalformedIsSkipped | CommanderDataClient/Program.cs:108-136 | a malformed message between others is dropped without affecting them |
| Events.LastSuccessIsCursor | CommanderDataClient/Program.cs:130-131 | when the last applied message fully succeeds, the cursor ends at its `seq` |
| Events.FinalSuccessIsCursor | CommanderDataClient/Program.cs:130-131 | the same for any non-empty list of messages whose last one fully succeeds |
| Session.EomCount | CommanderDataClient/Program.cs:79 | no message is completed exactly when no fragment carries the end-of-message flag |
| Session.Received | CommanderDataClient/Program.cs:85-89 | the loop reads a prefix of the fragments; every fragment but the last leaves the socket open; reading stops early only after a fragment that closes it |
| Session.Reassemble | CommanderDataClient/Program.cs:74-84 | exactly one message is completed per end-of-message fragment |
| Session.ReassembleConserves | CommanderDataClient/Program.cs:78-84 | the completed messages plus the buffered text are exactly the starting buffer plus all fragment texts, in order |
| Session.ReassembleAppend | CommanderDataClient/Program.cs:78-84 | reassembling two runs of fragments is reassembling the first and carrying its buffer into the second |
| Session.BufferClearedAtBoundary | CommanderDataClient/Program.cs:83 | the buffer is empty right after an end-of-message fragment |
| Session.OneMessage | CommanderDataClient/Program.cs:78-83 | fragments whose only end-of-message flag is on the last one produce one message: the buffer followed by all their texts |
| Session.MessageSinceLastBoundary | CommanderDataClient/Program.cs:74-84 | the message completed at fragment i is the concatenation of the fragments since the previous end-of-message fragment, or since the session began |
| Session.Arrivals | CommanderDataClient/Program.cs:82 | each completed message is decoded and paired with its own write outcome, in order |
| Session.RunSession | CommanderDataClient/Program.cs:74-90 | a session keeps the file in agreement with the in-memory cursor |
| Session.SessionIsFold | CommanderDataClient/Program.cs:74-90 | the receive loop processes, in order, exactly the messages reassembled from the fragments it reads, and drops the leftover buffer |
| Session.NoBoundaryNoEffect | CommanderDataClient/Program.cs:78-84 | fragments without an end-of-message flag never reach `Process` |
| Session.UnfinishedTailIgnored | CommanderDataClient/Program.cs:74-90 | fragments after the last end-of-message flag of a session never affect the state |
| Supervisor.Url | CommanderDataClient/Program.cs:70 | the connection URL is the fixed endpoint and access key followed by the cursor |
| Supervisor.UrlCarriesCursor | CommanderDataClient/Program.cs:70 | the `seq` parameter of the URL reads back as the cursor held at connect time |
| Supervisor.Start | CommanderDataClient/Program.cs:58 | the process starts with an empty mirror and a cursor that a restart would reproduce |
| Supervisor.Supervise | CommanderDataClient/Program.cs:63-101 | there is one URL per connection attempt, and the file stays in agreement with the in-memory cursor across reconnects |
| Supervisor.SuperviseAppend | CommanderDataClient/Program.cs:63-101 | running two lists of attempts in a row is running the first and then the second from where it stopped |
| Supervisor.AttemptUsesCurrentCursor | CommanderDataClient/Program.cs:67-74 | attempt i connects with the cursor left by the attempts before it, and runs its session from that state with an empty buffer |
| Supervisor.RestartResumesAtCursor | CommanderDataClient/Program.cs:140-160 | after any run in which a failed cursor write leaves the file as it was, restarting the process loads exactly the cursor the run held in memory |
| Supervisor.SessionArrivals | CommanderDataClient/Program.cs:79-82 | a session hands `Process` one message per end-of-message fragment it reads |
| Supervisor.SessionEndsAtLastSuccess | CommanderDataClient/Program.cs:79-84 | when a session's last completed message fully succeeds, the session ends with that message's `seq` as cursor |
| Supervisor.NextUrlFollowsSession | CommanderDataClient/Program.cs:63-74 | attempt i + 1 connects with the cursor that attempt i's session ended with |
| Supervisor.ResumeAfterSuccess | CommanderDataClient/Program.cs:63-72 | after a session whose last message succeeded, the next attempt asks the server to resume from that message's `seq` |

## Left out

- Console output, the `LoopPrintAllOnline` presentation loop and `Main` (Program.cs:32-51) are pure I/O.
- `ClientWebSocket` connect and receive, the cancellation token and `Thread.Sleep(1000)` are network, timing and cancellation plumbing. An attempt is the list of fragments it received. A failed connect is an attempt with no fragments. The never-ending outer loop is a finite list of attempts. A cancelled or failed receive ends the attempt like a closed socket, and the sleep that follows an exception is not modelled.
- `ConcurrentDictionary` thread safety and snapshot enumeration are left out. Only one writer is modelled, and the mirror is an immutable map.
- `DynamicJson.Parse` and `Serialize` are a library outside this model. Decoding is the parameter `decode`, and `data` is an opaque string. How the library converts JSON numbers to `int` is part of `decode`. A JSON `null` in a string field is not modelled, because Dafny strings are never null.
- UTF-8 decoding of each 1024-byte chunk (Program.cs:78) is a foreign call. Fragments are already-decoded text. A multi-byte character split across two chunks is outside the model.
- File I/O is reduced to the file's text as an `Option<string>`. A byte-order mark is not modelled.
- CursorStore.Save: a failed write is modelled as leaving the file unchanged. `File.WriteAllText` truncates before it writes, so a write that fails half-way could leave an empty or partial file. That case is not covered.
- Supervisor.RestartResumesAtCursor: holds only under the assumption above that a failed cursor write leaves the file as it was. A write that fails after `File.WriteAllText` has truncated the file leaves it empty, and a restart would then load 0.
- Decimal.Parse: assumes the invariant culture's `+` and `-` signs. It does not model .NET's acceptance of trailing NUL characters.
- Decimal.Render: assumes the invariant culture's minus sign. The source renders with the current culture in `seq.ToString()` (Program.cs:158), in the URL's `{_sequenceID}` (Program.cs:70) and in the key's `{version}` (Program.cs:23).
- Logging of caught exceptions is not modelled. The failures in `Process` (Program.cs:133-136) in the receive loop (Program.cs:96-99), and in `LoadSequenceID` (Program.cs:148-151) when its logging succeeds, are swallowed with no state effect beyond what the modelled steps had already done.
- Supervisor.Start: assumes `LoadSequenceID` always returns. Its catch logs with `Console.WriteLine(ex.Message, ex)` (Program.cs:150), which treats the exception message as a format string. A message holding a stray `{` or `}` makes that call throw from inside the catch. One example is a missing file under a directory whose path contains a brace. The exception then escapes `LoadSequenceID` and faults `Start` (Program.cs:58) before any connection is made. The model instead starts with cursor 0 and connects.
