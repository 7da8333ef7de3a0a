# Network UPS Tools: a verified model

This project models the state machines at the core of Network UPS Tools and proves what they keep
over whole runs and for all inputs. `dafny verify dfyconfig.toml` checks all of it.

- **The monitor, `clients/upsmon.c`** (`UpsRecord`, `UpsPoll`, `UpsConfig`, `ShutdownTrace`,
  `UpsStatus`, `UpsmonEnv`, `ShutdownSafe`, `UpsmonUps`, `UpsPass`, `Upsmon`). The records of the monitored systems are objects that polls
  update in place; the monitor owns a list of them and runs the passes of the main loop. The world
  around it (clock, upsd, other clients) is a script of peer events and of answers that may fail; a
  contract that holds for every script holds for every run. Everything observable goes to a trace,
  and login counts and time are functions of that trace.
- **The wire format, `common/parseconf.c`, `clients/upsclient.c`, `clients/nutclient.cpp`**
  (`Parseconf`, `ConfLines`, `PconfContext`, `UpsClient`, `NutClient`, `Lines`). The parser is first a function
  on values; the context with its growing, reused character buffers is then proved to compute it.
  The encoder, the command builder, the C++ scanner and printer and the two line readers are proved
  against each other.
- **The variable store, `common/state.c`** (`StateShape`, `StateTree`). Heap nodes are spliced by
  pointer writes; a ghost shape says which node hangs where, and every operation is proved against
  a map from the folded name to the entry.
- **The timer daemon, `clients/upssched.c`** (`Upssched`), **framed answers,
  `drivers/bcmxcp_ser.c`** (`Bcmxcp`), **enumerated settings, `drivers/apcsmart.c`** (`Apcsmart`)
  and **the log format, `clients/upslog.c`** (`Upslog`).

Where the source updates fields, the model is a class; where it loops, the model loops. Pure
functions give each operation its meaning, methods are proved to compute them, and the lemmas say
what those functions do in terms of inputs and effects: which words a written line stands for, which
bits and notices a status answer leaves, which value a history of a variable leaves, which timer a
request asks for.

## Where the code is not what one would expect

The model follows the code. Each of these has a lemma with an input that shows the case, and one
that says exactly when the expected property does hold.

- upsd accepts a LOGIN after FSD (`server/netuser.c:31-66`), so a login count can rise after it was
  sampled: `ShutdownTrace.LateLoginBreaksSync`. At most one client is left if and only if the
  answered count and the logins since do not exceed the logouts since by more than one:
  `ShutdownTrace.LeftAloneIff`, and for a shutdown `ShutdownTrace.SlavesAreGoneIff`.
- At a reload a system named twice is counted twice in the total: `UpsConfig.ReloadCountsTwice`.
  The total is right if and only if no line with a positive power value is followed by another for
  the same system: `UpsConfig.ReloadTotal`.
- LB is cleared by a case-sensitive search while words match in any case. A server that answers
  "OB lb" restarts a slave's critical timer at every poll: `UpsPoll.LowerCaseExample` and
  `UpsPoll.LowerCaseNeverCritical`; exactly when is `UpsPoll.PollKeepsTimerIff`.
- `pconf_encode()` into a one-byte buffer can lose its terminator: `Parseconf.OneByteUnterminated`
  and `Parseconf.TerminatedIff`.
- `pconf_line()` does not clear the word buffer, so a word begun with `pconf_char()` joins the next
  line: `Parseconf.PendingWordJoins` and `Parseconf.LineForgetsHistoryIff`. No program of the
  repository mixes the two on one context; for those that use `pconf_line()` alone,
  `Parseconf.EachLineAlone` holds.
- `build_cmd()` sends an empty argument or an unquoted `=` in a form that does not arrive as one
  word, and cuts an argument whose encoding is too long: `UpsClient.NotSendable` and
  `UpsClient.CommandRoundTripIff`. `TcpClient::escape()` leaves `#` bare, which parseconf rejects:
  `NutClient.RequestWithHash` and `NutClient.ParseconfAgreesIff`.
- `upscli_readline()` cuts a long line and leaves its rest in the stream: `Lines.LongLineIsCut`,
  `Lines.ReadersAgreeIff` and `Lines.StreamsAgreeIff`.
- `Socket::read()` loses the part of an unfinished line it has moved out of its buffer when a read
  fails: `Lines.PartIsLost` and `Lines.RestKeptIff`.
- `setvar_enum()` reports "handled" after six steps without success: `Apcsmart.GaveUpIsHandled` and
  `Apcsmart.TruthfulIff`.
- A `%TIME%` field without an argument makes `upslog` copy a null string: `Upslog.TimeWithoutFormat`
  and `Upslog.NoLineIff`.

Besides, 0x7f is stored by `addchar()` although its comment ends the range at the tilde.

## Model

| member | source | states |
|---|---|---|
| `Upsmon.UpsMonitor.Life` | clients/upsmon.c:1941-2022 | Over a whole life of the process, for every configuration, poll outcome and peer behaviour: the shutdown command is the very last event or never happens, comes only after the synchronised sequence for the systems that the configuration makes this host the master of, and does come once a shutdown is begun unless the environment ends during the wait for slaves; it is begun exactly if the user asks or too little power is online; and the judgements are as in the next row. |
| `Upsmon.UpsMonitor.MainLoop` | clients/upsmon.c:1999-2022 | The same from any valid state. List, totals, roles and settings are what the reloads made of them. In the last pass: a UPS not mastered here is critical, FSD apart, only if OB and LB are set and no status word left them otherwise for HOSTSYNC seconds; any UPS is critical if its polls show OB and LB for longer than that or its answer shows FSD; on its master also if the answer shows OB and LB, or if it fell silent on battery longer than DEADTIME ago; never if it is, or was when it fell silent, on line without FSD. |
| `Upsmon.UpsMonitor.Iterate` | clients/upsmon.c:1999-2022 | One pass: a user request always shuts down, otherwise it is fatal exactly after a reload with too little power configured, and goes on exactly if enough non-critical power is left; each record is reconfigured if there was a reload, then polled and promoted at clock readings in order, and nothing else; a true total stays true. |
| `ShutdownSafe.WhatACommandMeans` | clients/upsmon.c:569-641 | A shutdown command implies: power-down flag immediately before it, FSD tried on every mastered UPS, and, when doshutdown() was entered, either more than HOSTSYNC seconds spent waiting or a last answer of at most one from every mastered UPS that answered, which is left to the master alone if and only if later logins do not outweigh logouts. |
| `Upsmon.NothingCritical` | clients/upsmon.c:680-715 | If no UPS is critical the online power is the whole sum of the list. |
| `Upsmon.CriticalCosts` | clients/upsmon.c:680-715 | Each UPS that is judged critical takes exactly its own power value away. |
| `Upsmon.HushStep` | clients/upsmon.c:680-715 | One more pass without a reply: the record stays as its last reply showed it, is not critical if that was on line, and is critical on its master if that was on battery longer than DEADTIME ago. |
| `Upsmon.UpsMonitor.Recalc` | clients/upsmon.c:680-715 | Promotes every dead UPS, judges each one at its own clock reading, and forces a shutdown if and only if the power of the non-critical ones is below MINSUPPLIES. |
| `Upsmon.UpsMonitor.Watch` | clients/upsmon.c:1999-2022 | Polls and recalculation: roles and configuration stay, every critical timer stays as young as the last word that left its record non-critical, so no slave judges too early. |
| `Upsmon.UpsMonitor.RecalcAndAct` | clients/upsmon.c:680-715 | The recalculation with the shutdown it forces: no command without a forced shutdown, a safe sequence with it. |
| `Upsmon.UpsMonitor.TryFsdOnMasters` | clients/upsmon.c:615-641 | After the loop FSD has been tried on every mastered UPS and on no other, whatever servers answer, and the result says whether there is one. |
| `Upsmon.UpsMonitor.SampleRound` | clients/upsmon.c:569-613 | One round of questions: the maximum bounds the last answer of every mastered UPS although they are asked one after another, and above one it is the answer of one of them. |
| `Upsmon.UpsMonitor.SlaveSync` | clients/upsmon.c:569-613 | It ends only when the last answers are all at most one or more than HOSTSYNC seconds have passed since it began, and goes on only while that time is not over and some mastered UPS last answered more than one. |
| `Upsmon.UpsMonitor.RunParent` | clients/upsmon.c:1658-1691 | The privileged parent writes the flag and then runs the command for the byte 1, and does nothing for any other. |
| `Upsmon.UpsMonitor.DoShutdown` | clients/upsmon.c:419-453 | In both process modes the notice comes first and the flag precedes the command, which is last. |
| `Upsmon.UpsMonitor.ForceShutdown` | clients/upsmon.c:615-641 | The whole sequence is safe and is run: FSD everywhere, synchronised slaves, notice, flag, command, with no command or flag earlier. It is not run only if the environment ends while the wait is rightly going on, so never on a host that masters nothing. |
| `Upsmon.UpsMonitor.AddUps` | clients/upsmon.c:870-963 | The list, the total and the set of mastered systems change as `UpsConfig.Add` says; a record of another system keeps its state, the named one changes its role and connection only, and a new one is fresh. |
| `Upsmon.UpsMonitor.LoadConfig` | clients/upsmon.c:1227-1271 | List, total, roles, MINSUPPLIES and intervals are those that the directives give in file order. |
| `Upsmon.UpsMonitor.Startup` | clients/upsmon.c:1941-1963 | Startup is fatal exactly if the total is below MINSUPPLIES, otherwise the total is the sum of the list; this host is the master of exactly the systems whose first accepted line says so. |
| `Upsmon.UpsMonitor.DeleteUps` | clients/upsmon.c:1719-1755 | Exactly one record leaves the list and, if mastered, the set of mastered systems; the others keep their order and state. |
| `Upsmon.UpsMonitor.DeleteUnretained` | clients/upsmon.c:1773-1822 | Deleting while walking leaves exactly the retained records, unchanged, and the mastered systems among them. |
| `Upsmon.UpsMonitor.ReloadConf` | clients/upsmon.c:1773-1822 | A reload computes `UpsConfig.Reconfigure` and touches of a known record only its role, login and connection; a file that cannot be opened changes nothing at all. |
| `Upsmon.UpsMonitor.PollAll` | clients/upsmon.c:1999-2022 | Every record is polled once, changed by its own poll only, at clock readings in order between the start and the end of the round. |
| `ShutdownTrace.SlavesAreGoneIff` | clients/upsmon.c:569-613 | If the wait ended early, a mastered UPS that answered is left to the master alone at any later moment if and only if the logins since its last answer do not outweigh the logouts. |
| `ShutdownTrace.SlavesAreGone` | clients/upsmon.c:569-613 | In particular, if FSD was accepted and nobody logged in since, at most the master itself is logged in, at that moment and ever after. |
| `ShutdownTrace.QuietBound` | clients/upsmon.c:506-567 | A count taken after FSD bounds the count for the rest of the trace when no login follows: sampling one UPS after another is sound. |
| `ShutdownTrace.LeftAloneIff` | clients/upsmon.c:506-567 | At most one client is left if and only if the answered count plus later logins is at most one more than later logouts. |
| `ShutdownTrace.LoginsAfter` | server/upsd.c:250-266 | The count moves by exactly the logins and logouts in between. |
| `ShutdownTrace.LateLoginBreaksSync` | server/netuser.c:31-66 | A login accepted after FSD makes a synchronised trace end with two clients logged in. |
| `UpsConfig.StartupTotal` | clients/upsmon.c:870-963 | At startup the list is exactly the set of configured systems, each once, and the total is the sum of its power values, whatever duplicates and invalid lines there are. |
| `UpsConfig.ReloadTotal` | clients/upsmon.c:1773-1822 | After a reload the list is exactly the configured set with the last value of each; the total is never too small, and right if and only if no positive line is repeated. |
| `UpsConfig.ReloadInvariant` | clients/upsmon.c:773-868 | During the reload the total exceeds the retained sum by exactly the replaced values. |
| `UpsConfig.OvercountIff` | clients/upsmon.c:784-784 | The replaced values are all zero if and only if no positive line is repeated. |
| `UpsConfig.ReloadCountsTwice` | clients/upsmon.c:898-905 | A running monitor whose one system is named twice at a reload keeps its list and counts twice its worth. |
| `UpsConfig.StartupMasters` | clients/upsmon.c:870-963 | At startup the mastered systems are exactly those whose first accepted line says master. |
| `UpsConfig.ReloadMasters` | clients/upsmon.c:773-868 | After a reload they are exactly the configured ones that a line says master for with no later line saying slave, or that were mastered with no line saying slave. |
| `UpsConfig.MinSuppliesIs` | clients/upsmon.c:1057-1219 | MINSUPPLIES is what the last directive says that sets it, or stays. |
| `UpsConfig.TimingIs` | clients/upsmon.c:1057-1219 | So are the intervals. |
| `UpsConfig.ReconfigureTable` | clients/upsmon.c:1773-1822 | What a reload makes of the list depends on the MONITOR lines alone. |
| `UpsPoll.SlaveCriticalOnlyIf` | clients/upsmon.c:643-677 | Through any steps, promotion included: a slave without FSD judges a UPS critical only if it is OB and LB and every word that left it otherwise is more than HOSTSYNC seconds old. |
| `UpsPoll.CriticalAfterHostsync` | clients/upsmon.c:1371-1382 | Once a poll showed OB and LB without OL, and as long as nothing takes that back, every judgement more than HOSTSYNC later finds it critical. |
| `UpsPoll.PollSustains` | clients/upsmon.c:1450-1499 | A status line with LB and without OL takes nothing back. |
| `UpsPoll.PollKeepsTimerIff` | clients/upsmon.c:1467-1493 | For a UPS on battery and low the timer keeps ageing if and only if LB is spelled in capitals or is the first word. |
| `UpsPoll.LowerCaseNeverCritical` | clients/upsmon.c:1467-1493 | After any history, a line that shows OB and a misspelled LB leaves the UPS on battery and low and yet not critical for the next HOSTSYNC seconds. |
| `UpsPoll.LowerCaseExample` | clients/upsmon.c:1467-1493 | "OB lb" is such a line. |
| `UpsPoll.HasTextIff` | clients/upsmon.c:1467-1471 | The early clearing looks for the text anywhere in the line, in this spelling. |
| `UpsStatus.AnswerStatus` | clients/upsmon.c:1450-1499 | What an answer leaves, bit by bit: the line bits follow the last of OL and OB; LB and FSD are set if a word says so in any case, or if they were set and the text has them in capitals; the UPS counts as alive; the rest stays. |
| `UpsStatus.AnswerNotices` | clients/upsmon.c:717-757 | It sends one COMMOK if contact was lost, one LOWBATT and one FSD at the transition, and none of them otherwise. |
| `UpsStatus.AnswerLineNotices` | clients/upsmon.c:359-398 | It sends one ONLINE or one ONBATT exactly at the change, and no ONLINE before any line state is known. |
| `UpsStatus.WordNotices` | clients/upsmon.c:732-742 | For a single word: which notice it sends, REPLBATT by its interval included. |
| `UpsStatus.GoneLaw` | clients/upsmon.c:331-357 | Without an answer the status stays; the first loss sends COMMBAD, later ones NOCOMM by the interval. |
| `UpsStatus.FsdIsCritical` | clients/upsmon.c:643-677 | After any history, an answer with FSD in any case makes the UPS critical at any time, on any host. |
| `UpsStatus.MasterIsCriticalAtOnce` | clients/upsmon.c:643-677 | On its master a UPS is critical as soon as an answer shows it on battery and low. |
| `UpsStatus.DeadMasterIsCritical` | clients/upsmon.c:680-715 | And also when it was last on battery and is silent for longer than DEADTIME. |
| `UpsStatus.OnLineIsNotCritical` | clients/upsmon.c:680-715 | A UPS that is not on battery and has no FSD is not critical, however long it is silent. |
| `UpsStatus.AnswerOnLineIsNotCritical` | clients/upsmon.c:643-677 | After any history, an answer that ends on OL and has no FSD leaves the UPS not critical. |
| `UpsRecord.NoticesOfALife` | clients/upsmon.c:313-398 | Over any life of a record: OL and OB never both set, ONBATT and ONLINE notices strictly alternate, and a COMMOK stands between any two COMMBAD. |
| `UpsRecord.RunKeepsLife` | clients/upsmon.c:313-398 | The invariant behind it is kept by every sequence of steps from any record that has it. |
| `UpsPass.RunKeepsTimer` | clients/upsmon.c:1371-1382 | Through steps at ordered times the timer is never older than a moment that left the record non-critical. |
| `UpsPass.PassedUpholds` | clients/upsmon.c:1450-1499 | A pass whose poll takes nothing back keeps OB, LB and the timer. |
| `UpsPass.PassedShows` | clients/upsmon.c:1450-1499 | A pass whose poll shows OB and LB without OL sets both and leaves a timer no later than its end. |
| `UpsPass.PassedPrompt` | clients/upsmon.c:1502-1551 | What the answer of a pass decides at once about the judgement, from any record and on an old or a new connection. |
| `UpsPass.PassedSilent` | clients/upsmon.c:1502-1551 | A pass without a reply keeps the line, and makes the battery low once the UPS is dead. |
| `UpsPass.PolledLink` | clients/upsmon.c:1385-1447 | After a poll the record is connected, and logged in, exactly as far as the link was there or came up and was not lost. |
| `UpsRecord.StepKeepsLine` | clients/upsmon.c:359-398 | Each single step keeps the relation between line state, status bits and ONLINE and ONBATT notices. |
| `UpsRecord.StepKeepsComm` | clients/upsmon.c:313-357 | Each single step keeps the relation between the comm state and the COMMOK and COMMBAD notices. |
| `UpsmonUps.Ups.IsAlive` | clients/upsmon.c:313-328 | The record after it, at the time it reads. |
| `UpsmonUps.Ups.IsGone` | clients/upsmon.c:331-357 | The record after it: one COMMBAD per loss, NOCOMM only after its interval. |
| `UpsmonUps.Ups.DropConnection` | clients/upsmon.c:760-770 | Login, connection and both states are cleared and nothing else. |
| `UpsmonUps.Ups.HandleWord` | clients/upsmon.c:359-398 | The effect of one status word, in any case. |
| `UpsmonUps.Ups.UpdateCritTimer` | clients/upsmon.c:1371-1382 | The timer restarts exactly if the UPS is not both OB and LB. |
| `UpsmonUps.Ups.HandleWords` | clients/upsmon.c:1450-1499 | Cutting the line in place at its spaces takes the steps of its words in order, with ordered clock readings. |
| `UpsmonUps.Ups.ParseStatus` | clients/upsmon.c:1450-1499 | The whole line; an empty one is a dead UPS; power value and login stay. |
| `UpsmonUps.Ups.TryConnect` | clients/upsmon.c:1385-1447 | Each outcome of the connection with the steps it causes. |
| `UpsmonUps.Ups.PollUps` | clients/upsmon.c:1502-1551 | A poll takes the steps of its outcome and nothing else, at ordered times. |
| `UpsmonUps.Ups.IsCritical` | clients/upsmon.c:643-677 | The judgement at the time it reads. |
| `UpsmonUps.Ups.PromoteDead` | clients/upsmon.c:680-715 | A UPS on battery that is dead too long becomes low as well. |
| `UpsmonUps.Ups.Redefine` | clients/upsmon.c:773-868 | The new values are in place and the role is as the line says on top of the old one; the connection is dropped exactly if the record becomes mastered or its login changed while it was not logged in, and nothing else changes. |
| `UpsmonEnv.Env.SendFsd` | clients/upsmon.c:456-493 | One attempt is added to the trace after what peers did meanwhile, and it is accepted exactly if upsd says so. |
| `UpsmonEnv.Env.AskLogins` | clients/upsmon.c:506-567 | No answer, or the count at that moment. |
| `Parseconf.StreamRoundTripExact` | common/parseconf.c:617-638 | Quoted word lists fed as one stream come back exactly, in order and without error, if and only if all words are printable and all limits are kept. |
| `Parseconf.StreamRoundTrip` | common/parseconf.c:449-476 | For any strings at all: one line per list, no error, each list cut to the argument limit and each word filtered and cut to its limit. |
| `ConfLines.LinesRead` | common/parseconf.c:226-369 | Any stream of lines made of bare words, quoted words and equals signs, with escapes, continued lines, white space of every kind and comments, gives line by line and without error the values of those tokens, filtered and cut to the limits. |
| `ConfLines.LineRead` | common/parseconf.c:544-578 | The same for one line given to `pconf_line()`. |
| `ConfLines.CommentLine` | common/parseconf.c:226-269 | A line that begins with a hash sign has no words. |
| `ConfLines.OpenWordRead` | common/parseconf.c:544-578 | A last bare word that the end of the text leaves open is kept. |
| `ConfLines.HashInQuotes` | common/parseconf.c:280-306 | An unescaped hash sign inside quotes gives one bad line with the words so far, and what follows is read as a new line. |
| `ConfLines.StoredCharacters` | common/parseconf.c:168-204 | The characters that are stored are those from 0x20 to 0x7f. |
| `Parseconf.StreamCut` | common/parseconf.c:617-638 | A stream may be cut anywhere: the outcomes of the rest depend on the context alone. |
| `Parseconf.LineRoundTrip` | common/parseconf.c:544-578 | `pconf_line()` gives the same words line by line, with or without the newline. |
| `Parseconf.ReceivedUnchanged` | common/parseconf.c:168-204 | What the limits leave is the list itself if and only if it keeps them. |
| `Parseconf.FeedQuoted` | common/parseconf.c:280-317 | A quoted encoding is read as one word, whatever the word. |
| `Parseconf.ParseCharTidy` | common/parseconf.c:449-476 | Every character keeps: no word outside the collecting states, printable words, both limits. |
| `Parseconf.FeedTidy` | common/parseconf.c:449-476 | The same over any input. |
| `Parseconf.StreamTidy` | common/parseconf.c:617-638 | Whatever bytes arrive, even malformed ones, every outcome holds printable words within the limits. |
| `Parseconf.FitIsLongest` | common/parseconf.c:582-614 | A prefix fits if and only if it is no longer than the encoded one, and a string that fits is not cut. |
| `Parseconf.TruncatedQuoteReadsPrefix` | common/parseconf.c:582-614 | Quoting a cut encoding parses to a prefix of the source, with no dangling escape. |
| `Parseconf.TerminatedIff` | common/parseconf.c:600-600 | The buffer is a terminated bounded encoding except when one byte meets a first character to escape. |
| `Parseconf.OneByteUnterminated` | common/parseconf.c:600-600 | Encoding a hash sign into one byte leaves no terminator. |
| `Parseconf.EachLineAlone` | common/parseconf.c:544-578 | Over any sequence of lines, malformed ones included, a context that serves `pconf_line()` alone reads each as a fresh one would. |
| `Parseconf.LineLeavesNothing` | common/parseconf.c:544-578 | A line leaves no word pending where none was before. |
| `Parseconf.LineForgetsHistoryIff` | common/parseconf.c:544-578 | On a context that `pconf_char()` was used on too, the words of a line depend on the line alone if and only if no word was pending. |
| `Parseconf.PendingWordJoins` | common/parseconf.c:544-578 | A pending "a" and the line "b" give the word "ab". |
| `PconfContext.Context.constructor` | common/parseconf.c:392-418 | A new context is the fresh parser. |
| `PconfContext.Context.AppendChar` | common/parseconf.c:168-204 | Over the growing buffer: the word gains the character if it is printable and the limit allows. |
| `PconfContext.Context.AddArgWord` | common/parseconf.c:110-166 | The word is committed into a grown or reused buffer with no tail of an earlier word. |
| `PconfContext.Context.CommitWord` | common/parseconf.c:206-223 | The word moves to the arguments, or is dropped at the limit, and the word buffer is empty. |
| `PconfContext.Context.FindWordStartState` | common/parseconf.c:226-258 | Refines the state function on values. |
| `PconfContext.Context.QuoteCollectState` | common/parseconf.c:280-306 | Refines the state function on values. |
| `PconfContext.Context.QcLiteralState` | common/parseconf.c:309-317 | Refines the state function on values. |
| `PconfContext.Context.CollectState` | common/parseconf.c:320-358 | Refines the state function on values. |
| `PconfContext.Context.CollectLiteralState` | common/parseconf.c:361-369 | Refines the state function on values. |
| `PconfContext.Context.Parse` | common/parseconf.c:449-476 | One character over the buffers is one step of the pure parser, with all buffer invariants kept. |
| `PconfContext.Context.Char` | common/parseconf.c:617-638 | The pure step and its return code. |
| `PconfContext.Context.Line` | common/parseconf.c:544-578 | A whole line over the buffers is the pure parse of that line. |
| `PconfContext.Context.Answer` | clients/upsclient.c:1178-1181 | Over the reused buffers, the words of an answer are those of that answer alone. |
| `PconfContext.Context.ReadBytes` | server/upsd.c:504-552 | The server hands on exactly the lines of the bytes, up to the first parse error, and is then where the whole stream would have brought it. |
| `PconfContext.PconfEncode` | common/parseconf.c:582-614 | The whole destination buffer, byte by byte, for every size. |
| `UpsClient.BuildCmd` | clients/upsclient.c:1102-1131 | Appending piece by piece is cutting the whole command once. |
| `UpsClient.CommandOutcome` | clients/upsclient.c:1102-1131 | What the server reads for any printable arguments of any length: each cut to the encoding buffer, split at `=` unless quoted, each word cut to its limit, empty ones gone. |
| `UpsClient.CommandRoundTripIff` | clients/upsclient.c:1102-1131 | For any arguments at all: the server reads the name and exactly the arguments if and only if they are printable, the limits hold, each encoding fits its buffer, and each argument has a space, or is non-empty with no `=` besides itself. |
| `UpsClient.NotSendable` | clients/upsclient.c:1102-1131 | An empty argument and "a=b" do not come back. |
| `UpsClient.FeedBare` | common/parseconf.c:320-358 | The words an unquoted encoding of any length arrives as, on top of what is pending. |
| `NutClient.Explode` | clients/nutclient.cpp:760-869 | The loop computes the scanner, from any starting position. |
| `NutClient.Escape` | clients/nutclient.cpp:871-888 | The loop computes the quoted form. |
| `NutClient.ExplodeUndoesEscape` | clients/nutclient.cpp:760-888 | Exploding the space-joined escaped values returns them, for every vector of strings. |
| `NutClient.LineExploded` | clients/nutclient.cpp:760-869 | For any line of bare and quoted words with escapes, separated by spaces: exactly the word of each, with the sum of 0x5c and the character for an escape that is not known. |
| `NutClient.BothReadLine` | clients/nutclient.cpp:760-869 | On a line that is well spelled for both and uses the common escapes, parseconf reads the same words up to its limits. |
| `NutClient.RequestWithHash` | common/parseconf.c:280-306 | A `#` in any value makes parseconf fail. |
| `NutClient.ParseconfAgreesIff` | clients/nutclient.cpp:871-888 | Both parsers read the same words if and only if no value has `#`, all are printable and the limits hold. |
| `Lines.Socket.Read` | clients/nutclient.cpp:355-379 | The next line and the unread rest, however the stream was cut; when the read fails, the rest is kept if and only if nothing was read or one chunk into an empty buffer. |
| `Lines.RestKeptIff` | clients/nutclient.cpp:355-379 | That condition, for what the buffer holds at the failure. |
| `Lines.PartIsLost` | clients/nutclient.cpp:355-379 | A timeout after two parts of a line: the retry returns the line without its first part. |
| `Lines.Socket.ReadAll` | clients/nutclient.cpp:355-379 | Exactly the lines of the stream. |
| `Lines.UpsConn.ReadLine` | clients/upsclient.c:1342-1390 | The next line or its first part that fills the buffer; the rest stays. |
| `Lines.ReadersAgreeIff` | clients/upsclient.c:1342-1390 | Both readers agree on a line if and only if it is shorter than the buffer with its newline. |
| `Lines.StreamsAgreeIff` | clients/upsclient.c:1342-1390 | Over a whole stream they deliver the same lines if and only if every line and the remainder are that short. |
| `Lines.UpsConn.ReadAll` | clients/upsclient.c:1342-1390 | Reading to the end gives exactly the lines of the stream if and only if they all fit. |
| `Lines.LongLineIsCut` | clients/upsclient.c:1342-1390 | "abc" through a buffer of three comes as "ab" and "c". |
| `Lines.PiecesKeepBytes` | clients/upsclient.c:1342-1390 | However long the lines are, the pieces together are the stream without its newlines, and each fits the buffer. |
| `Lines.LinesPartition` | clients/nutclient.cpp:355-379 | The lines and the remainder put together are the stream, and no line holds a newline. |
| `StateTree.Store.Run` | common/state.c:100-209 | Any sequence of operations keeps the search tree and agrees with the plain map; from an empty store, every variable that is never made immutable is there exactly if it was set and not deleted since, with the value of the set that counts. |
| `StateTree.StoredValue` | common/state.c:128-209 | That value: of the last set that differed by more than case from the one before it, or was the first since a deletion. |
| `StateTree.SetEntries` | common/state.c:160-209 | What a set does to the entry and that it does nothing to the others. |
| `StateTree.Store.SetInfo` | common/state.c:160-209 | It changes something exactly if the name is new, or its entry is not immutable and differs by more than case; then the value is in place, name and flags stay, and no other entry changes. |
| `StateTree.Store.DelInfo` | common/state.c:128-156 | Exactly the named entry goes, in any spelling of its name. |
| `StateTree.Store.Remove` | common/state.c:128-156 | The pointer writes turn the shape into the one with the left subtree hung under the right. |
| `StateTree.Store.Find` | common/state.c:588-606 | The walk finds the node of the folded name or tells that there is none. |
| `StateTree.Store.GetInfo` | common/state.c:329-341 | The exposed value is the bounded encoding of the raw one. |
| `StateTree.Store.SetFlags` | drivers/dstate.c:660-682 | The flags of one entry change unless it is immutable, and nothing else. |
| `StateTree.NodeAdd` | common/state.c:100-125 | The subtree is hung at the leftmost place and the branch for a duplicate is never taken. |
| `StateTree.Walk` | common/state.c:588-606 | The place where the search ends, for insertion and deletion alike. |
| `StateTree.ImmutableStays` | common/state.c:160-209 | An immutable entry keeps its value through any operations that do not delete it. |
| `StateTree.ExposedRoundTripIff` | common/state.c:34-55 | Quoting and parsing an exposed value gives back the raw one if and only if it is printable, within the word limit, and its encoding fits. |
| `StateShape.DeletedInOrder` | common/state.c:128-156 | Deletion removes exactly one entry of the in-order sequence. |
| `StateShape.DeletedMap` | common/state.c:128-156 | The tree stays a search tree and exactly one name is unbound. |
| `StateShape.InsertedMap` | common/state.c:160-209 | The tree stays a search tree and exactly one name is bound. |
| `StateShape.HangInOrder` | common/state.c:100-125 | Hanging left under right does not change the order of entries. |
| `StateShape.PlugSearch` | common/state.c:100-125 | A replaced subtree over the same names keeps the search order. |
| `StateShape.Node.ValEscape` | common/state.c:34-55 | The exposed value is the bounded encoding whichever buffer it points into. |
| `StateShape.Node.SetRaw` | common/state.c:160-209 | An overwritten value is in place and its exposed form fits it. |
| `Upssched.EveryRun` | clients/upssched.c:101-238 | In every run each accepted timer is pending, fired or cancelled, exactly one and once; none fires early; none fires after a later-started one unless it was due later; exit exactly after EMPTY_WAIT idle checks in a row and with nothing pending. |
| `Upssched.NothingOverdue` | clients/upssched.c:129-177 | After a check no pending timer is due. |
| `Upssched.EveryTimerAsked` | clients/upssched.c:179-216 | In every run there is one timer for each request with an offset that is not negative, with its name, due that offset after the request. |
| `Upssched.CancelLaw` | clients/upssched.c:218-238 | A cancel takes the earliest pending timer of that name and no other, or runs its command if there is none. |
| `Upssched.CheckLaw` | clients/upssched.c:129-177 | A check fires every pending timer that is due and keeps every other. |
| `Upssched.IdleExits` | clients/upssched.c:129-177 | EMPTY_WAIT checks in a row that find nothing end the daemon. |
| `Upssched.CheckConserves` | clients/upssched.c:129-177 | A check moves timers from the queue to the log one for one. |
| `Upssched.RunInvariant` | clients/upssched.c:101-238 | The three invariants over every run. |
| `Upssched.TimerDaemon.RemoveTimer` | clients/upssched.c:101-127 | Exactly the given timer is spliced out. |
| `Upssched.TimerDaemon.StartTimer` | clients/upssched.c:179-216 | The timer is queued last with its due time. |
| `Upssched.TimerDaemon.CancelTimer` | clients/upssched.c:218-238 | The first timer of that name goes, or the fallback command runs. |
| `Upssched.TimerDaemon.CheckTimers` | clients/upssched.c:129-177 | Fires what is due in queue order, counts idle checks, exits at the limit. |
| `Upssched.TimerDaemon.FireDue` | clients/upssched.c:129-177 | Removing while walking fires exactly the due timers, in order. |
| `Upssched.TimerDaemon.Serve` | clients/upssched.c:129-238 | Any sequence of requests computes the run on values. |
| `Bcmxcp.ChecksumTest` | drivers/bcmxcp.c:289-303 | True if and only if the bytes of the frame add up to zero mod 256. |
| `Bcmxcp.CalcChecksum` | drivers/bcmxcp.c:305-315 | The byte that brings the sum to zero. |
| `Bcmxcp.CommandFrame` | drivers/bcmxcp_ser.c:36-66 | Start byte, length and command in place, and a sum of zero. |
| `Bcmxcp.OneByteIsNoticed` | drivers/bcmxcp.c:289-303 | Changing any one byte but the length byte makes the test fail. |
| `Bcmxcp.AcceptedIff` | drivers/bcmxcp_ser.c:79-201 | An answer is accepted with these data if and only if it is made of correctly numbered, checksummed frames that fit the buffers, with the search for start bytes within its limit. |
| `Bcmxcp.AcceptedAnswers` | drivers/bcmxcp_ser.c:79-201 | Every such answer is put together exactly and what follows it stays unread. |
| `Bcmxcp.SentIsReceived` | drivers/bcmxcp_ser.c:79-201 | Any payload cut into one to seven chunks and framed is received exactly. |
| `Bcmxcp.BlockDecides` | drivers/bcmxcp_ser.c:112-131 | Such frames are accepted if and only if their block number is the one that answers the command. |
| `Bcmxcp.Numbered` | drivers/bcmxcp_ser.c:79-201 | At most seven frames, numbered on from one. |
| `Bcmxcp.Serial.GetAnswer` | drivers/bcmxcp_ser.c:79-201 | The loop fills the caller's array with exactly the accepted answer. |
| `Bcmxcp.Serial.ReadFrame` | drivers/bcmxcp_ser.c:79-201 | One turn of the loop, with all of its refusals. |
| `Bcmxcp.Serial.FindStart` | drivers/bcmxcp_ser.c:79-201 | The search for the start byte, counted over the whole answer. |
| `Apcsmart.Device.SetVarEnum` | drivers/apcsmart.c:1768-1862 | The loop of exchanges, with any faults, ends as the rotation on values says. |
| `Apcsmart.SmallRing` | drivers/apcsmart.c:1768-1862 | On a ring of at most six values: handled if and only if the value is there, and then it is set; otherwise the device is back where it was. |
| `Apcsmart.TruthfulIff` | drivers/apcsmart.c:1768-1862 | On any ring: the answer is right if and only if the value is at most six steps away or, where it is missing, the ring has at most six values. |
| `Apcsmart.FaultFree` | drivers/apcsmart.c:1768-1862 | Where the device ends up, on any ring. |
| `Apcsmart.GaveUpIsHandled` | drivers/apcsmart.c:1768-1862 | Seven values and a value that is none of them: reported as handled. |
| `Apcsmart.HandledDespiteFaults` | drivers/apcsmart.c:1768-1862 | On small rings "handled" is true whatever exchanges fail. |
| `Apcsmart.FaultsFail` | drivers/apcsmart.c:1768-1862 | A request is handled only if it went exactly as it does without faults. |
| `Apcsmart.HandledMeans` | drivers/apcsmart.c:1768-1862 | On any ring and with any faults: the value was reached, or all tries showed other values. |
| `Upslog.CompiledIsInterpreted` | clients/upslog.c:268-360 | Running the compiled calls gives the line that direct interpretation of the format gives. |
| `Upslog.EveryFormatIsRead` | clients/upslog.c:268-340 | Every format is covered completely: the items spell it out again. |
| `Upslog.ReadingIsUnique` | clients/upslog.c:268-340 | A well-formed sequence of items is read back as itself. |
| `Upslog.DoubledPrintsItself` | clients/upslog.c:287-294 | Any text with its percent signs doubled prints as itself, up to the buffer. |
| `Upslog.FieldPrints` | clients/upslog.c:135-231 | What each command prints, in any case and with anything after its name; INVALID and NA for variables. |
| `Upslog.CommandNames` | clients/upslog.h:23-35 | The names of the commands. |
| `Upslog.UnknownPrints` | clients/upslog.c:318-335 | Any other command prints INVALID. |
| `Upslog.UnclosedPrints` | clients/upslog.c:298-306 | A percent sign that nothing closes prints INVALID and the text after it. |
| `Upslog.ContinueStep` | common/common.c:281-296 | Cutting at each call is cutting once at the end. |
| `Upslog.OneMatch` | clients/upslog.c:318-330 | At most one command name matches, so the order of the table does not matter. |
| `Upslog.FindCommand` | clients/upslog.c:318-330 | The search through the table finds that one. |
| `Upslog.Logger.CompileFormat` | clients/upslog.c:268-340 | The loop appends one call for each item of the format. |
| `Upslog.Logger.Print` | common/common.c:281-296 | The buffer keeps at most its size less two characters. |
| `Upslog.Logger.Do` | clients/upslog.c:135-231 | What each function prints, and where it would fail. |
| `Upslog.Logger.RunFlist` | clients/upslog.c:344-360 | The line written by one run of the list. |
| `Upslog.Logger.Log` | clients/upslog.c:488-520 | Compiled once, each line of the log is the interpretation of the format in the world of its moment; no line is written exactly if the format has a TIME field without an argument. |
| `Upslog.NoLineIff` | clients/upslog.c:160-179 | A format cannot be logged, in any world, if and only if it has a TIME field without an argument. |
| `Upslog.TimeWithoutFormat` | clients/upslog.c:160-179 | `%TIME%` is such a format. |

## Left out

- Sockets, TLS, signals, fork, pipes, syslog and system() are outside; what they deliver is a parameter, a script or a trace event.
- Passwords, certificates, host and port names are outside: `upscli_splitname()`, `upscli_splitaddr()` and the authentication dialogue are one outcome of a connection attempt.
- The dispatch of notices to wall, syslog and NOTIFYCMD, the choice of `sleepval`, and the check for a living parent are left out; they do not affect the claims.
- Directives of upsmon.conf other than MONITOR, MINSUPPLIES and the intervals are left out.
- In `common/state.c` the enum and range lists, the command list, the aux field and the dump over the socket are left out; the first two deviate from their comments, the others would add easy members.
- `pconf_file_next()` and the pending word it drops at the end of a file are left out.
- Allocation failure and the replacement C library are left out.
- The upssched client with its retries and the start of the daemon are left out; a lost confirmation may start a timer twice.
- `drivers/bcmxcp_usb.c` and the retries around `get_answer()` and `send_command()` are left out.
- In `setvar_enum()` the conversion is the identity, and the refresh of the variable after the change is left out.
- In `upslog` the time of day, the answers of upsd and strftime() are fixed for one line; the failure of gethostname() is an empty host name.
- The CGI programs, the HID and MIB tables and the other drivers are left out.
- UpsmonEnv.Env.SendFsd: the steps of setfsd() before the answer are one attempt that succeeds or not; a record without a UPS name, for which nothing is sent, is an attempt that fails.
- Lines.Socket.Read: a descriptor at its end, from which the C++ loop would read nothing for ever, is an exception here.
- NutClient.Explode: characters are bytes; the sum that an unknown escape appends is taken modulo 256.
- Bcmxcp.Serial.GetAnswer: a frame that would overrun a buffer ends the model with its own result, since the source has no defined behaviour there.
- Upsmon.UpsMonitor.SlaveSync: the wait ends early in the model when the script of the environment ends; no claim is made for a run that is cut there except that no command was run.
- UpsPoll.CriticalAfterHostsync: the clock readings are assumed not to go backwards past the time at which the poll was read.
