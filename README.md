# Live poll session — a Dafny model

This project models the live-poll session of a classroom polling app. A
teacher broadcasts a question with options and a time limit. Connected
students answer at most once each, everyone sees the running tally, and the
round closes when the time runs out, when every student has answered, or when
the teacher ends it.

The model has four parts, each following the source:

- **The session store** (`server/src/socket/pollState.ts`) is the class
  `PollState.PollStore`. Its fields are the current poll, the roster, the
  answer set and the two timestamps. The roster and the answer set are
  JavaScript `Map`s. They are modelled in `JsMap` as insertion-ordered
  association lists: `Set` on a present key overwrites in place, `Set` on a
  new key appends, `Delete` removes. The tally is never stored. `TallyEngine`
  defines it per option: the first option carrying an id gets the number of
  answers naming that id, and a later duplicate gets 0. The store's
  `GetCurrentResults` loop is proved equal to it.
- **The event router** (`intervue-task-main/server/src/socket/handlers.ts`) is
  the class `Handlers.Router`. There is one method per socket event, and each
  runs as one atomic step on the store. It returns the messages it sends, in
  order: `Private`, `Room(pollId, _)`, `Global`, `ToSocket(socketId, _)`, and
  `JoinRoom` for `socket.join`. A `setTimeout(() => endPoll(io, pollId), d)`
  becomes a pending `EndPollTimer(pollId, due)`. `Fire(i)` runs one of them at
  whatever moment the environment chooses.
- **The client reconciler** (`intervue-task-main/src/context/PollContext.tsx`)
  consists of:
  - the pure merges of `PollContext`, one per server event, over a
    `ViewState`;
  - the remaining-time arithmetic and the countdown;
  - the class `PollContext.PollClient`, which holds the provider's flags
    (`hasAnswered`, `selectedAnswer`, `isKicked`, the `hasJoinedRef` room)
    and the requests the client emits.

  `Date.now()` is the parameter `now`. Server events reach the client as the
  same `Handlers.Event` values the router emits.
- **The question form** (`intervue-task-main/src/pages/teacher/TeacherCreate.tsx`)
  is the class `TeacherCreate.QuestionForm`. It keeps two to six options, edits
  one option at a time, and truncates the question to 100 characters.
  `String.prototype.trim` is modelled over the ECMAScript white-space set.

`Scenarios` states, and proves, the outcome of small concrete sessions that start from a fresh server or client:
- two votes on two options;
- a stale timer closing a newer poll;
- a rejoin that lets a student vote again;
- the client's answer lockout.

The model keeps these behaviours of the code as written:
- `endPoll` checks only that some poll is current. The timer of an earlier
  poll therefore still sends `poll:ended` to the earlier poll's room, with the
  current poll's results (`Scenarios.StaleTimerStillEnds`). The server never
  clears `isActive`.
- `student:join` always builds a record with `hasAnswered = false`. A rejoin
  therefore reopens the gate while the earlier answer stays in the answer set.
  The next accepted answer overwrites that entry instead of adding a second one
  (`Scenarios.RejoinRevotes`).
- The `poll:state` merge recomputes the clock from the poll's `createdAt` and
  `duration`, not from the server's end timestamp. `JoinClockAgreesWithStart`
  shows that the result can be one second more than the start-event clock.
- A client that received `student:kicked` keeps merging every later event;
  only the `isKicked` flag records the kick.
- A disconnect or kick removes the student's answer together with the
  student.
- Persistence calls are awaited inline in the code. Here they are no-ops and
  every handler is one atomic step.

## Model

| member | source | states |
|---|---|---|
| JsMap.Get | server/src/socket/pollState.ts:72 | `Map.get` finds a value exactly when the key is present |
| JsMap.Set | server/src/socket/pollState.ts:63 | after `Map.set` the key maps to the new value, every other key maps to what it did, the size grows only for a new key, and keys stay distinct |
| JsMap.Delete | server/src/socket/pollState.ts:66-69 | `Map.delete` removes exactly the key (a no-op when absent), keeps every other lookup, shrinks the size by one only when the key was present, and invents no entry |
| JsMap.DeleteKeepsOrder | server/src/socket/pollState.ts:66-69 | deleting the key of the entry at position i leaves the entries before and after it in their old order |
| JsMap.SetInPlace | server/src/socket/pollState.ts:62-64 | re-adding a present student keeps every entry at its position and replaces only the one keyed by that id |
| JsMap.SetAppends | server/src/socket/pollState.ts:62-64 | adding a new student appends it at the end of the insertion order |
| JsMap.SizeIsKeyCount | intervue-task-main/server/src/socket/handlers.ts:84-85 | a map's `size` is the number of its distinct keys |
| TallyEngine.Votes | server/src/socket/pollState.ts:96-99 | an option can never get more votes than there are answers |
| TallyEngine.FirstIndex | server/src/socket/pollState.ts:97 | `results.find` picks the first option whose id matches, or none |
| TallyEngine.FirstIndexFinds | server/src/socket/pollState.ts:97-98 | an answer is credited to some option exactly when some option carries its id |
| TallyEngine.Tally | server/src/socket/pollState.ts:88-102 | defines the results: every option of the poll in order, the first option carrying an id credited with the answers naming it, a later duplicate with 0 |
| TallyEngine.TallyKeepsOptions | server/src/socket/pollState.ts:91-94 | the results keep every option in order with its id, text and correctness; only `votes` is recomputed |
| TallyEngine.TallyOfNoAnswers | server/src/socket/pollState.ts:91-94 | with no answers every option has zero votes and the total is zero |
| TallyEngine.TallyStep | server/src/socket/pollState.ts:96-99 | counting one more answer adds one vote to the first matching option and changes nothing else |
| TallyEngine.TallyTotal | server/src/socket/pollState.ts:88-102 | the total of the votes equals the number of answers that name an option |
| TallyEngine.MatchedAll | server/src/socket/pollState.ts:96-99 | every answer is matched exactly when every answer names an option |
| TallyEngine.TotalVotes | server/src/socket/pollState.ts:88-102 | the total of the votes is at most `answers.size`, and equal to it exactly when every answered id is an option id |
| TallyEngine.VotesCountVoters | server/src/socket/pollState.ts:96-99 | an option's votes equal the number of distinct students whose answer is that option |
| PollState.ClearAnswered | server/src/socket/pollState.ts:56-59 | the reset roster has the same students in the same order with the same ids, connections and names, none answered and none with an answer id |
| PollState.StudentsList | server/src/socket/pollState.ts:84-86 | one view per student, in insertion order, with every field but `socketId` unchanged |
| PollState.ResetKeepsRoster | server/src/socket/pollState.ts:50-60 | a reset keeps the set of student ids and the roster's well-formedness, and lets exactly the students on the roster answer again |
| PollState.AnsweredClosesGate | server/src/socket/pollState.ts:71-82 | after an accepted answer the same student can no longer pass the gate |
| PollState.AllAnsweredIffSizesAgree | intervue-task-main/server/src/socket/handlers.ts:84-87 | when every answer belongs to a student on the roster, `answers.size <= students.size`, with equality exactly when every roster key has an entry in the answer set |
| PollState.PollStore.constructor | server/src/socket/pollState.ts:42-48 | the store starts with no poll, no students, no answers and no timestamps |
| PollState.PollStore.Reset | server/src/socket/pollState.ts:50-60 | the poll, both timestamps and every answer are gone; the roster is the cleared roster, in the same order |
| PollState.PollStore.AddStudent | server/src/socket/pollState.ts:62-64 | exactly the entry keyed by the student's id is inserted or replaced; the answers and the poll stay; every answer still belongs to a student on the roster |
| PollState.PollStore.RemoveStudent | server/src/socket/pollState.ts:66-69 | the id leaves both the roster and the answer set, every other entry stays, and an unknown id changes nothing |
| PollState.CanAnswer | server/src/socket/pollState.ts:72-75 | the gate of `submitAnswer`: the student is on the roster and not yet marked as answered; only a present student can pass it |
| PollState.PollStore.SubmitAnswer | server/src/socket/pollState.ts:71-82 | accepted exactly when the student is present and has not answered; then the student is marked with the option and the answer recorded; a refusal changes nothing; either way the student cannot pass the gate again |
| PollState.FindOption | server/src/socket/pollState.ts:97 | the search loop returns the position of the first option carrying the answer's id, or the number of options when none does |
| PollState.PollStore.GetCurrentResults | server/src/socket/pollState.ts:88-102 | no poll gives `[]`; otherwise the loop's result is the tally of the answer set over the poll's options |
| Handlers.FirstWithSocket | intervue-task-main/server/src/socket/handlers.ts:224-225 | the position of the first roster entry, in iteration order, on the given connection, or the roster's length |
| Handlers.Router.Join | intervue-task-main/server/src/socket/handlers.ts:20-53 | the student is inserted or replaced with `hasAnswered = false`, so the student may answer; the socket joins the room; a private snapshot of the poll and the roster goes out, then the roster goes to the room; the answers stay |
| Handlers.Router.SubmitAnswer | intervue-task-main/server/src/socket/handlers.ts:56-92 | a refused answer sends only a private error and changes nothing; an accepted one is recorded and the results go to the room; a close is scheduled 1000 ms later exactly when the roster is non-empty and every roster key has an entry in the answer set (not the `hasAnswered` flag, which a rejoin clears while the answer stays) |
| Handlers.Router.Begin | intervue-task-main/server/src/socket/handlers.ts:98-101 | a reset store holding the new poll, its start time and its end time, and a close scheduled at the end time |
| Handlers.Router.StartPoll | intervue-task-main/server/src/socket/handlers.ts:95-136 | reset and install the poll, let every student on the roster answer again with no option voted, join the teacher's socket to the room, send `poll:started` with the end time to everybody, and schedule the close |
| Handlers.Router.NextQuestion | intervue-task-main/server/src/socket/handlers.ts:145-165 | as starting a poll, but sends `poll:new_question` and joins no room |
| Handlers.Router.EndPoll | intervue-task-main/server/src/socket/handlers.ts:245-260 | nothing without a poll; otherwise the current results and the roster go to the given poll's room, whichever poll is current, and the store is untouched |
| Handlers.Router.EndPollRequested | intervue-task-main/server/src/socket/handlers.ts:139-142 | the teacher's close behaves as `endPoll` for the given id |
| Handlers.Router.Fire | intervue-task-main/server/src/socket/handlers.ts:133-135 | a fired timer leaves the pending list and closes the room it was scheduled for, even when that poll is no longer current |
| Handlers.Router.SendChat | intervue-task-main/server/src/socket/handlers.ts:168-191 | exactly one chat message goes to the poll's room; nothing else changes |
| Handlers.Router.KickStudent | intervue-task-main/server/src/socket/handlers.ts:194-219 | for a student on the roster, `student:kicked` first goes to that student's connection, then the student and their answer are removed and the roster goes to the room; an unknown id is a no-op |
| Handlers.Router.Disconnect | intervue-task-main/server/src/socket/handlers.ts:222-241 | only the first student on the closing connection is removed, with their answer; the roster goes to the current poll's room only when a poll is current |
| PollContext.WholeSeconds | intervue-task-main/src/context/PollContext.tsx:146 | `Math.floor(ms / 1000)`: the largest whole number of seconds not exceeding the interval |
| PollContext.RemainingAtJoin | intervue-task-main/src/context/PollContext.tsx:146-147 | never negative; the duration less the whole seconds elapsed since creation; zero exactly when the duration has passed |
| PollContext.RemainingUntil | intervue-task-main/src/context/PollContext.tsx:160 | never negative; the whole seconds left until the end time; zero within the last second |
| PollContext.JoinClockAgreesWithStart | intervue-task-main/src/context/PollContext.tsx:146-160 | against the same end time, the snapshot clock is the start clock or one second more, and the two agree on whole seconds |
| PollContext.RemainingNeverGrows | intervue-task-main/src/context/PollContext.tsx:160 | receiving the same end time later never shows more time |
| PollContext.Tick | intervue-task-main/src/context/PollContext.tsx:273-282 | a tick never goes negative, strictly decreases a positive count, and is either 0 or one less |
| PollContext.CountdownRunning | intervue-task-main/src/context/PollContext.tsx:271 | defines the condition under which the countdown interval runs: an active poll is shown and time remains |
| PollContext.TickView | intervue-task-main/src/context/PollContext.tsx:270-289 | the interval only runs while the poll is active and time remains, and then only the remaining time decreases |
| PollContext.CountdownAfter | intervue-task-main/src/context/PollContext.tsx:270-289 | after `n` seconds of an active poll, `max(0, t - n)` seconds remain; an inactive poll's clock never moves |
| PollContext.AnsweredCount | intervue-task-main/src/context/PollContext.tsx:373 | the number of students whose `hasAnswered` flag is set (`AnsweredCountIsCount`): at most the roster size, and equal to it exactly when every flag is set |
| PollContext.AnsweredCountIsCount | intervue-task-main/src/context/PollContext.tsx:373 | the count shown is the size of the set of roster positions whose `hasAnswered` flag is set |
| PollContext.CanAskNewQuestion | intervue-task-main/src/context/PollContext.tsx:374-377 | with an active poll shown, a new question may be asked exactly when the roster is non-empty and every student on it has the `hasAnswered` flag set; with no poll or an ended one, always |
| PollContext.OnPollState | intervue-task-main/src/context/PollContext.tsx:144-156 | a snapshot with a poll replaces the poll and the roster and restarts the clock from the poll's creation; one without a poll changes nothing |
| PollContext.OnRoundStart | intervue-task-main/src/context/PollContext.tsx:159-184 | the new poll and its clock; the roster keeps last round's answered marks, so the teacher may ask again exactly when the poll is inactive or every listed student was marked |
| PollContext.OnUpdateResults | intervue-task-main/src/context/PollContext.tsx:187-196 | only the options of the shown poll and the roster change; no poll stays no poll |
| PollContext.OnEnded | intervue-task-main/src/context/PollContext.tsx:199-213 | final options, an inactive poll and a zero clock; the countdown stops and the teacher may ask the next question |
| PollContext.Merge | intervue-task-main/src/context/PollContext.tsx:143-234 | no event makes the clock negative and the history never changes; a chat message is appended to the chat and changes nothing else; a participants update replaces only the roster; a kick notice or an error leaves the view unchanged |
| PollContext.WithoutStudent | intervue-task-main/src/context/PollContext.tsx:356-359 | the local roster keeps exactly the students with another id (membership); order and repeats are pinned by `WithoutStudentAppend` and `WithoutStudentSingle` |
| PollContext.WithoutStudentAppend | intervue-task-main/src/context/PollContext.tsx:356-359 | the filter works entry by entry: filtering a concatenation is the concatenation of the filtered parts, in order |
| PollContext.WithoutStudentSingle | intervue-task-main/src/context/PollContext.tsx:356-359 | a single student is kept exactly when the id is not theirs; with `WithoutStudentAppend` this makes the local kick the order-preserving filter, repeats included |
| PollContext.WithoutStudentKeepsOrder | intervue-task-main/src/context/PollContext.tsx:356-359 | on a roster with distinct ids, kicking the student at position i leaves everyone before and after them in the same order |
| PollContext.OptionIdsDiffer | intervue-task-main/src/context/PollContext.tsx:303 | options built at the same instant get different ids |
| PollContext.BuildPoll | intervue-task-main/src/context/PollContext.tsx:298-311 | the drafted options in order with no votes and pairwise different ids; the poll is active and created now |
| PollContext.BuiltPollCountsEveryOption | intervue-task-main/src/context/PollContext.tsx:302-307 | in a poll built by the client every option is credited with exactly the answers naming it |
| PollContext.JoinTarget | intervue-task-main/src/context/PollContext.tsx:254 | the shown poll's id, or "waiting" when there is no poll or its id is empty |
| PollContext.PollClient.constructor | intervue-task-main/src/context/PollContext.tsx:78-94 | the provider starts with an empty view and every flag cleared |
| PollContext.PollClient.SetRole | intervue-task-main/src/context/PollContext.tsx:78 | only the role changes |
| PollContext.PollClient.SetStudentName | intervue-task-main/src/context/PollContext.tsx:79 | only the name changes |
| PollContext.PollClient.Receive | intervue-task-main/src/context/PollContext.tsx:139-234 | the view is merged; a new round clears the local answer and nothing else clears it; `isKicked` becomes true on a kick and never becomes false |
| PollContext.PollClient.CountdownStep | intervue-task-main/src/context/PollContext.tsx:270-289 | one second of the countdown; the flags do not change |
| PollContext.PollClient.SyncJoin | intervue-task-main/src/context/PollContext.tsx:249-267 | a named student joins the room of the shown poll once; running the effect again sends nothing until that room changes |
| PollContext.PollClient.CreatePoll | intervue-task-main/src/context/PollContext.tsx:291-319 | one start request carrying the built poll, and the local answer cleared |
| PollContext.PollClient.SubmitAnswer | intervue-task-main/src/context/PollContext.tsx:321-333 | nothing after an answer or without a poll; otherwise one request and the answer recorded, so a second call sends nothing |
| PollContext.PollClient.SendMessage | intervue-task-main/src/context/PollContext.tsx:335-344 | a chat request to the shown poll, signed "Teacher" for the teacher and with the student's name otherwise; nothing without a poll |
| PollContext.PollClient.KickStudent | intervue-task-main/src/context/PollContext.tsx:346-360 | with a poll shown, a kick request, and the student dropped from the local roster at once |
| PollContext.PollClient.AskNewQuestion | intervue-task-main/src/context/PollContext.tsx:362-370 | a close request for the shown poll, if any, and the local answer cleared |
| TeacherCreate.Trim | intervue-task-main/src/pages/teacher/TeacherCreate.tsx:55 | the trimmed text is empty exactly when the text is all white space, and otherwise starts and ends with content |
| TeacherCreate.TrimIsInfix | intervue-task-main/src/pages/teacher/TeacherCreate.tsx:55 | trimming cuts white space off both ends and nothing else |
| TeacherCreate.IsValid | intervue-task-main/src/pages/teacher/TeacherCreate.tsx:55 | defines `isValid`: the trimmed question and every trimmed option text are non-empty |
| TeacherCreate.IsValidIffContent | intervue-task-main/src/pages/teacher/TeacherCreate.tsx:55 | the form is valid exactly when the question and every option contain a character other than white space |
| TeacherCreate.QuestionForm.constructor | intervue-task-main/src/pages/teacher/TeacherCreate.tsx:15-20 | an empty question, two blank options with only the first correct, and 60 seconds |
| TeacherCreate.QuestionForm.AddOption | intervue-task-main/src/pages/teacher/TeacherCreate.tsx:30-34 | a blank, incorrect option is appended only below six, so there are always two to six |
| TeacherCreate.QuestionForm.ChangeOptionText | intervue-task-main/src/pages/teacher/TeacherCreate.tsx:36-40 | only the text of the option at the index changes |
| TeacherCreate.QuestionForm.ChangeCorrect | intervue-task-main/src/pages/teacher/TeacherCreate.tsx:42-46 | only the correctness of the option at the index changes |
| TeacherCreate.QuestionForm.EditQuestion | intervue-task-main/src/pages/teacher/TeacherCreate.tsx:111 | the question is the typed text cut to its first 100 characters |
| TeacherCreate.QuestionForm.ChooseDuration | intervue-task-main/src/pages/teacher/TeacherCreate.tsx:90-96 | a duration from the menu is stored |
| TeacherCreate.QuestionForm.AskQuestion | intervue-task-main/src/pages/teacher/TeacherCreate.tsx:48-53 | a request exactly when the form is valid, carrying the trimmed question, the options as typed and the duration |
| Scenarios.JoinWhileIdle | intervue-task-main/server/src/socket/handlers.ts:20-53 | a student joining with no poll gets a snapshot without a poll and appears, not answered, on the room's roster |
| Scenarios.TwoStudentsTwoVotes | intervue-task-main/server/src/socket/handlers.ts:56-92 | two students voting for two options give one vote each, and only the second answer schedules the close |
| Scenarios.StaleTimerStillEnds | intervue-task-main/server/src/socket/handlers.ts:245-260 | the first poll's timer, fired after the next question, still sends `poll:ended` to the first poll's room |
| Scenarios.RejoinRevotes | intervue-task-main/server/src/socket/handlers.ts:23-28 | a second answer is refused, but after a rejoin it is accepted and replaces the first |
| Scenarios.ClientAnswersOnce | intervue-task-main/src/context/PollContext.tsx:321-333 | of two clicks in one round the client sends only the first |

## Left out

- Persistence: every Supabase call in the handlers, and `fetchPollHistory`. The calls are no-ops, and `pollHistory` never changes in the model.
- Interleaving at the `await`s: each handler runs as one atomic step. In the code another event can run between, for example, `submitAnswer` and the results broadcast.
- Transport: Socket.io delivery and room membership. Messages are returned as lists, and `JoinRoom` records the join without tracking who is in which room.
- Server bootstrap, all `console.log` logging, and the client's `socket.off` cleanup.
- Wall-clock time: each handler takes a single `now`, although the code calls `Date.now()` separately for the start time, the end time, the option ids and `createdAt`.
- Handlers.Router.Fire: does not require the timer to be due. The environment decides when and in which order timers fire. Cancellation and `clearInterval` are not modelled.
- PollContext.PollClient.CountdownStep: the `setInterval` handle (`timerRef`) and its restart on every dependency change are not modelled. Each call is one interval tick.
- Random and time-based ids: the student id, the chat message id and the poll id are inputs.
- React scheduling: batched `setState` and callbacks that capture stale state are not modelled. Each method sees the latest fields.
- PollContext.PollClient.CreatePoll: the `loading` flag is not modelled, since the same call sets and then clears it.
- TeacherCreate.QuestionForm.ChangeOptionText: the option list is a value. The code copies the array shallowly and mutates the shared option object.
- TeacherCreate.QuestionForm.ChangeCorrect: the option list is a value. The code copies the array shallowly and mutates the shared option object's `isCorrect`.
- TeacherCreate.QuestionForm.EditQuestion: lengths count Unicode scalar values. JavaScript counts UTF-16 code units, so the two differ for text outside the Basic Multilingual Plane.
- The client's `ChatMessage` declares its sender field as `oderId`. The model uses the `userId` the server sends.
- Rendering and navigation, percentage bars and the CSV export, which are presentation only.
