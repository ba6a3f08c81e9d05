/**
 * The client's mirror of the session: what the React provider keeps, how each
 * server event is merged into it, the countdown, and the requests the client
 * sends. `Date.now()` is the parameter `now`; the random student id is an
 * input of the constructor.
 */
module PollContext {
  import opened Common
  import opened PollTypes
  import opened TallyEngine
  import opened Handlers

  /** The provider's `state`. */
  datatype ViewState = ViewState(
    currentPoll: Option<Poll>,
    pollHistory: seq<Poll>,
    students: seq<StudentView>,
    chatMessages: seq<ChatMessage>,
    timeRemaining: int)

  const InitialView: ViewState := ViewState(None, [], [], [], 0)

  // ----- remaining time -----

  /** `Math.floor(ms / 1000)`: Dafny's division by a positive divisor already
      rounds toward negative infinity. */
  function WholeSeconds(ms: int): (s: int)
    ensures s * 1000 <= ms < s * 1000 + 1000
  {
    ms / 1000
  }

  /** 'poll:state': the poll's duration less the whole seconds elapsed since
      it was created, never below zero. */
  function RemainingAtJoin(poll: Poll, now: int): (r: int)
    ensures r >= 0
    ensures r > 0 ==>
      (poll.duration - r) * 1000 <= now - poll.createdAt < (poll.duration - r) * 1000 + 1000
    ensures now - poll.createdAt >= poll.duration * 1000 ==> r == 0
    ensures now - poll.createdAt < poll.duration * 1000 ==> r > 0
  {
    Max(0, poll.duration - WholeSeconds(now - poll.createdAt))
  }

  /** 'poll:started' and 'poll:new_question': the whole seconds left until
      `timerEnds`, never below zero. */
  function RemainingUntil(timerEnds: int, now: int): (r: int)
    ensures r >= 0
    ensures timerEnds - now >= 0 ==> r * 1000 <= timerEnds - now < r * 1000 + 1000
    ensures timerEnds - now < 1000 ==> r == 0
  {
    Max(0, WholeSeconds(timerEnds - now))
  }

  /** The two clocks against the same end time: a client that joins late can
      show one second more than one that heard the start, never less, and
      the two agree whenever the elapsed time is a whole number of seconds. */
  lemma JoinClockAgreesWithStart(poll: Poll, now: int)
    ensures RemainingUntil(poll.createdAt + poll.duration * 1000, now) <= RemainingAtJoin(poll, now)
    ensures RemainingAtJoin(poll, now) <= RemainingUntil(poll.createdAt + poll.duration * 1000, now) + 1
    ensures (now - poll.createdAt) % 1000 == 0 ==>
      RemainingAtJoin(poll, now) == RemainingUntil(poll.createdAt + poll.duration * 1000, now)
  {
    var e := now - poll.createdAt;
    var a := WholeSeconds(e);
    var b := WholeSeconds(poll.duration * 1000 - e);
    assert poll.createdAt + poll.duration * 1000 - now == poll.duration * 1000 - e;
    assert b * 1000 <= (poll.duration - a) * 1000;
    assert (poll.duration - a - 1) * 1000 < b * 1000 + 1000;
    if e % 1000 == 0 {
      assert e == a * 1000;
      assert poll.duration * 1000 - e == (poll.duration - a) * 1000;
    }
  }

  /** Waiting never adds time. */
  lemma RemainingNeverGrows(timerEnds: int, earlier: int, later: int)
    requires earlier <= later
    ensures RemainingUntil(timerEnds, later) <= RemainingUntil(timerEnds, earlier)
  {
    var x, y := WholeSeconds(timerEnds - later), WholeSeconds(timerEnds - earlier);
    assert x * 1000 < y * 1000 + 1000;
  }

  // ----- the countdown -----

  /** One step of the interval: `t <= 1` becomes 0, anything else `t - 1`. */
  function Tick(t: int): (r: int)
    ensures r >= 0
    ensures t > 0 ==> r < t
    ensures r == 0 || r == t - 1
  {
    if t <= 1 then 0 else t - 1
  }

  /** The interval runs only while the poll is active and time is left. */
  predicate CountdownRunning(v: ViewState) {
    v.currentPoll.Some? && v.currentPoll.value.isActive && v.timeRemaining > 0
  }

  /** One second of the countdown on the whole view. */
  function TickView(v: ViewState): (r: ViewState)
    ensures r == v.(timeRemaining := r.timeRemaining)
    ensures CountdownRunning(v) ==> 0 <= r.timeRemaining < v.timeRemaining
    ensures !CountdownRunning(v) ==> r == v
  {
    if CountdownRunning(v) then v.(timeRemaining := Tick(v.timeRemaining)) else v
  }

  /** `n` seconds of the countdown. */
  function Countdown(v: ViewState, n: nat): ViewState
    decreases n
  {
    if n == 0 then v else Countdown(TickView(v), n - 1)
  }

  /** After `n` seconds of an active poll, `max(0, t - n)` seconds are left:
      the count never goes below zero and stops there. Nothing but the
      remaining time changes. */
  lemma {:induction false} CountdownAfter(v: ViewState, n: nat)
    requires v.timeRemaining >= 0
    ensures Countdown(v, n) == v.(timeRemaining := Countdown(v, n).timeRemaining)
    ensures v.currentPoll.Some? && v.currentPoll.value.isActive ==>
      Countdown(v, n).timeRemaining == Max(0, v.timeRemaining - n)
    ensures !(v.currentPoll.Some? && v.currentPoll.value.isActive) ==> Countdown(v, n) == v
    decreases n
  {
    if n > 0 {
      CountdownAfter(TickView(v), n - 1);
    }
  }

  // ----- derived values -----

  /** `answeredCount`: the students marked as having answered. */
  function AnsweredCount(students: seq<StudentView>): (n: nat)
    ensures n <= |students|
    ensures n == |students| <==> forall i :: 0 <= i < |students| ==> students[i].hasAnswered
  {
    if |students| == 0 then 0
    else AnsweredCount(students[..|students| - 1]) + (if students[|students| - 1].hasAnswered then 1 else 0)
  }

  /** The positions of the students whose `hasAnswered` flag is set. */
  ghost function AnsweredIndices(students: seq<StudentView>): set<nat> {
    set i: nat | i < |students| && students[i].hasAnswered
  }

  /** `answeredCount` is the number of students with the flag set. */
  lemma {:induction false} AnsweredCountIsCount(students: seq<StudentView>)
    ensures AnsweredCount(students) == |AnsweredIndices(students)|
  {
    if |students| > 0 {
      var last := |students| - 1;
      var init := students[..last];
      AnsweredCountIsCount(init);
      assert AnsweredIndices(students) ==
        AnsweredIndices(init) + (if students[last].hasAnswered then {last} else {}) by {
        forall i: nat | i < last ensures students[i] == init[i] { }
      }
      assert last !in AnsweredIndices(init);
    } else {
      assert AnsweredIndices(students) == {};
    }
  }

  /** `canAskNewQuestion`: with an active poll shown, exactly when the
      roster is non-empty and everyone on it has answered. */
  predicate CanAskNewQuestion(v: ViewState): (r: bool)
    ensures v.currentPoll.Some? && v.currentPoll.value.isActive ==>
      (r <==> |v.students| > 0 && forall i :: 0 <= i < |v.students| ==> v.students[i].hasAnswered)
    ensures v.currentPoll.None? || !v.currentPoll.value.isActive ==> r
  {
    v.currentPoll.None? || !v.currentPoll.value.isActive ||
    (|v.students| > 0 && AnsweredCount(v.students) == |v.students|)
  }

  // ----- merging server events -----

  /** 'poll:state': a snapshot with a poll replaces the poll and the roster
      and restarts the clock from the poll's creation; a snapshot without a
      poll is ignored altogether. */
  function OnPollState(prev: ViewState, poll: Option<Poll>, students: seq<StudentView>, now: int)
    : (r: ViewState)
    ensures poll.None? ==> r == prev
    ensures poll.Some? ==>
      r.currentPoll == poll && r.students == students &&
      r.timeRemaining == RemainingAtJoin(poll.value, now) &&
      r.pollHistory == prev.pollHistory && r.chatMessages == prev.chatMessages
  {
    match poll
    case None => prev
    case Some(p) => prev.(currentPoll := poll, students := students, timeRemaining := RemainingAtJoin(p, now))
  }

  /** 'poll:started' and 'poll:new_question': the new poll and its clock.
      The roster is NOT replaced, so the answered marks of the previous
      round stay until the next roster update, and with them the permission
      to ask another question. */
  function OnRoundStart(prev: ViewState, poll: Poll, timerEnds: int, now: int): (r: ViewState)
    ensures r.currentPoll == Some(poll) && r.timeRemaining == RemainingUntil(timerEnds, now)
    ensures r.students == prev.students && r.pollHistory == prev.pollHistory &&
      r.chatMessages == prev.chatMessages
    ensures CanAskNewQuestion(r) <==>
      !poll.isActive || (|prev.students| > 0 && forall i :: 0 <= i < |prev.students| ==> prev.students[i].hasAnswered)
  {
    prev.(currentPoll := Some(poll), timeRemaining := RemainingUntil(timerEnds, now))
  }

  /** 'poll:update_results': new options for the poll shown (whatever its
      id), every other field of the poll kept; with no poll shown only the
      roster changes. */
  function OnUpdateResults(prev: ViewState, results: seq<PollOption>, students: seq<StudentView>)
    : (r: ViewState)
    ensures prev.currentPoll.None? ==> r.currentPoll.None?
    ensures prev.currentPoll.Some? ==> r.currentPoll == Some(prev.currentPoll.value.(options := results))
    ensures r.students == students && r.timeRemaining == prev.timeRemaining
    ensures r.pollHistory == prev.pollHistory && r.chatMessages == prev.chatMessages
  {
    prev.(currentPoll := if prev.currentPoll.Some? then Some(prev.currentPoll.value.(options := results)) else None,
          students := students)
  }

  /** 'poll:ended': final options, the poll marked inactive and the clock at
      zero; afterwards the countdown is stopped and the teacher may always
      ask the next question. */
  function OnEnded(prev: ViewState, results: seq<PollOption>, students: seq<StudentView>)
    : (r: ViewState)
    ensures prev.currentPoll.None? ==> r.currentPoll.None?
    ensures prev.currentPoll.Some? ==>
      r.currentPoll == Some(prev.currentPoll.value.(options := results, isActive := false))
    ensures r.students == students && r.timeRemaining == 0
    ensures r.pollHistory == prev.pollHistory && r.chatMessages == prev.chatMessages
    ensures !CountdownRunning(r) && CanAskNewQuestion(r)
  {
    prev.(currentPoll := if prev.currentPoll.Some? then Some(prev.currentPoll.value.(options := results, isActive := false)) else None,
          students := students,
          timeRemaining := 0)
  }

  /** The state merge for one server event. */
  function Merge(prev: ViewState, ev: Event, now: int): (r: ViewState)
    ensures prev.timeRemaining >= 0 ==> r.timeRemaining >= 0
    ensures r.pollHistory == prev.pollHistory
    ensures |r.chatMessages| == |prev.chatMessages| + (if ev.ChatBroadcast? then 1 else 0)
    ensures ev.ChatBroadcast? ==> r == prev.(chatMessages := prev.chatMessages + [ev.message])
    ensures ev.UpdateParticipants? ==> r == prev.(students := ev.students)
    ensures ev.Kicked? || ev.ErrorNotice? ==> r == prev
  {
    match ev
    case PollStateSnapshot(poll, students) => OnPollState(prev, poll, students, now)
    case PollStarted(poll, timerEnds) => OnRoundStart(prev, poll, timerEnds, now)
    case NewQuestion(poll, timerEnds) => OnRoundStart(prev, poll, timerEnds, now)
    case UpdateResults(results, students) => OnUpdateResults(prev, results, students)
    case PollEnded(results, students) => OnEnded(prev, results, students)
    case UpdateParticipants(students) => prev.(students := students)
    case ChatBroadcast(message) => prev.(chatMessages := prev.chatMessages + [message])
    case Kicked => prev
    case ErrorNotice(_) => prev
  }

  /** `kickStudent`'s local update: every student but the kicked one, in the
      same order. */
  function WithoutStudent(students: seq<StudentView>, id: string): (r: seq<StudentView>)
    ensures |r| <= |students|
    ensures forall s :: s in r <==> s in students && s.id != id
    ensures (forall i :: 0 <= i < |students| ==> students[i].id != id) ==> r == students
  {
    if |students| == 0 then []
    else
      var rest := WithoutStudent(students[1..], id);
      assert students == [students[0]] + students[1..];
      if students[0].id == id then rest else [students[0]] + rest
  }

  /** The filter works entry by entry: filtering a concatenation filters
      each part and keeps them in order. With the one-student case below this
      pins `WithoutStudent` down as the order-preserving filter, repeats
      included. */
  lemma {:induction false} WithoutStudentAppend(a: seq<StudentView>, b: seq<StudentView>, id: string)
    ensures WithoutStudent(a + b, id) == WithoutStudent(a, id) + WithoutStudent(b, id)
  {
    if |a| > 0 {
      assert (a + b)[0] == a[0] && (a + b)[1..] == a[1..] + b;
      WithoutStudentAppend(a[1..], b, id);
    } else {
      assert a + b == b;
    }
  }

  /** A single student is kept exactly when the id is not theirs. */
  lemma WithoutStudentSingle(s: StudentView, id: string)
    ensures WithoutStudent([s], id) == if s.id == id then [] else [s]
  {
    assert [s][1..] == [];
  }

  /** On a roster with distinct ids, kicking the student at position `i`
      leaves everyone before and after them, in the same order. */
  lemma WithoutStudentKeepsOrder(students: seq<StudentView>, i: nat)
    requires i < |students|
    requires forall p, q :: 0 <= p < q < |students| ==> students[p].id != students[q].id
    ensures WithoutStudent(students, students[i].id) == students[..i] + students[i + 1..]
  {
    WithoutStudentAround(students, i);
    OthersKept(students, i);
  }

  /** Filtering around position `i`: the parts before and after it are
      filtered separately and the student at `i` is dropped. */
  lemma WithoutStudentAround(students: seq<StudentView>, i: nat)
    requires i < |students|
    ensures WithoutStudent(students, students[i].id) ==
      WithoutStudent(students[..i], students[i].id) + WithoutStudent(students[i + 1..], students[i].id)
  {
    var id := students[i].id;
    var before, after := students[..i], students[i + 1..];
    SplitAt(students, i);
    WithoutStudentAppend(before, [students[i]] + after, id);
    WithoutStudentAppend([students[i]], after, id);
    WithoutStudentSingle(students[i], id);
    assert [] + WithoutStudent(after, id) == WithoutStudent(after, id);
  }

  /** A sequence is what precedes position `i`, the element there, and what
      follows. */
  lemma SplitAt<T>(xs: seq<T>, i: nat)
    requires i < |xs|
    ensures xs == xs[..i] + ([xs[i]] + xs[i + 1..])
  {
  }

  /** With distinct ids nobody but the student at `i` carries that id. */
  lemma OthersKept(students: seq<StudentView>, i: nat)
    requires i < |students|
    requires forall p, q :: 0 <= p < q < |students| ==> students[p].id != students[q].id
    ensures WithoutStudent(students[..i], students[i].id) == students[..i]
    ensures WithoutStudent(students[i + 1..], students[i].id) == students[i + 1..]
  {
    var before, after := students[..i], students[i + 1..];
    forall p | 0 <= p < |before| ensures before[p].id != students[i].id {
      assert before[p] == students[p];
    }
    forall p | 0 <= p < |after| ensures after[p].id != students[i].id {
      assert after[p] == students[i + 1 + p];
    }
  }

  // ----- ids built by createPoll -----

  /** `n.toString()` for a non-negative integer. */
  function Dec(n: nat): (s: string)
    ensures |s| >= 1 && (|s| == 1 <==> n < 10)
    ensures forall i :: 0 <= i < |s| ==> '0' <= s[i] <= '9'
  {
    if n < 10 then [(n + '0' as int) as char]
    else Dec(n / 10) + [(n % 10 + '0' as int) as char]
  }

  /** Different numbers print differently. */
  lemma {:induction false} DecInjective(a: nat, b: nat)
    requires Dec(a) == Dec(b)
    ensures a == b
  {
    if a >= 10 && b >= 10 {
      var da, db := Dec(a), Dec(b);
      assert da[..|da| - 1] == Dec(a / 10);
      assert db[..|db| - 1] == Dec(b / 10);
      DecInjective(a / 10, b / 10);
      assert da[|da| - 1] == db[|db| - 1];
    } else {
      assert |Dec(a)| == |Dec(b)|;
      assert Dec(a)[0] == Dec(b)[0];
    }
  }

  function PollIdAt(now: nat): string {
    "poll_" + Dec(now)
  }

  function OptionIdAt(index: nat, now: nat): string {
    "opt_" + Dec(index) + "_" + Dec(now)
  }

  /** Options built at the same instant get different ids. */
  lemma OptionIdsDiffer(i: nat, j: nat, now: nat)
    requires i != j
    ensures OptionIdAt(i, now) != OptionIdAt(j, now)
  {
    var a, b := Dec(i), Dec(j);
    var x, y := OptionIdAt(i, now), OptionIdAt(j, now);
    if |a| == |b| {
      if a == b {
        DecInjective(i, j);
      }
      var k :| 0 <= k < |a| && a[k] != b[k];
      assert x[4 + k] == a[k] && y[4 + k] == b[k];
    } else if |a| < |b| {
      assert x[4 + |a|] == '_' && y[4 + |a|] == b[|a|];
    } else {
      assert y[4 + |b|] == '_' && x[4 + |b|] == a[|b|];
    }
  }

  /** `createPoll`'s poll: the drafted options in order, each with an id built
      from its index and the clock and no votes, active, created now. */
  function BuildPoll(question: string, drafts: seq<OptionDraft>, duration: int, now: nat): (p: Poll)
    ensures p.id == PollIdAt(now) && p.question == question && p.duration == duration
    ensures p.createdAt == now && p.isActive
    ensures |p.options| == |drafts|
    ensures forall i :: 0 <= i < |drafts| ==>
      p.options[i].text == drafts[i].text && p.options[i].isCorrect == drafts[i].isCorrect &&
      p.options[i].votes == 0
    ensures forall i, j :: 0 <= i < j < |p.options| ==> p.options[i].id != p.options[j].id
  {
    var options := seq(|drafts|, i requires 0 <= i < |drafts| =>
      PollOption(OptionIdAt(i, now), drafts[i].text, drafts[i].isCorrect, 0));
    assert forall i, j :: 0 <= i < j < |options| ==> options[i].id != options[j].id by {
      forall i, j | 0 <= i < j < |options| ensures options[i].id != options[j].id {
        OptionIdsDiffer(i, j, now);
      }
    }
    Poll(PollIdAt(now), question, options, duration, now, true)
  }

  /** A poll built by `createPoll` has no repeated option id, so the tally
      credits every option with exactly the answers naming it. */
  lemma BuiltPollCountsEveryOption(question: string, drafts: seq<OptionDraft>, duration: int, now: nat,
                                   answers: Answers)
    ensures forall i :: 0 <= i < |drafts| ==>
      Tally(BuildPoll(question, drafts, duration, now).options, answers)[i].votes ==
      Votes(answers, BuildPoll(question, drafts, duration, now).options[i].id)
  {
    var options := BuildPoll(question, drafts, duration, now).options;
    forall i | 0 <= i < |drafts| ensures FirstIndex(options, options[i].id) == i {
      FirstIndexFinds(options, options[i].id);
    }
  }

  // ----- the provider -----

  datatype Role = NoRole | StudentRole | TeacherRole

  /** What the client emits, by event name. */
  datatype Request =
    | JoinRequest(studentId: string, name: string, pollId: string)           // 'student:join'
    | StartPollRequest(pollId: string, poll: Poll)                          // 'teacher:start_poll'
    | AnswerRequest(studentId: string, pollId: string, optionId: string)    // 'student:submit_answer'
    | ChatRequest(pollId: string, userId: string, userName: string, text: string) // 'chat:send'
    | KickRequest(pollId: string, studentId: string)                        // 'teacher:kick_student'
    | EndPollRequest(pollId: string)                                        // 'teacher:end_poll'

  /** The room a student joins: the shown poll's id, or "waiting" when there
      is no poll or its id is empty. */
  function JoinTarget(v: ViewState): (pollId: string)
    ensures pollId != ""
    ensures v.currentPoll.Some? && v.currentPoll.value.id != "" ==> pollId == v.currentPoll.value.id
    ensures !(v.currentPoll.Some? && v.currentPoll.value.id != "") ==> pollId == "waiting"
  {
    if v.currentPoll.Some? && v.currentPoll.value.id != "" then v.currentPoll.value.id else "waiting"
  }

  class PollClient {
    var view: ViewState
    var role: Role
    var studentName: string
    const studentId: string
    var participantId: Option<string>
    var hasAnswered: bool
    var selectedAnswer: Option<string>
    var isKicked: bool
    /** `hasJoinedRef.current`: the room last joined. */
    var joinedPoll: Option<string>

    ghost predicate Valid()
      reads this
    {
      view.timeRemaining >= 0
    }

    /** A freshly mounted provider. */
    constructor (studentId: string)
      ensures Valid()
      ensures this.studentId == studentId && view == InitialView && role == NoRole && studentName == ""
      ensures participantId == None && !hasAnswered && selectedAnswer == None && !isKicked
      ensures joinedPoll == None
    {
      this.studentId := studentId;
      view := InitialView;
      role := NoRole;
      studentName := "";
      participantId := None;
      hasAnswered := false;
      selectedAnswer := None;
      isKicked := false;
      joinedPoll := None;
    }

    method SetRole(r: Role)
      modifies this
      ensures role == r && view == old(view) && studentName == old(studentName)
      ensures hasAnswered == old(hasAnswered) && isKicked == old(isKicked) && joinedPoll == old(joinedPoll)
      ensures participantId == old(participantId) && selectedAnswer == old(selectedAnswer)
    {
      role := r;
    }

    method SetStudentName(name: string)
      modifies this
      ensures studentName == name && view == old(view) && role == old(role)
      ensures hasAnswered == old(hasAnswered) && isKicked == old(isKicked) && joinedPoll == old(joinedPoll)
      ensures participantId == old(participantId) && selectedAnswer == old(selectedAnswer)
    {
      studentName := name;
    }

    /** One server event: merge it into the view; a new round clears the
        local answer; a kick sets `isKicked`, which nothing ever clears. */
    method Receive(ev: Event, now: int)
      requires Valid()
      modifies this
      ensures Valid()
      ensures view == Merge(old(view), ev, now)
      ensures ev.PollStarted? || ev.NewQuestion? ==> !hasAnswered && selectedAnswer == None
      ensures !(ev.PollStarted? || ev.NewQuestion?) ==>
        hasAnswered == old(hasAnswered) && selectedAnswer == old(selectedAnswer)
      ensures isKicked <==> old(isKicked) || ev.Kicked?
      ensures role == old(role) && studentName == old(studentName)
      ensures participantId == old(participantId) && joinedPoll == old(joinedPoll)
    {
      view := Merge(view, ev, now);
      if ev.PollStarted? || ev.NewQuestion? {
        hasAnswered := false;
        selectedAnswer := None;
      }
      if ev.Kicked? {
        isKicked := true;
      }
    }

    /** One second of the interval timer. */
    method CountdownStep()
      requires Valid()
      modifies this
      ensures Valid()
      ensures view == TickView(old(view))
      ensures hasAnswered == old(hasAnswered) && selectedAnswer == old(selectedAnswer)
      ensures isKicked == old(isKicked) && joinedPoll == old(joinedPoll)
      ensures role == old(role) && studentName == old(studentName) && participantId == old(participantId)
    {
      view := TickView(view);
    }

    /** The join effect: a named student joins the room of the shown poll,
        or "waiting", unless that room was the last one joined; once it has
        run, running it again sends nothing until the room changes. */
    method SyncJoin() returns (sent: seq<Request>)
      modifies this
      ensures old(role == StudentRole && studentName != "" && joinedPoll != Some(JoinTarget(view))) ==>
        sent == [JoinRequest(studentId, studentName, JoinTarget(view))] &&
        participantId == Some(studentId) && joinedPoll == Some(JoinTarget(view))
      ensures !old(role == StudentRole && studentName != "" && joinedPoll != Some(JoinTarget(view))) ==>
        sent == [] && participantId == old(participantId) && joinedPoll == old(joinedPoll)
      ensures role == StudentRole && studentName != "" ==> joinedPoll == Some(JoinTarget(view))
      ensures view == old(view) && role == old(role) && studentName == old(studentName)
      ensures hasAnswered == old(hasAnswered) && selectedAnswer == old(selectedAnswer) && isKicked == old(isKicked)
    {
      sent := [];
      if role == StudentRole && studentName != "" {
        var pollId := JoinTarget(view);
        if joinedPoll != Some(pollId) {
          sent := [JoinRequest(studentId, studentName, pollId)];
          participantId := Some(studentId);
          joinedPoll := Some(pollId);
        }
      }
    }

    /** `createPoll`: ask the server to start the built poll and clear the
        local answer. */
    method CreatePoll(question: string, drafts: seq<OptionDraft>, duration: int, now: nat)
      returns (sent: seq<Request>)
      modifies this
      ensures sent == [StartPollRequest(PollIdAt(now), BuildPoll(question, drafts, duration, now))]
      ensures !hasAnswered && selectedAnswer == None
      ensures view == old(view) && isKicked == old(isKicked) && joinedPoll == old(joinedPoll)
      ensures role == old(role) && studentName == old(studentName) && participantId == old(participantId)
    {
      var poll := BuildPoll(question, drafts, duration, now);
      sent := [StartPollRequest(poll.id, poll)];
      hasAnswered := false;
      selectedAnswer := None;
    }

    /** `submitAnswer`: the local lockout. With an answer already given or no
        poll shown, nothing; otherwise one request and the answer recorded, so
        that a second call sends nothing until a new round clears it. */
    method SubmitAnswer(optionId: string) returns (sent: seq<Request>)
      modifies this
      ensures old(hasAnswered) || view.currentPoll.None? ==>
        sent == [] && hasAnswered == old(hasAnswered) && selectedAnswer == old(selectedAnswer)
      ensures !old(hasAnswered) && view.currentPoll.Some? ==>
        sent == [AnswerRequest(studentId, view.currentPoll.value.id, optionId)] &&
        hasAnswered && selectedAnswer == Some(optionId)
      ensures sent != [] ==> !old(hasAnswered) && hasAnswered
      ensures view == old(view) && isKicked == old(isKicked) && joinedPoll == old(joinedPoll)
      ensures role == old(role) && studentName == old(studentName) && participantId == old(participantId)
    {
      if hasAnswered || view.currentPoll.None? {
        return [];
      }
      sent := [AnswerRequest(studentId, view.currentPoll.value.id, optionId)];
      hasAnswered := true;
      selectedAnswer := Some(optionId);
    }

    /** `sendMessage`: a chat request to the shown poll's room, signed
        "Teacher" for the teacher and with the student's name otherwise. */
    method SendMessage(text: string) returns (sent: seq<Request>)
      ensures view.currentPoll.None? ==> sent == []
      ensures view.currentPoll.Some? ==>
        sent == [ChatRequest(view.currentPoll.value.id, studentId,
                             if role == TeacherRole then "Teacher" else studentName, text)]
    {
      if view.currentPoll.None? {
        return [];
      }
      var userName := if role == TeacherRole then "Teacher" else studentName;
      sent := [ChatRequest(view.currentPoll.value.id, studentId, userName, text)];
    }

    /** `kickStudent`: with a poll shown, ask the server to kick and drop the
        student from the local roster at once. */
    method KickStudent(target: string) returns (sent: seq<Request>)
      modifies this
      ensures old(view.currentPoll).None? ==> sent == [] && view == old(view)
      ensures old(view.currentPoll).Some? ==>
        sent == [KickRequest(old(view.currentPoll).value.id, target)] &&
        view == old(view).(students := WithoutStudent(old(view.students), target))
      ensures forall i :: 0 <= i < |view.students| ==> view.currentPoll.Some? ==> view.students[i].id != target
      ensures hasAnswered == old(hasAnswered) && isKicked == old(isKicked) && joinedPoll == old(joinedPoll)
      ensures role == old(role) && studentName == old(studentName) && participantId == old(participantId)
      ensures selectedAnswer == old(selectedAnswer)
    {
      if view.currentPoll.None? {
        return [];
      }
      sent := [KickRequest(view.currentPoll.value.id, target)];
      view := view.(students := WithoutStudent(view.students, target));
    }

    /** `askNewQuestion`: end the shown poll, if any, and clear the local
        answer. */
    method AskNewQuestion() returns (sent: seq<Request>)
      modifies this
      ensures old(view.currentPoll).None? ==> sent == []
      ensures old(view.currentPoll).Some? ==> sent == [EndPollRequest(old(view.currentPoll).value.id)]
      ensures !hasAnswered && selectedAnswer == None
      ensures view == old(view) && isKicked == old(isKicked) && joinedPoll == old(joinedPoll)
      ensures role == old(role) && studentName == old(studentName) && participantId == old(participantId)
    {
      sent := if view.currentPoll.Some? then [EndPollRequest(view.currentPoll.value.id)] else [];
      hasAnswered := false;
      selectedAnswer := None;
    }
  }
}
