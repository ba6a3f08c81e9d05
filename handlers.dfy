/**
 * The event router: one method per socket event the server listens to, each
 * run as one atomic step against the store. Instead of calling the socket
 * library a handler returns the messages it sends, in order; instead of
 * calling `setTimeout` it appends a pending timer, which `Fire` runs later.
 */
module Handlers {
  import opened Common
  import opened JsMap
  import opened PollTypes
  import opened TallyEngine
  import opened PollState

  /** The payloads the server emits, by event name. */
  datatype Event =
    | PollStateSnapshot(currentPoll: Option<Poll>, students: seq<StudentView>)  // 'poll:state'
    | UpdateParticipants(students: seq<StudentView>)                            // 'system:update_participants'
    | UpdateResults(results: seq<PollOption>, students: seq<StudentView>)       // 'poll:update_results'
    | PollStarted(poll: Poll, timerEnds: int)                                   // 'poll:started'
    | NewQuestion(poll: Poll, timerEnds: int)                                   // 'poll:new_question'
    | PollEnded(results: seq<PollOption>, students: seq<StudentView>)           // 'poll:ended'
    | ChatBroadcast(message: ChatMessage)                                       // 'chat:message'
    | Kicked                                                                    // 'student:kicked'
    | ErrorNotice(text: string)                                                 // 'error'

  /** Where a message goes. `Room(p, _)` is the room named "poll:" + p. */
  datatype Outbound =
    | Private(ev: Event)                   // socket.emit: the calling connection
    | Room(pollId: string, ev: Event)      // io.to(`poll:${pollId}`).emit
    | Global(ev: Event)                    // io.emit: every connection
    | ToSocket(socketId: string, ev: Event) // io.to(socketId).emit
    | JoinRoom(pollId: string)             // socket.join(`poll:${pollId}`)

  /** A scheduled `endPoll(io, pollId)` that has not fired yet; `due` is in
      milliseconds. */
  datatype Timer = EndPollTimer(pollId: string, due: int)

  /** The pause between the last answer and the automatic close. */
  const GraceDelayMs := 1000

  const AlreadyAnsweredMessage := "Already answered or not joined"

  /** `Date.now() + duration * 1000`. */
  function EndsAt(now: int, durationSeconds: int): int {
    now + durationSeconds * 1000
  }

  /** What `getCurrentResults` returns for a given store content. */
  function ResultsOf(poll: Option<Poll>, answers: Answers): seq<PollOption> {
    match poll
    case None => []
    case Some(p) => Tally(p.options, answers)
  }

  /** The position of the first student, in roster order, whose connection is
      `socketId`; `|students|` if there is none. */
  function FirstWithSocket(students: Roster, socketId: string): (i: nat)
    ensures i <= |students|
    ensures i < |students| ==> students[i].value.socketId == socketId
    ensures forall j :: 0 <= j < i ==> students[j].value.socketId != socketId
  {
    if |students| == 0 then 0
    else if students[0].value.socketId == socketId then 0
    else 1 + FirstWithSocket(students[1..], socketId)
  }

  class Router {
    const store: PollStore
    var timers: seq<Timer>

    ghost predicate Valid()
      reads this, store
    {
      store.Valid() && store.AnswersWithinRoster()
    }

    constructor (store: PollStore)
      requires store.Valid() && store.AnswersWithinRoster()
      ensures this.store == store && timers == [] && Valid()
    {
      this.store := store;
      timers := [];
    }

    /** 'student:join': (re)insert the student, never answered, join the
        room, reply with a snapshot, then tell the room the new roster. A
        rejoin reopens the gate while the student's old answer stays. */
    method Join(socketId: string, studentId: string, name: string, pollId: string)
      returns (out: seq<Outbound>)
      requires Valid()
      modifies store
      ensures Valid()
      ensures store.students == Set(old(store.students), studentId, Student(studentId, socketId, name, false, None))
      ensures store.answers == old(store.answers) && store.currentPoll == old(store.currentPoll)
      ensures store.pollStartTime == old(store.pollStartTime) && store.timerEnds == old(store.timerEnds)
      ensures CanAnswer(store.students, studentId)
      ensures out == [
        JoinRoom(pollId),
        Private(PollStateSnapshot(store.currentPoll, StudentsList(store.students))),
        Room(pollId, UpdateParticipants(StudentsList(store.students)))]
    {
      var student := Student(studentId, socketId, name, false, None);
      store.AddStudent(student);
      var roster := StudentsList(store.students);
      out := [
        JoinRoom(pollId),
        Private(PollStateSnapshot(store.currentPoll, roster)),
        Room(pollId, UpdateParticipants(roster))];
    }

    /** 'student:submit_answer': a refused answer only earns the sender a
        private error. An accepted one is broadcast to the room with the fresh
        results, and when every student on the roster now has an answer an
        `endPoll` is scheduled after the grace delay. */
    method SubmitAnswer(studentId: string, pollId: string, optionId: string, now: int)
      returns (out: seq<Outbound>)
      requires Valid()
      modifies this, store
      ensures Valid()
      ensures !CanAnswer(old(store.students), studentId) ==>
        out == [Private(ErrorNotice(AlreadyAnsweredMessage))] &&
        store.students == old(store.students) && store.answers == old(store.answers) &&
        timers == old(timers)
      ensures CanAnswer(old(store.students), studentId) ==>
        store.students == Set(old(store.students), studentId,
                              Answered(Get(old(store.students), studentId).value, optionId)) &&
        store.answers == Set(old(store.answers), studentId, optionId) &&
        out == [Room(pollId, UpdateResults(ResultsOf(store.currentPoll, store.answers), StudentsList(store.students)))]
      ensures !CanAnswer(store.students, studentId)
      ensures store.currentPoll == old(store.currentPoll)
      ensures store.pollStartTime == old(store.pollStartTime) && store.timerEnds == old(store.timerEnds)
      ensures timers == old(timers) || timers == old(timers) + [EndPollTimer(pollId, now + GraceDelayMs)]
      ensures timers != old(timers) <==>
        CanAnswer(old(store.students), studentId) &&
        |store.students| > 0 && |store.answers| == |store.students|
      ensures timers != old(timers) <==>
        CanAnswer(old(store.students), studentId) && |store.students| > 0 &&
        forall i :: 0 <= i < |store.students| ==> Has(store.answers, store.students[i].key)
    {
      var accepted := store.SubmitAnswer(studentId, optionId);
      if !accepted {
        out := [Private(ErrorNotice(AlreadyAnsweredMessage))];
        return;
      }
      var results := store.GetCurrentResults();
      out := [Room(pollId, UpdateResults(results, StudentsList(store.students)))];
      AllAnsweredIffSizesAgree(store.students, store.answers);
      var totalStudents := |store.students|;
      var totalAnswers := |store.answers|;
      if totalStudents > 0 && totalAnswers == totalStudents {
        timers := timers + [EndPollTimer(pollId, now + GraceDelayMs)];
      }
    }

    /** What starting a poll and moving to the next question share: reset
        the store, install the poll, stamp the start and end times and
        schedule the end after the poll's duration. */
    method Begin(pollId: string, poll: Poll, now: int)
      requires Valid()
      modifies this, store
      ensures Valid()
      ensures store.currentPoll == Some(poll) && store.answers == []
      ensures store.students == ClearAnswered(old(store.students))
      ensures store.pollStartTime == Some(now) && store.timerEnds == Some(EndsAt(now, poll.duration))
      ensures timers == old(timers) + [EndPollTimer(pollId, EndsAt(now, poll.duration))]
    {
      store.Reset();
      store.currentPoll := Some(poll);
      store.pollStartTime := Some(now);
      store.timerEnds := Some(EndsAt(now, poll.duration));
      timers := timers + [EndPollTimer(pollId, EndsAt(now, poll.duration))];
    }

    /** 'teacher:start_poll': a fresh round; the teacher's connection joins
        the room and every connection hears of the poll and its end time.
        Every student on the roster may answer again and no option has a
        vote. */
    method StartPoll(pollId: string, poll: Poll, now: int) returns (out: seq<Outbound>)
      requires Valid()
      modifies this, store
      ensures Valid()
      ensures store.currentPoll == Some(poll) && store.answers == []
      ensures store.students == ClearAnswered(old(store.students))
      ensures store.pollStartTime == Some(now) && store.timerEnds == Some(EndsAt(now, poll.duration))
      ensures timers == old(timers) + [EndPollTimer(pollId, EndsAt(now, poll.duration))]
      ensures forall id :: CanAnswer(store.students, id) <==> Has(old(store.students), id)
      ensures forall i :: 0 <= i < |poll.options| ==> ResultsOf(store.currentPoll, store.answers)[i].votes == 0
      ensures out == [JoinRoom(pollId), Global(PollStarted(poll, EndsAt(now, poll.duration)))]
    {
      Begin(pollId, poll, now);
      ResetKeepsRoster(old(store.students));
      TallyOfNoAnswers(poll.options);
      out := [JoinRoom(pollId), Global(PollStarted(poll, EndsAt(now, poll.duration)))];
    }

    /** 'teacher:next_question': as starting a poll, but announced as a new
        question and without joining the teacher to a room. */
    method NextQuestion(pollId: string, poll: Poll, now: int) returns (out: seq<Outbound>)
      requires Valid()
      modifies this, store
      ensures Valid()
      ensures store.currentPoll == Some(poll) && store.answers == []
      ensures store.students == ClearAnswered(old(store.students))
      ensures store.pollStartTime == Some(now) && store.timerEnds == Some(EndsAt(now, poll.duration))
      ensures timers == old(timers) + [EndPollTimer(pollId, EndsAt(now, poll.duration))]
      ensures forall id :: CanAnswer(store.students, id) <==> Has(old(store.students), id)
      ensures forall i :: 0 <= i < |poll.options| ==> ResultsOf(store.currentPoll, store.answers)[i].votes == 0
      ensures out == [Global(NewQuestion(poll, EndsAt(now, poll.duration)))]
    {
      Begin(pollId, poll, now);
      ResetKeepsRoster(old(store.students));
      TallyOfNoAnswers(poll.options);
      out := [Global(NewQuestion(poll, EndsAt(now, poll.duration)))];
    }

    /** `endPoll`: with no current poll, nothing. Otherwise the results and
        the roster go to the room of the GIVEN poll id, whichever poll is
        current: there is no check that `pollId` is the current poll, and the
        store is left as it is (the poll stays active on the server). */
    method EndPoll(pollId: string) returns (out: seq<Outbound>)
      ensures store.currentPoll.None? ==> out == []
      ensures store.currentPoll.Some? ==>
        out == [Room(pollId, PollEnded(Tally(store.currentPoll.value.options, store.answers), StudentsList(store.students)))]
    {
      if store.currentPoll.None? {
        return [];
      }
      var results := store.GetCurrentResults();
      out := [Room(pollId, PollEnded(results, StudentsList(store.students)))];
    }

    /** 'teacher:end_poll': the teacher closes the poll by hand. */
    method EndPollRequested(pollId: string) returns (out: seq<Outbound>)
      ensures store.currentPoll.None? ==> out == []
      ensures store.currentPoll.Some? ==>
        out == [Room(pollId, PollEnded(Tally(store.currentPoll.value.options, store.answers), StudentsList(store.students)))]
    {
      out := EndPoll(pollId);
    }

    /** A pending timer fires: it leaves the pending list and runs `endPoll`
        for the poll id it was scheduled with, even when that poll is no
        longer the current one. */
    method Fire(i: nat) returns (out: seq<Outbound>)
      requires i < |timers|
      modifies this
      ensures timers == old(timers[..i] + timers[i + 1..])
      ensures store.currentPoll.None? ==> out == []
      ensures store.currentPoll.Some? ==>
        out == [Room(old(timers[i].pollId),
          PollEnded(Tally(store.currentPoll.value.options, store.answers), StudentsList(store.students)))]
    {
      var t := timers[i];
      timers := timers[..i] + timers[i + 1..];
      out := EndPoll(t.pollId);
    }

    /** 'chat:send': one message to the poll's room; the store is untouched. */
    method SendChat(pollId: string, userId: string, userName: string, text: string,
                    messageId: string, now: int)
      returns (out: seq<Outbound>)
      ensures out == [Room(pollId, ChatBroadcast(ChatMessage(messageId, userId, userName, text, now)))]
    {
      var message := ChatMessage(messageId, userId, userName, text, now);
      out := [Room(pollId, ChatBroadcast(message))];
    }

    /** 'teacher:kick_student': for a student on the roster, tell that
        student's connection first, then remove the student and their answer
        and send the room the new roster. An unknown id is a no-op. */
    method KickStudent(pollId: string, studentId: string) returns (out: seq<Outbound>)
      requires Valid()
      modifies store
      ensures Valid()
      ensures !Has(old(store.students), studentId) ==>
        out == [] && store.students == old(store.students) && store.answers == old(store.answers)
      ensures Has(old(store.students), studentId) ==>
        store.students == Delete(old(store.students), studentId) &&
        store.answers == Delete(old(store.answers), studentId) &&
        out == [
          ToSocket(Get(old(store.students), studentId).value.socketId, Kicked),
          Room(pollId, UpdateParticipants(StudentsList(store.students)))]
      ensures !Has(store.students, studentId) && !CanAnswer(store.students, studentId)
      ensures store.currentPoll == old(store.currentPoll)
      ensures store.pollStartTime == old(store.pollStartTime) && store.timerEnds == old(store.timerEnds)
    {
      var found := Get(store.students, studentId);
      if found.None? {
        return [];
      }
      out := [ToSocket(found.value.socketId, Kicked)];
      store.RemoveStudent(studentId);
      out := out + [Room(pollId, UpdateParticipants(StudentsList(store.students)))];
    }

    /** 'disconnect': scan the roster in order for the first student on this
        connection and remove only that one; the roster goes to the current
        poll's room, and only when there is a current poll. */
    method Disconnect(socketId: string) returns (out: seq<Outbound>)
      requires Valid()
      modifies store
      ensures Valid()
      ensures FirstWithSocket(old(store.students), socketId) == |old(store.students)| ==>
        out == [] && store.students == old(store.students) && store.answers == old(store.answers)
      ensures FirstWithSocket(old(store.students), socketId) < |old(store.students)| ==>
        var gone := old(store.students)[FirstWithSocket(old(store.students), socketId)].key;
        store.students == Delete(old(store.students), gone) &&
        store.answers == Delete(old(store.answers), gone) &&
        out == (if store.currentPoll.Some?
                then [Room(store.currentPoll.value.id, UpdateParticipants(StudentsList(store.students)))]
                else [])
      ensures |store.students| >= |old(store.students)| - 1
      ensures store.currentPoll == old(store.currentPoll)
      ensures store.pollStartTime == old(store.pollStartTime) && store.timerEnds == old(store.timerEnds)
    {
      var i := 0;
      while i < |store.students|
        invariant 0 <= i <= |store.students|
        invariant forall j :: 0 <= j < i ==> store.students[j].value.socketId != socketId
      {
        if store.students[i].value.socketId == socketId {
          break;
        }
        i := i + 1;
      }
      if i == |store.students| {
        return [];
      }
      assert i == FirstWithSocket(store.students, socketId);
      store.RemoveStudent(store.students[i].key);
      if store.currentPoll.Some? {
        out := [Room(store.currentPoll.value.id, UpdateParticipants(StudentsList(store.students)))];
      } else {
        out := [];
      }
    }
  }
}
