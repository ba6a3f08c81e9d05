/**
 * The session store: the one process-wide record holding the current poll,
 * the roster (`students`, keyed by student id) and the answer set (`answers`,
 * student id -> option id), with the operations the event handlers call.
 */
module PollState {
  import opened Common
  import opened JsMap
  import opened PollTypes
  import opened TallyEngine

  /** `students`: student id -> Student, in insertion order. */
  type Roster = OrderedMap<string, Student>

  /** Every roster entry is keyed by its own student's id, as `addStudent`
      keys it. */
  ghost predicate KeyedById(students: Roster) {
    forall e :: e in students ==> e.key == e.value.id
  }

  /** A student as `resetPollState` leaves it. */
  function Cleared(s: Student): Student {
    s.(hasAnswered := false, answerId := None)
  }

  /** A student as `submitAnswer` leaves it after an accepted answer. */
  function Answered(s: Student, optionId: string): Student {
    s.(hasAnswered := true, answerId := Some(optionId))
  }

  /** The roster after `resetPollState`: the same students in the same order,
      none of them answered. */
  function ClearAnswered(students: Roster): (r: Roster)
    ensures |r| == |students|
    ensures forall i :: 0 <= i < |r| ==>
      r[i].key == students[i].key && r[i].value.id == students[i].value.id &&
      r[i].value.socketId == students[i].value.socketId && r[i].value.name == students[i].value.name
    ensures forall e :: e in r ==> !e.value.hasAnswered && e.value.answerId == None
  {
    seq(|students|, i requires 0 <= i < |students| =>
      Entry(students[i].key, Cleared(students[i].value)))
  }

  /** The double-vote gate: a student may answer when present and not yet
      marked as having answered. */
  predicate CanAnswer(students: Roster, studentId: string): (r: bool)
    ensures r ==> Has(students, studentId)
  {
    match Get(students, studentId)
    case None => false
    case Some(s) => !s.hasAnswered
  }

  /** `getStudentsList`: the roster in insertion order, without connection
      handles. */
  function StudentsList(students: Roster): (r: seq<StudentView>)
    ensures |r| == |students|
    ensures forall i :: 0 <= i < |r| ==>
      var s := students[i].value;
      r[i].id == s.id && r[i].name == s.name && r[i].hasAnswered == s.hasAnswered &&
      r[i].answerId == s.answerId
  {
    seq(|students|, i requires 0 <= i < |students| =>
      var s := students[i].value;
      StudentView(s.id, s.name, s.hasAnswered, s.answerId))
  }

  /** Reset keeps every student and reopens the gate for each of them. */
  lemma ResetKeepsRoster(students: Roster)
    ensures KeySet(ClearAnswered(students)) == KeySet(students)
    ensures DistinctKeys(students) ==> DistinctKeys(ClearAnswered(students))
    ensures KeyedById(students) ==> KeyedById(ClearAnswered(students))
    ensures forall id :: CanAnswer(ClearAnswered(students), id) <==> Has(students, id)
  {
    var r := ClearAnswered(students);
    assert forall i :: 0 <= i < |r| ==> r[i].key == students[i].key;
    assert KeySet(r) == KeySet(students);
    forall id ensures CanAnswer(r, id) <==> Has(students, id) {
      HasIffInKeySet(r, id);
      HasIffInKeySet(students, id);
      if Has(r, id) {
        GetFound(r, id);
      }
    }
    if KeyedById(students) {
      forall e | e in r ensures e.key == e.value.id {
        var i :| 0 <= i < |r| && r[i] == e;
        assert students[i] in students;
      }
    }
  }

  /** The store refuses a second answer: once a call has returned, the same
      student can no longer pass the gate, whether the call was accepted or
      not, until a reset or a rejoin. */
  lemma AnsweredClosesGate(students: Roster, studentId: string, optionId: string)
    requires CanAnswer(students, studentId)
    ensures !CanAnswer(Set(students, studentId, Answered(Get(students, studentId).value, optionId)), studentId)
  {
  }

  /** Every key of `answers` is a key of `students`, so `answers.size` is at
      most `students.size`, and the two sizes agree exactly when every
      student has an entry in `answers`. */
  lemma {:induction false} AllAnsweredIffSizesAgree(students: Roster, answers: Answers)
    requires DistinctKeys(students) && DistinctKeys(answers)
    requires KeySet(answers) <= KeySet(students)
    ensures |answers| <= |students|
    ensures |answers| == |students| <==> forall i :: 0 <= i < |students| ==> Has(answers, students[i].key)
  {
    SizeIsKeyCount(students);
    SizeIsKeyCount(answers);
    var A, S := KeySet(answers), KeySet(students);
    assert S == A + (S - A);
    assert |S| == |A| + |S - A|;
    if forall i :: 0 <= i < |students| ==> Has(answers, students[i].key) {
      forall x | x in S ensures x in A {
        var i :| 0 <= i < |students| && students[i].key == x;
        HasIffInKeySet(answers, x);
      }
      assert S - A == {};
    } else {
      var i :| 0 <= i < |students| && !Has(answers, students[i].key);
      HasIffInKeySet(answers, students[i].key);
      assert students[i].key in S - A;
    }
  }

  class PollStore {
    var currentPoll: Option<Poll>
    var students: Roster
    var answers: Answers
    var pollStartTime: Option<int>
    var timerEnds: Option<int>

    /** What the JavaScript maps guarantee, and the keying `addStudent` does. */
    ghost predicate Valid()
      reads this
    {
      DistinctKeys(students) && DistinctKeys(answers) && KeyedById(students)
    }

    /** Every key of `answers` is a key of `students`. */
    ghost predicate AnswersWithinRoster()
      reads this
    {
      KeySet(answers) <= KeySet(students)
    }

    /** The store as the process starts it: no poll, nobody, no answers. */
    constructor ()
      ensures Valid() && AnswersWithinRoster()
      ensures currentPoll == None && students == [] && answers == []
      ensures pollStartTime == None && timerEnds == None
    {
      currentPoll := None;
      students := [];
      answers := [];
      pollStartTime := None;
      timerEnds := None;
    }

    /** `resetPollState`: forget the poll and every answer, keep the students
        connected with their answered flags cleared. */
    method Reset()
      requires Valid()
      modifies this
      ensures Valid() && AnswersWithinRoster()
      ensures currentPoll == None && pollStartTime == None && timerEnds == None
      ensures answers == []
      ensures students == ClearAnswered(old(students))
    {
      currentPoll := None;
      answers := [];
      pollStartTime := None;
      timerEnds := None;
      var i := 0;
      while i < |students|
        invariant 0 <= i <= |students| == |old(students)|
        invariant forall j :: 0 <= j < i ==> students[j] == Entry(old(students)[j].key, Cleared(old(students)[j].value))
        invariant forall j :: i <= j < |students| ==> students[j] == old(students)[j]
        invariant currentPoll == None && pollStartTime == None && timerEnds == None && answers == []
      {
        students := students[i := Entry(students[i].key, Cleared(students[i].value))];
        i := i + 1;
      }
      ResetKeepsRoster(old(students));
    }

    /** `addStudent`: insert, or replace in place, the entry keyed by the
        student's id; nothing else changes. */
    method AddStudent(student: Student)
      requires Valid()
      modifies this
      ensures Valid()
      ensures students == Set(old(students), student.id, student)
      ensures answers == old(answers) && currentPoll == old(currentPoll)
      ensures pollStartTime == old(pollStartTime) && timerEnds == old(timerEnds)
      ensures old(AnswersWithinRoster()) ==> AnswersWithinRoster()
    {
      SetEntries(students, student.id, student);
      students := Set(students, student.id, student);
    }

    /** `removeStudent`: drop the student and their answer; a no-op for an
        unknown id. */
    method RemoveStudent(studentId: string)
      requires Valid()
      modifies this
      ensures Valid()
      ensures students == Delete(old(students), studentId)
      ensures answers == Delete(old(answers), studentId)
      ensures !Has(students, studentId) && !Has(answers, studentId)
      ensures currentPoll == old(currentPoll)
      ensures pollStartTime == old(pollStartTime) && timerEnds == old(timerEnds)
      ensures old(AnswersWithinRoster()) ==> AnswersWithinRoster()
    {
      students := Delete(students, studentId);
      answers := Delete(answers, studentId);
    }

    /** `submitAnswer`: the double-vote gate. Accepted exactly when the
        student is present and has not answered; then the student is marked
        with the option and the answer recorded. A refused call changes
        nothing. Either way the student cannot pass the gate again. */
    method SubmitAnswer(studentId: string, optionId: string) returns (accepted: bool)
      requires Valid()
      modifies this
      ensures Valid()
      ensures accepted == CanAnswer(old(students), studentId)
      ensures accepted ==> Get(old(students), studentId).Some?
      ensures accepted ==>
        students == Set(old(students), studentId, Answered(Get(old(students), studentId).value, optionId))
      ensures accepted ==> answers == Set(old(answers), studentId, optionId)
      ensures !accepted ==> students == old(students) && answers == old(answers)
      ensures !CanAnswer(students, studentId)
      ensures currentPoll == old(currentPoll)
      ensures pollStartTime == old(pollStartTime) && timerEnds == old(timerEnds)
      ensures old(AnswersWithinRoster()) ==> AnswersWithinRoster()
    {
      var found := Get(students, studentId);
      if found.None? || found.value.hasAnswered {
        return false;
      }
      var student := Answered(found.value, optionId);
      GetFound(students, studentId);
      SetEntries(students, studentId, student);
      HasIffInKeySet(students, studentId);
      students := Set(students, studentId, student);
      answers := Set(answers, studentId, optionId);
      accepted := true;
    }

    /** `getCurrentResults`: no poll, no results; otherwise every option of
        the poll with its votes counted from the answer set, one answer at a
        time, each credited to the first option carrying its id. */
    method GetCurrentResults() returns (results: seq<PollOption>)
      ensures currentPoll.None? ==> results == []
      ensures currentPoll.Some? ==> results == Tally(currentPoll.value.options, answers)
    {
      if currentPoll.None? {
        return [];
      }
      var options := currentPoll.value.options;
      results := seq(|options|, i requires 0 <= i < |options| => options[i].(votes := 0));
      assert answers[..0] == [];
      var k := 0;
      while k < |answers|
        invariant 0 <= k <= |answers|
        invariant results == Tally(options, answers[..k])
      {
        var optionId := answers[k].value;
        var j := FindOption(results, optionId);
        FirstIndexOfSameIds(results, options, optionId);
        TallyStep(options, answers[..k], answers[k]);
        assert answers[..k + 1] == answers[..k] + [answers[k]];
        if j < |results| {
          results := results[j := results[j].(votes := results[j].votes + 1)];
        }
        k := k + 1;
      }
      assert answers[..k] == answers;
    }
  }

  /** `results.find(o => o.id === optionId)`: the position of the first
      option carrying the id, or the length when none does. */
  method FindOption(results: seq<PollOption>, optionId: string) returns (j: nat)
    ensures j == FirstIndex(results, optionId)
  {
    j := 0;
    while j < |results| && results[j].id != optionId
      invariant j <= |results|
      invariant forall q :: 0 <= q < j ==> results[q].id != optionId
    {
      j := j + 1;
    }
  }
}
