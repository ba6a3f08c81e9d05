/**
 * The tally: vote counts derived from the answer set on every query, never
 * stored. An answer names an option id; it is credited to the FIRST option
 * carrying that id (the store's `find`), and an id that names no option is
 * credited to none.
 */
module TallyEngine {
  import opened Common
  import opened JsMap
  import opened PollTypes

  /** The answer set: studentId -> optionId, in insertion order. */
  type Answers = OrderedMap<string, string>

  /** The number of answers naming `optionId`. */
  function Votes(answers: Answers, optionId: string): (n: nat)
    ensures n <= |answers|
  {
    if |answers| == 0 then 0
    else
      Votes(answers[..|answers| - 1], optionId)
        + (if answers[|answers| - 1].value == optionId then 1 else 0)
  }

  /** The position of the first option with id `id`; `|options|` if none. */
  function FirstIndex(options: seq<PollOption>, id: string): (i: nat)
    ensures i <= |options|
    ensures i < |options| ==> options[i].id == id
    ensures forall j :: 0 <= j < i ==> options[j].id != id
  {
    if |options| == 0 then 0
    else if options[0].id == id then 0
    else 1 + FirstIndex(options[1..], id)
  }

  predicate IsOptionId(options: seq<PollOption>, id: string) {
    exists j :: 0 <= j < |options| && options[j].id == id
  }

  /** The results `getCurrentResults` describes: every option, in order, with
      its votes recomputed (a later option repeating an earlier id gets 0). */
  function Tally(options: seq<PollOption>, answers: Answers): seq<PollOption> {
    seq(|options|, i requires 0 <= i < |options| =>
      options[i].(votes :=
        if FirstIndex(options, options[i].id) == i then Votes(answers, options[i].id) else 0))
  }

  /** One more vote for the option at `j`, if there is one (`option.votes++`). */
  function Bump(results: seq<PollOption>, j: nat): (r: seq<PollOption>)
    ensures |r| == |results|
  {
    if j < |results| then results[j := results[j].(votes := results[j].votes + 1)] else results
  }

  function SumVotes(results: seq<PollOption>): int {
    if |results| == 0 then 0 else results[0].votes + SumVotes(results[1..])
  }

  /** The number of answers whose option id names some option. */
  function Matched(options: seq<PollOption>, answers: Answers): (n: nat)
    ensures n <= |answers|
  {
    if |answers| == 0 then 0
    else
      Matched(options, answers[..|answers| - 1])
        + (if IsOptionId(options, answers[|answers| - 1].value) then 1 else 0)
  }

  /** The set of students whose answer is `optionId`. */
  ghost function Voters(answers: Answers, optionId: string): set<string> {
    set k | k in KeySet(answers) && Get(answers, k) == Some(optionId)
  }

  /** An option id is found exactly when some option carries it. */
  lemma FirstIndexFinds(options: seq<PollOption>, id: string)
    ensures FirstIndex(options, id) < |options| <==> IsOptionId(options, id)
  {
    if IsOptionId(options, id) {
      var j :| 0 <= j < |options| && options[j].id == id;
      assert FirstIndex(options, id) <= j;
    }
  }

  /** Where an id is first found depends only on the ids, in order. */
  lemma FirstIndexOfSameIds(a: seq<PollOption>, b: seq<PollOption>, id: string)
    requires |a| == |b| && forall q :: 0 <= q < |a| ==> a[q].id == b[q].id
    ensures FirstIndex(a, id) == FirstIndex(b, id)
  {
  }

  /** The tally keeps every option, in order, with its id, text and
      correctness flag; only `votes` is recomputed. */
  lemma TallyKeepsOptions(options: seq<PollOption>, answers: Answers)
    ensures |Tally(options, answers)| == |options|
    ensures forall i :: 0 <= i < |options| ==>
      Tally(options, answers)[i] == options[i].(votes := Tally(options, answers)[i].votes)
  {
  }

  /** With no answers every option has zero votes. */
  lemma TallyOfNoAnswers(options: seq<PollOption>)
    ensures forall i :: 0 <= i < |options| ==> Tally(options, [])[i].votes == 0
    ensures SumVotes(Tally(options, [])) == 0
  {
    SumOfZeros(Tally(options, []));
  }

  lemma {:induction false} SumOfZeros(results: seq<PollOption>)
    requires forall i :: 0 <= i < |results| ==> results[i].votes == 0
    ensures SumVotes(results) == 0
  {
    if |results| > 0 {
      SumOfZeros(results[1..]);
    }
  }

  /** Counting one more answer: the answer's first matching option gains one
      vote and nothing else changes. This is one step of the store's loop. */
  lemma TallyStep(options: seq<PollOption>, answers: Answers, a: Entry<string, string>)
    ensures Tally(options, answers + [a]) == Bump(Tally(options, answers), FirstIndex(options, a.value))
  {
    var after := answers + [a];
    assert after[..|after| - 1] == answers;
    var j := FirstIndex(options, a.value);
    var t, t' := Tally(options, answers), Tally(options, after);
    forall i | 0 <= i < |options| ensures t'[i] == Bump(t, j)[i] {
      var id := options[i].id;
      assert Votes(after, id) == Votes(answers, id) + (if a.value == id then 1 else 0);
      if FirstIndex(options, id) == i && a.value == id {
        assert j == i;
      }
    }
  }

  /** Adding one vote adds one to the total, when the option exists. */
  lemma {:induction false} SumBump(results: seq<PollOption>, j: nat)
    ensures SumVotes(Bump(results, j)) == SumVotes(results) + (if j < |results| then 1 else 0)
  {
    if |results| > 0 && j < |results| {
      if j == 0 {
        assert Bump(results, j)[1..] == results[1..];
      } else {
        SumBump(results[1..], j - 1);
        assert Bump(results, j)[1..] == Bump(results[1..], j - 1);
      }
    }
  }

  /** The total of the votes is the number of answers that name an option. */
  lemma {:induction false} TallyTotal(options: seq<PollOption>, answers: Answers)
    ensures SumVotes(Tally(options, answers)) == Matched(options, answers)
  {
    if |answers| == 0 {
      TallyOfNoAnswers(options);
    } else {
      var init, a := answers[..|answers| - 1], answers[|answers| - 1];
      assert answers == init + [a];
      TallyTotal(options, init);
      TallyStep(options, init, a);
      SumBump(Tally(options, init), FirstIndex(options, a.value));
      FirstIndexFinds(options, a.value);
    }
  }

  /** Exactly the answers naming an option are matched. */
  lemma {:induction false} MatchedAll(options: seq<PollOption>, answers: Answers)
    ensures Matched(options, answers) == |answers| <==>
      forall i :: 0 <= i < |answers| ==> IsOptionId(options, answers[i].value)
  {
    if |answers| > 0 {
      var init := answers[..|answers| - 1];
      MatchedAll(options, init);
      assert forall i :: 0 <= i < |init| ==> init[i] == answers[i];
    }
  }

  /** Conservation of votes: the tally never credits more votes than there are
      answers, and credits all of them exactly when every answer names an
      option of the poll. */
  lemma TotalVotes(options: seq<PollOption>, answers: Answers)
    ensures SumVotes(Tally(options, answers)) <= |answers|
    ensures SumVotes(Tally(options, answers)) == |answers| <==>
      forall i :: 0 <= i < |answers| ==> IsOptionId(options, answers[i].value)
  {
    TallyTotal(options, answers);
    MatchedAll(options, answers);
  }

  /** Appending an answer for a new student adds that student to the voters
      of the option they chose, and to no other. */
  lemma VotersSnoc(m: Answers, e: Entry<string, string>, optionId: string)
    requires !Has(m, e.key)
    ensures e.key !in Voters(m, optionId)
    ensures Voters(m + [e], optionId) ==
      Voters(m, optionId) + (if e.value == optionId then {e.key} else {})
  {
    HasIffInKeySet(m, e.key);
    KeySetSnoc(m, e);
    forall k ensures Get(m + [e], k) ==
      if Has(m, k) then Get(m, k) else if e.key == k then Some(e.value) else None {
      GetSnoc(m, e, k);
    }
    forall k | k in KeySet(m) ensures Has(m, k) {
      HasIffInKeySet(m, k);
    }
  }

  /** Each student's answer counts once: the votes for an option are the
      number of students whose answer is that option. */
  lemma {:induction false} VotesCountVoters(answers: Answers, optionId: string)
    requires DistinctKeys(answers)
    ensures Votes(answers, optionId) == |Voters(answers, optionId)|
  {
    if |answers| == 0 {
      assert Voters(answers, optionId) == {};
    } else {
      var init, a := answers[..|answers| - 1], answers[|answers| - 1];
      assert answers == init + [a];
      assert DistinctKeys(init);
      VotesCountVoters(init, optionId);
      assert !Has(init, a.key) by {
        forall i | 0 <= i < |init| ensures init[i].key != a.key {
          assert init[i] == answers[i];
        }
      }
      VotersSnoc(init, a, optionId);
    }
  }
}
