/**
 * Small concrete sessions, each starting from a fresh server or client,
 * with their outcome stated and proved.
 */
module Scenarios {
  import opened Common
  import opened JsMap
  import opened PollTypes
  import opened TallyEngine
  import opened PollState
  import opened Handlers
  import opened PollContext

  const OptionA := PollOption("a", "Yes", true, 0)
  const OptionB := PollOption("b", "No", false, 0)

  /** A student who joins while no poll runs is told there is none and
      appears, not answered, on the roster sent to the room. */
  method JoinWhileIdle() returns (out: seq<Outbound>)
    ensures out == [
      JoinRoom("waiting"),
      Private(PollStateSnapshot(None, [StudentView("s1", "Ann", false, None)])),
      Room("waiting", UpdateParticipants([StudentView("s1", "Ann", false, None)]))]
  {
    var store := new PollStore();
    var router := new Router(store);
    SetAppends([], "s1", Student("s1", "sock1", "Ann", false, None));
    out := router.Join("sock1", "s1", "Ann", "waiting");
    assert store.students == [Entry("s1", Student("s1", "sock1", "Ann", false, None))];
    assert StudentsList(store.students) == [StudentView("s1", "Ann", false, None)];
  }

  /** Ann and Bob, in that order, neither having answered. */
  const Two: Roster := [
    Entry("s1", Student("s1", "sock1", "Ann", false, None)),
    Entry("s2", Student("s2", "sock2", "Bob", false, None))]

  /** Where Ann and Bob sit on the roster; the scenario methods cite it
      rather than unfolding `Get` over `Two` each time. */
  lemma TwoLookups()
    ensures Has(Two, "s1") && Get(Two, "s1") == Some(Two[0].value)
    ensures Has(Two, "s2") && Get(Two, "s2") == Some(Two[1].value)
  {
    assert Two[0].key == "s1" && Two[1].key == "s2";
  }

  /** With options "a" and "b", each option gets the answers naming it; the
      scenarios cite it to turn `Tally` into concrete results. */
  lemma TallyOfTwoOptions(answers: Answers)
    ensures Tally([OptionA, OptionB], answers) ==
      [OptionA.(votes := Votes(answers, "a")), OptionB.(votes := Votes(answers, "b"))]
  {
    assert FirstIndex([OptionA, OptionB], "a") == 0;
    assert [OptionA, OptionB][1..] == [OptionB];
    assert FirstIndex([OptionA, OptionB], "b") == 1;
  }

  /** One vote each for "a" and "b" when Ann chose "a" and Bob "b";
      `TwoStudentsTwoVotes` cites it for its results. */
  lemma VotesOfTwoAnswers()
    ensures Votes([Entry("s1", "a"), Entry("s2", "b")], "a") == 1
    ensures Votes([Entry("s1", "a"), Entry("s2", "b")], "b") == 1
  {
    var answers := [Entry("s1", "a"), Entry("s2", "b")];
    assert answers[..1] == [Entry("s1", "a")];
    assert [Entry("s1", "a")][..0] == [];
    assert Votes(answers[..1], "a") == 1 && Votes(answers[..1], "b") == 0;
  }

  /** Ann then Bob join a fresh server. */
  method RosterOfTwo(router: Router)
    requires router.Valid() && router.store.students == [] && router.store.answers == []
    modifies router.store
    ensures router.Valid() && router.store.students == Two && router.store.answers == []
    ensures router.store.currentPoll == old(router.store.currentPoll)
  {
    var ann := Student("s1", "sock1", "Ann", false, None);
    var bob := Student("s2", "sock2", "Bob", false, None);
    SetAppends([], "s1", ann);
    var _ := router.Join("sock1", "s1", "Ann", "p1");
    assert router.store.students == [Entry("s1", ann)];
    SetAppends([Entry("s1", ann)], "s2", bob);
    var _ := router.Join("sock2", "s2", "Bob", "p1");
  }

  /** Ann answers "a": half the roster has answered, so nothing is
      scheduled, and Bob may still answer. */
  method AnnAnswers(router: Router)
    requires router.Valid() && router.store.students == Two && router.store.answers == []
    modifies router, router.store
    ensures router.Valid() && router.store.answers == [Entry("s1", "a")]
    ensures |router.store.students| == 2 && CanAnswer(router.store.students, "s2")
    ensures router.timers == old(router.timers)
    ensures router.store.currentPoll == old(router.store.currentPoll)
  {
    TwoLookups();
    var _ := router.SubmitAnswer("s1", "p1", "a", 500);
    assert Get(router.store.students, "s2") == Get(Two, "s2");
  }

  /** Bob answers "b": the roster is complete and the close is scheduled
      one second later. */
  method BobAnswers(router: Router)
    requires router.Valid() && router.store.answers == [Entry("s1", "a")]
    requires |router.store.students| == 2 && CanAnswer(router.store.students, "s2")
    modifies router, router.store
    ensures router.store.answers == [Entry("s1", "a"), Entry("s2", "b")]
    ensures router.timers == old(router.timers) + [EndPollTimer("p1", 2000)]
    ensures router.store.currentPoll == old(router.store.currentPoll)
  {
    var _ := router.SubmitAnswer("s2", "p1", "b", 1000);
    SetAppends([Entry("s1", "a")], "s2", "b");
  }

  /** Two students answer two different options: one vote each, and the
      second answer, completing the roster, schedules the close one second
      later. */
  method TwoStudentsTwoVotes() returns (results: seq<PollOption>, timers: seq<Timer>)
    ensures results == [OptionA.(votes := 1), OptionB.(votes := 1)]
    ensures timers == [EndPollTimer("p1", 60000), EndPollTimer("p1", 2000)]
  {
    var store := new PollStore();
    var router := new Router(store);
    var poll := Poll("p1", "Ready?", [OptionA, OptionB], 60, 0, true);
    RosterOfTwo(router);
    var _ := router.StartPoll("p1", poll, 0);
    AnnAnswers(router);
    BobAnswers(router);
    results := store.GetCurrentResults();
    VotesOfTwoAnswers();
    TallyOfTwoOptions(store.answers);
    timers := router.timers;
  }

  /** A stale timer: after the next question replaced the first poll, the
      first poll's timer still fires and sends `poll:ended`, with the new
      poll's results, to the first poll's room. */
  method StaleTimerStillEnds() returns (out: seq<Outbound>)
    ensures out == [Room("p1", PollEnded([OptionB], []))]
  {
    var store := new PollStore();
    var router := new Router(store);
    var first := Poll("p1", "First?", [OptionA], 60, 0, true);
    var second := Poll("p2", "Second?", [OptionB], 30, 1000, true);
    var _ := router.StartPoll("p1", first, 0);
    assert store.students == [] && router.timers == [EndPollTimer("p1", 60000)];
    var _ := router.NextQuestion("p2", second, 1000);
    assert store.students == [] && store.answers == [];
    assert router.timers[0] == EndPollTimer("p1", 60000);
    assert Tally([OptionB], []) == [OptionB];
    out := router.Fire(0);
  }

  /** Ann answers "a", then tries "b" in the same round and is refused. */
  method AnnAnswersTwice(router: Router) returns (refused: seq<Outbound>)
    requires router.Valid() && router.store.students == Two && router.store.answers == []
    modifies router, router.store
    ensures router.Valid() && router.store.answers == [Entry("s1", "a")]
    ensures refused == [Private(ErrorNotice(AlreadyAnsweredMessage))]
    ensures router.store.currentPoll == old(router.store.currentPoll)
  {
    TwoLookups();
    SetAppends([], "s1", "a");
    var _ := router.SubmitAnswer("s1", "p1", "a", 100);
    refused := router.SubmitAnswer("s1", "p1", "b", 200);
  }

  /** Ann rejoins and answers "b": her answer is replaced, not added. */
  method AnnRejoinsAndRevotes(router: Router)
    requires router.Valid() && router.store.answers == [Entry("s1", "a")]
    modifies router, router.store
    ensures router.store.answers == [Entry("s1", "b")]
    ensures router.store.currentPoll == old(router.store.currentPoll)
  {
    var _ := router.Join("sock3", "s1", "Ann", "p1");
    var _ := router.SubmitAnswer("s1", "p1", "b", 300);
    var m := [Entry("s1", "a")];
    assert m[0].key == "s1";
    assert Set(m, "s1", "b") == [Entry("s1", "b")] + m[1..];
  }

  /** A rejoin reopens the gate: the student answers, rejoins, and answers
      again; the second answer replaces the first instead of adding to it.
      Without the rejoin, the second answer is refused. */
  method RejoinRevotes() returns (refused: seq<Outbound>, results: seq<PollOption>)
    ensures refused == [Private(ErrorNotice(AlreadyAnsweredMessage))]
    ensures results == [OptionA.(votes := 0), OptionB.(votes := 1)]
  {
    var store := new PollStore();
    var router := new Router(store);
    var poll := Poll("p1", "Ready?", [OptionA, OptionB], 60, 0, true);
    RosterOfTwo(router);
    var _ := router.StartPoll("p1", poll, 0);
    refused := AnnAnswersTwice(router);
    AnnRejoinsAndRevotes(router);
    results := store.GetCurrentResults();
    assert [Entry("s1", "b")][..0] == [];
    assert Votes(store.answers, "a") == 0 && Votes(store.answers, "b") == 1;
    TallyOfTwoOptions(store.answers);
  }

  /** The client's lockout: of two clicks in the same round only the first
      is sent. */
  method ClientAnswersOnce() returns (first: seq<Request>, second: seq<Request>)
    ensures first == [AnswerRequest("s1", "p1", "a")]
    ensures second == []
  {
    var client := new PollClient("s1");
    client.Receive(PollStarted(Poll("p1", "Ready?", [OptionA, OptionB], 60, 0, true), 60000), 0);
    first := client.SubmitAnswer("a");
    second := client.SubmitAnswer("b");
  }
}
