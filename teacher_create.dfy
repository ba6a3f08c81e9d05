/**
 * The teacher's question form: the question text, a list of two to six
 * drafted options, a duration, and the gate that lets a well-formed question
 * through to `createPoll`.
 */
module TeacherCreate {
  import opened Common
  import opened PollTypes

  const MaxOptions := 6
  const MaxQuestionLength := 100
  const DurationChoices: seq<int> := [30, 45, 60, 90, 120]
  const DefaultDuration := 60

  /** The characters `String.prototype.trim` removes: the ECMAScript white
      space and line terminators. */
  predicate IsJsWhitespace(c: char) {
    c == '\t' || c == '\n' || c == '\U{B}' || c == '\U{C}' || c == '\r' || c == ' ' ||
    c == '\U{A0}' || c == '\U{1680}' || ('\U{2000}' <= c <= '\U{200A}') ||
    c == '\U{2028}' || c == '\U{2029}' || c == '\U{202F}' || c == '\U{205F}' ||
    c == '\U{3000}' || c == '\U{FEFF}'
  }

  /** Some character of `s` is not white space. */
  predicate HasContent(s: string) {
    exists i :: 0 <= i < |s| && !IsJsWhitespace(s[i])
  }

  /** `s` without its leading white space. */
  function TrimStart(s: string): (r: string)
    ensures |r| <= |s| && r == s[|s| - |r|..]
    ensures r == [] || !IsJsWhitespace(r[0])
    ensures forall i :: 0 <= i < |s| - |r| ==> IsJsWhitespace(s[i])
  {
    if |s| > 0 && IsJsWhitespace(s[0]) then TrimStart(s[1..]) else s
  }

  /** `s` without its trailing white space. */
  function TrimEnd(s: string): (r: string)
    ensures |r| <= |s| && r == s[..|r|]
    ensures r == [] || !IsJsWhitespace(r[|r| - 1])
    ensures forall i :: |r| <= i < |s| ==> IsJsWhitespace(s[i])
  {
    if |s| > 0 && IsJsWhitespace(s[|s| - 1]) then TrimEnd(s[..|s| - 1]) else s
  }

  /** `s.trim()`: the longest infix of `s` that starts and ends with a
      character that is not white space; empty exactly when `s` is all white
      space. */
  function Trim(s: string): (r: string)
    ensures |r| <= |s|
    ensures r != [] ==> !IsJsWhitespace(r[0]) && !IsJsWhitespace(r[|r| - 1])
    ensures r == [] <==> !HasContent(s)
  {
    var t := TrimStart(s);
    var r := TrimEnd(t);
    TrimKeepsContent(s, t, r);
    r
  }

  /** Trimming drops white space from both ends and nothing else: the result
      sits where `TrimStart` left off, and whatever follows it in `s` is white
      space (what precedes it is, by `TrimStart`). */
  lemma TrimIsInfix(s: string)
    ensures |s| - |TrimStart(s)| + |Trim(s)| <= |s|
    ensures Trim(s) == s[|s| - |TrimStart(s)|..|s| - |TrimStart(s)| + |Trim(s)|]
    ensures forall i :: |s| - |TrimStart(s)| + |Trim(s)| <= i < |s| ==> IsJsWhitespace(s[i])
  {
    var t := TrimStart(s);
    var r := TrimEnd(t);
    assert Trim(s) == r;
    var k := |s| - |t|;
    assert t == s[k..];
    assert r == t[..|r|];
    forall i | k + |r| <= i < |s| ensures IsJsWhitespace(s[i]) {
      assert s[i] == t[i - k];
    }
  }

  lemma TrimKeepsContent(s: string, t: string, r: string)
    requires t == TrimStart(s) && r == TrimEnd(t)
    ensures r == [] <==> !HasContent(s)
  {
    var k := |s| - |t|;
    if r == [] {
      assert t == [];
    } else {
      assert t[0] == s[k] && !IsJsWhitespace(t[0]);
    }
  }

  /** `isValid`: the trimmed question and every trimmed option text are
      non-empty. */
  predicate IsValid(question: string, options: seq<OptionDraft>) {
    Trim(question) != [] && forall i :: 0 <= i < |options| ==> Trim(options[i].text) != []
  }

  /** The form is valid exactly when the question and every option contain
      a character that is not white space. */
  lemma IsValidIffContent(question: string, options: seq<OptionDraft>)
    ensures IsValid(question, options) <==>
      HasContent(question) && forall i :: 0 <= i < |options| ==> HasContent(options[i].text)
  {
  }

  /** What the form hands to `createPoll`. */
  datatype PollRequest = PollRequest(question: string, options: seq<OptionDraft>, duration: int)

  class QuestionForm {
    var question: string
    var options: seq<OptionDraft>
    var duration: int

    ghost predicate Valid()
      reads this
    {
      2 <= |options| <= MaxOptions && |question| <= MaxQuestionLength
    }

    /** An empty question, two blank options with the first marked correct,
        and the default duration. */
    constructor ()
      ensures Valid()
      ensures question == "" && duration == DefaultDuration
      ensures options == [OptionDraft("", true), OptionDraft("", false)]
    {
      question := "";
      options := [OptionDraft("", true), OptionDraft("", false)];
      duration := DefaultDuration;
    }

    /** `handleAddOption`: one more blank, incorrect option, while there are
        fewer than six. */
    method AddOption()
      requires Valid()
      modifies this
      ensures Valid()
      ensures |old(options)| < MaxOptions ==> options == old(options) + [OptionDraft("", false)]
      ensures |old(options)| >= MaxOptions ==> options == old(options)
      ensures question == old(question) && duration == old(duration)
    {
      if |options| < MaxOptions {
        options := options + [OptionDraft("", false)];
      }
    }

    /** `handleOptionChange`: the text of the option at `index`, and nothing
        else. */
    method ChangeOptionText(index: nat, text: string)
      requires Valid() && index < |options|
      modifies this
      ensures Valid()
      ensures |options| == |old(options)|
      ensures options[index] == old(options)[index].(text := text)
      ensures forall i :: 0 <= i < |options| && i != index ==> options[i] == old(options)[i]
      ensures question == old(question) && duration == old(duration)
    {
      options := options[index := options[index].(text := text)];
    }

    /** `handleCorrectChange`: the correctness mark of the option at `index`,
        and nothing else. */
    method ChangeCorrect(index: nat, isCorrect: bool)
      requires Valid() && index < |options|
      modifies this
      ensures Valid()
      ensures |options| == |old(options)|
      ensures options[index] == old(options)[index].(isCorrect := isCorrect)
      ensures forall i :: 0 <= i < |options| && i != index ==> options[i] == old(options)[i]
      ensures question == old(question) && duration == old(duration)
    {
      options := options[index := options[index].(isCorrect := isCorrect)];
    }

    /** The question box keeps at most the first 100 characters typed. */
    method EditQuestion(text: string)
      requires Valid()
      modifies this
      ensures Valid()
      ensures |question| == if |text| <= MaxQuestionLength then |text| else MaxQuestionLength
      ensures question == text[..|question|]
      ensures options == old(options) && duration == old(duration)
    {
      question := if |text| <= MaxQuestionLength then text else text[..MaxQuestionLength];
    }

    /** A pick from the duration menu. */
    method ChooseDuration(seconds: int)
      requires Valid() && seconds in DurationChoices
      modifies this
      ensures Valid()
      ensures duration == seconds && duration > 0
      ensures question == old(question) && options == old(options)
    {
      duration := seconds;
    }

    /** `handleAskQuestion`: a valid form yields the trimmed question, the
        options as typed and the duration; an invalid one yields nothing. */
    method AskQuestion() returns (request: Option<PollRequest>)
      ensures request.Some? <==> IsValid(question, options)
      ensures request.Some? ==>
        request.value == PollRequest(Trim(question), options, duration) &&
        HasContent(request.value.question) &&
        forall i :: 0 <= i < |request.value.options| ==> HasContent(request.value.options[i].text)
    {
      if Trim(question) != [] && forall i :: 0 <= i < |options| ==> Trim(options[i].text) != [] {
        request := Some(PollRequest(Trim(question), options, duration));
        TrimTwice(question);
      } else {
        request := None;
      }
    }
  }

  /** A trimmed question that was non-empty still has content. */
  lemma TrimTwice(s: string)
    requires Trim(s) != []
    ensures HasContent(Trim(s))
  {
    assert !IsJsWhitespace(Trim(s)[0]);
  }
}
