/**
 * The records the session exchanges, as the server's store declares them
 * (the client declares the same shapes for what it receives).
 */
module PollTypes {
  import opened Common

  /** An answer option; `votes` is derived by the tally, never stored. */
  datatype PollOption = PollOption(id: string, text: string, isCorrect: bool, votes: int)

  /** A round: `duration` in seconds, `createdAt` in milliseconds. */
  datatype Poll = Poll(
    id: string,
    question: string,
    options: seq<PollOption>,
    duration: int,
    createdAt: int,
    isActive: bool)

  /** A participant as the server keeps it, with its connection handle. */
  datatype Student = Student(
    id: string,
    socketId: string,
    name: string,
    hasAnswered: bool,
    answerId: Option<string>)

  /** A participant as broadcast: a `Student` without its `socketId`. */
  datatype StudentView = StudentView(
    id: string,
    name: string,
    hasAnswered: bool,
    answerId: Option<string>)

  /** An option as the teacher drafts it: no id and no votes yet. */
  datatype OptionDraft = OptionDraft(text: string, isCorrect: bool)

  datatype ChatMessage = ChatMessage(
    id: string,
    userId: string,
    userName: string,
    text: string,
    timestamp: int)
}
