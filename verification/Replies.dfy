/** What a process learns of a command it sent to a store. */
module Replies {
  /** Done and known to be done, refused, or done with the reply lost. */
  datatype Reply = Answered | Rejected | Unanswered

  /** The command took effect. */
  predicate Done(reply: Reply) { !reply.Rejected? }
}
