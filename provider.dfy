/**
 * The text-generation provider is outside the model: a call either produces
 * text or fails (a network or provider error, which the program sees as a
 * rejected promise).
 */
module Provider {

  datatype Reply = Answer(text: string) | Unavailable

  /** A provider asked with an ordered list of messages. */
  type Ask = seq<string> -> Reply
}
