/** Errors thrown by the deck stores and the quiz, and the result types that carry them. */
module Outcomes {

  /** One constructor per distinct error the modelled code throws. */
  datatype Error =
    | DeckNotFound(name: string)            // no deck (or no deck file) of that name
    | DeckExists(name: string)              // a deck of that name is already registered
    | TargetNotFound(name: string)          // the merge target is not registered
    | SourceNotFound(name: string)          // the merge or clone source is not registered
    | DefaultProtected                      // the deck "default" cannot be removed
    | MergeAndReplace(name: string)         // import asked for both merge and replace
    | MergeOrReplaceNeeded(name: string)    // import onto an existing name asked for neither
    | FileMissing(name: string)             // the file system refuses to unlink an absent file
    | WordNotFound(deck: string, word: string)
    | WordExists(deck: string, word: string)
    | NoWordsGiven                          // phrase generation was given no words
    | NoMeaningfulPhrase                    // the generator answered with a blank phrase
    | InvalidLevel                          // a level that is not an integer in [-1, 10]
    | GeneratorFailed(reason: string)       // an error raised by the content generator

  datatype Option<+T> = None | Some(value: T)

  /** JavaScript truthiness of an optional string: present and not empty. */
  predicate Truthy(s: Option<string>) {
    s.Some? && s.value != ""
  }

  datatype Result<+T> = Ok(value: T) | Err(error: Error)

  /** The outcome of an operation that returns nothing: it completes, or it throws. */
  datatype Outcome = Pass | Fail(error: Error)
}
