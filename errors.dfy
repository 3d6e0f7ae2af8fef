/** The ways the corrector fails. Each is an exception (or a None) in spell.py. */
module Errors {

  datatype Error =
    /** `find_closest_match` falls off its loop and returns None; `correct_sentence`
        then raises TypeError on `None + ' '`. */
    | NoMatch
    /** The first matching bucket word is '' and `w[-1]` raises IndexError
        (only possible when a bucket holds a word of the wrong length). */
    | EmptyCandidate
    /** `correct_sentence('')` raises IndexError on `sentence[-1]`. */
    | EmptySentence
}
