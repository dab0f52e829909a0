/** What one download ends with, in either script. */
module Outcomes {
  /** The two places where the scripts throw a TypeError. */
  datatype Crash =
    | LastOfEmptyBuffer   // `rawComments[rawComments.length - 1].createdAtMs` on an empty buffer
    | NullOldestComment   // `rawOldComment.createdAtMs` while `rawOldComment` is still null

  datatype Outcome =
    | NoComments          // the slot had no comment: nothing is written
    | Saved(xml: string)  // the text written to `<slotId>.xml`
    | Crashed(reason: Crash)
}
