/** The message sink the checks append to. Formatting of the text is not modelled. */
module Diagnostics {

  datatype Diagnostic =
    | AllocatableTarget(name: string)      // an initial data target may not be an ALLOCATABLE
    | CoarrayTarget(name: string)          // ... nor a coarray
    | NoTargetAttribute(name: string)      // ... nor an object that lacks TARGET
    | NoSaveAttribute(name: string)        // ... nor an object that lacks SAVE
    | InvalidSpecification(why: string)    // Invalid specification expression: <why>

  /** An append-only list of messages. */
  class Messages {
    var said: seq<Diagnostic>

    constructor ()
      ensures said == []
    {
      said := [];
    }

    method Say(d: Diagnostic)
      modifies this
      ensures said == old(said) + [d]
    {
      said := said + [d];
    }
  }
}
