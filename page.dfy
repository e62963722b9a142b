/** The typewriter as public/typewriter.js runs it: the outer variables
    `i`, `j` and `isDeleting` (public/typewriter.js:11) updated in place by
    `type()`, and the text content of the target element. */
module TypewriterPage {
  import opened Typewriter

  class TypewriterElement {
    /** The phrase list, fixed for the page's lifetime. */
    const texts: seq<string>
    /** Whether `getElementById("typewriter")` found the element. */
    const hasEl: bool

    var i: nat
    var j: nat
    var isDeleting: bool
    /** The element's text content. */
    var text: string

    ghost predicate Valid()
      reads this
    {
      |texts| > 0 && Inv(texts, State())
    }

    /** The animation state as a value. */
    function State(): Tw
      reads this
    {
      Tw(i, j, isDeleting)
    }

    /** The page-load setup (public/typewriter.js:4-12): the phrase list,
        the element lookup, and the state (0, 0, false). */
    constructor (texts: seq<string>, hasEl: bool, initialText: string)
      requires |texts| > 0
      ensures Valid()
      ensures this.texts == texts && this.hasEl == hasEl
      ensures State() == Start && text == initialText
    {
      this.texts := texts;
      this.hasEl := hasEl;
      i, j, isDeleting := 0, 0, false;
      text := initialText;
    }

    /** One call of `type()` (public/typewriter.js:14-29). The result is the
        delay of the call it schedules, or None when it schedules none. */
    method Step() returns (delay: Option<nat>)
      requires Valid()
      modifies this
      ensures Valid()
      ensures !hasEl ==> delay == None && unchanged(this)
      ensures hasEl ==> var t := StepF(texts, old(State()));
                        State() == t.next && text == t.shown && delay == Some(t.delay)
    {
      if !hasEl {
        return None;
      }
      var current := texts[i];
      text := current[..Min(j, |current|)];
      if !isDeleting && j < |current| {
        j := j + 1;
      } else if isDeleting && j > 0 {
        j := j - 1;
      } else {
        isDeleting := !isDeleting;
        if !isDeleting {
          i := (i + 1) % |texts|;
        }
        return Some(PauseDelay);
      }
      delay := Some(if isDeleting then DeleteDelay else TypeDelay);
    }
  }
}
