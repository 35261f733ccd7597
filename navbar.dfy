/**
 * The sticky navbar: on every scroll event the navbar carries the class
 * `scrolled` exactly when the page is scrolled more than 100 pixels.
 */
module Navbar {

  const ScrollThreshold: real := 100.0
  const ScrolledClass: string := "scrolled"

  /** The navbar's class list after a scroll event at offset `scroll`:
      `classList.add('scrolled')` past the threshold, `classList.remove` at or
      below it. */
  function ClassesAfterScroll(classes: set<string>, scroll: real): (r: set<string>)
    ensures ScrolledClass in r <==> scroll > ScrollThreshold
    ensures forall c :: c != ScrolledClass ==> (c in r <==> c in classes)
  {
    if scroll > ScrollThreshold then classes + {ScrolledClass} else classes - {ScrolledClass}
  }

  /** Only the latest scroll offset matters: a second event overrides the
      first, and repeating an event changes nothing. */
  lemma LatestScrollDecides(classes: set<string>, first: real, second: real)
    ensures ClassesAfterScroll(ClassesAfterScroll(classes, first), second)
         == ClassesAfterScroll(classes, second)
    ensures ClassesAfterScroll(ClassesAfterScroll(classes, first), first)
         == ClassesAfterScroll(classes, first)
  {
  }

  /** Scrolling further down never removes the class. */
  lemma ScrolledIsMonotone(classes: set<string>, lower: real, higher: real)
    requires lower <= higher
    requires ScrolledClass in ClassesAfterScroll(classes, lower)
    ensures ScrolledClass in ClassesAfterScroll(classes, higher)
  {
  }

  /** The navbar's class list and the handler's `lastScroll` variable. */
  class NavbarScroll {
    var classes: set<string>
    var lastScroll: real

    constructor (initial: set<string>)
      ensures classes == initial && lastScroll == 0.0
    {
      classes := initial;
      lastScroll := 0.0;
    }

    /** The `scroll` listener, given `window.pageYOffset`. */
    method OnScroll(currentScroll: real)
      modifies this
      ensures classes == ClassesAfterScroll(old(classes), currentScroll)
      ensures lastScroll == currentScroll
    {
      if currentScroll > ScrollThreshold {
        classes := classes + {ScrolledClass};
      } else {
        classes := classes - {ScrolledClass};
      }
      lastScroll := currentScroll;
    }
  }
}
