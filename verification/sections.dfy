/**
 The five page sections and the navigation around them: the index of the
 active section, the up/down step of the section buttons and when those
 buttons are disabled, and how the active section is picked from the scroll
 position when the scroll-driven animation is off.
 */
module Sections {
  import opened Wrappers

  const SECTIONS: seq<string> := ["home", "about", "brands", "creators", "contact"]

  /** `s.indexOf(id)`: the first position of `id` in `s`, or -1. */
  function IndexIn(s: seq<string>, id: string): (i: int)
    ensures -1 <= i < |s|
    ensures i == -1 <==> id !in s
    ensures 0 <= i ==> s[i] == id && forall j :: 0 <= j < i ==> s[j] != id
  {
    if s == [] then -1
    else if s[0] == id then 0
    else
      var i := IndexIn(s[1..], id);
      if i == -1 then -1 else i + 1
  }

  /** `SECTIONS.indexOf(activeSection)`: the `currentIndex` the page renders with. */
  function CurrentIndex(active: string): (i: int)
    ensures -1 <= i < |SECTIONS|
    ensures i == -1 <==> active !in SECTIONS
    ensures 0 <= i ==> SECTIONS[i] == active
  {
    IndexIn(SECTIONS, active)
  }

  /** Each section is found at its own position: the section names are distinct. */
  lemma SectionIndex(i: nat)
    requires i < |SECTIONS|
    ensures CurrentIndex(SECTIONS[i]) == i
  {
    var j := CurrentIndex(SECTIONS[i]);
    assert SECTIONS[j] == SECTIONS[i];
  }

  /** `disabled={currentIndex <= 0}` on the previous-section button. */
  predicate UpDisabled(active: string) {
    CurrentIndex(active) <= 0
  }

  /** `disabled={currentIndex >= SECTIONS.length - 1}` on the next-section button. */
  predicate DownDisabled(active: string) {
    CurrentIndex(active) >= |SECTIONS| - 1
  }

  /**
   `scrollToSection(direction)`: the id of the section to scroll into view,
   or None when the step would leave the list (the call then does nothing).
   Any direction other than 'up' steps down.
   */
  function ScrollTarget(direction: string, active: string): (target: Option<string>)
    ensures target.None? <==> (if direction == "up" then UpDisabled(active) else DownDisabled(active))
    ensures target.Some? ==>
      (target.value in SECTIONS &&
       CurrentIndex(target.value) == CurrentIndex(active) + (if direction == "up" then -1 else 1))
  {
    var nextIndex := if direction == "up" then CurrentIndex(active) - 1 else CurrentIndex(active) + 1;
    if 0 <= nextIndex < |SECTIONS| then
      SectionIndex(nextIndex);
      Some(SECTIONS[nextIndex])
    else None
  }

  /** A step never leaves the list: from every section, up and down stay within the first and last. */
  lemma StepStaysInRange(direction: string, active: string)
    requires active in SECTIONS
    ensures (direction == "up" && CurrentIndex(active) == 0) ==> ScrollTarget(direction, active).None?
    ensures (direction != "up" && CurrentIndex(active) == |SECTIONS| - 1) ==> ScrollTarget(direction, active).None?
    ensures (direction == "up" && CurrentIndex(active) > 0) ==> ScrollTarget(direction, active) == Some(SECTIONS[CurrentIndex(active) - 1])
    ensures (direction != "up" && CurrentIndex(active) < |SECTIONS| - 1) ==> ScrollTarget(direction, active) == Some(SECTIONS[CurrentIndex(active) + 1])
  {
  }

  /** Whether the viewport centre has reached section `id` (its element exists and starts at or above the centre). */
  predicate Reached(center: int, offsetTop: string -> Option<int>, id: string) {
    offsetTop(id).Some? && center >= offsetTop(id).value
  }

  /**
   `updateActive`: the last section whose element starts at or above the
   viewport centre, or the first section when none does. `offsetTop` gives
   each section element's offset, None when the element is missing; `center`
   is the whole-pixel part of scrollY + innerHeight / 2.
   */
  method UpdateActive(center: int, offsetTop: string -> Option<int>) returns (current: string)
    ensures current in SECTIONS
    ensures current == SECTIONS[0] || Reached(center, offsetTop, current)
    ensures forall j :: 0 <= j < |SECTIONS| && Reached(center, offsetTop, SECTIONS[j]) ==> j <= CurrentIndex(current)
  {
    current := SECTIONS[0];
    SectionIndex(0);
    for i := 0 to |SECTIONS|
      invariant current in SECTIONS
      invariant current == SECTIONS[0] || Reached(center, offsetTop, current)
      invariant forall j :: 0 <= j < i && Reached(center, offsetTop, SECTIONS[j]) ==> j <= CurrentIndex(current)
      invariant CurrentIndex(current) <= i
    {
      var id := SECTIONS[i];
      if offsetTop(id).None? {
        continue;
      }
      if center >= offsetTop(id).value {
        current := id;
        SectionIndex(i);
      }
    }
  }
}
