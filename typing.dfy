/**
 * The hero-title typing effect: `typeWriter(element, text)` clears the
 * element, then appends one character of `text` per timer tick.
 */
module Typing {

  /** An element being typed into, together with the closure's counter. */
  class TypeWriter {
    /** The text to type. */
    const text: string
    /** The closure's `i`: how many characters have been typed. */
    var i: nat
    /** The element's `textContent`. */
    var content: string
    /** Whether a `setTimeout(typing, speed)` is pending. */
    var scheduled: bool

    /** The element shows the first `i` characters of the text. */
    ghost predicate ShowsPrefix()
      reads this
    {
      i <= |text| && content == text[..i]
    }

    /** Besides, a tick is pending as long as characters remain. */
    ghost predicate Valid()
      reads this
    {
      ShowsPrefix() && (i < |text| ==> scheduled)
    }

    /** `typeWriter(element, text)`: sets `i` to 0 and the content to '',
        then runs `typing()` once straight away. */
    constructor (text: string)
      ensures Valid() && this.text == text
      ensures text == [] ==> content == [] && !scheduled
      ensures text != [] ==> content == text[..1] && scheduled
    {
      this.text := text;
      i := 0;
      content := "";
      scheduled := false;
      new;
      Typing();
    }

    /** `typing()`: while characters remain, appends the next one and
        schedules itself again; once all are typed it stops rescheduling. */
    method Typing()
      requires ShowsPrefix()
      modifies this`i, this`content, this`scheduled
      ensures Valid()
      ensures old(i) < |text| ==> i == old(i) + 1 && scheduled
      ensures old(i) == |text| ==> i == old(i) && content == old(content) && scheduled == old(scheduled)
    {
      if i < |text| {
        content := content + [text[i]];
        i := i + 1;
        scheduled := true;
      }
    }

    /** A pending timer fires: it is consumed and `typing()` runs. */
    method Tick()
      requires Valid() && scheduled
      modifies this`i, this`content, this`scheduled
      ensures Valid()
      ensures old(i) < |text| ==> i == old(i) + 1 && scheduled
      ensures old(i) == |text| ==> i == old(i) && !scheduled
      ensures content == old(content) + text[old(i)..i]
    {
      scheduled := false;
      Typing();
    }

    /** Letting the timers fire until none is pending leaves the whole text
        in the element, after |text| - i more characters. */
    method RunToCompletion()
      requires Valid()
      modifies this`i, this`content, this`scheduled
      ensures Valid() && content == text && i == |text| && !scheduled
    {
      while scheduled
        invariant Valid()
        decreases |text| - i, scheduled
      {
        Tick();
      }
    }
  }
}
