/** The multi-line text entry of enter_text.py: key presses edit a list of lines
    and an index of the line being typed into; a timer blinks the cursor. */
module EnterText {
  import opened Wrappers
  import opened Seqs

  /** Characters a line may exceed before typing moves on to a new line. */
  const CharacterLimit := 50
  /** Seconds between two cursor toggles. */
  const BlinkPeriod: real := 0.5

  /** A pressed key: backspace, return, or any other key with the text it types
      (already upper-cased when shift is held). */
  datatype Key = Backspace | Return | Typed(letter: string)

  datatype Event = KeyDown(key: Key) | OtherEvent

  /** The lines typed so far and the index of the line being edited. */
  datatype Text = Text(lines: seq<string>, current: nat)

  /** Game.__init__ starts with one empty line, the first. */
  function Initial(): (t: Text)
    ensures t.lines == [""] && t.current == 0 && OnLastLine(t) && Coherent(t)
  {
    Text([""], 0)
  }

  /** The invariant the editor keeps as long as the text is not emptied: the line
      being edited is the last one. */
  predicate OnLastLine(t: Text)
  {
    t.current == |t.lines| - 1
  }

  /** What every event keeps, even the one that empties the text: the edited index
      never falls behind the last line. */
  predicate Coherent(t: Text)
  {
    t.current + 1 >= |t.lines|
  }

  /** No line is longer than CharacterLimit + 1. */
  predicate LinesShort(t: Text)
  {
    forall i :: 0 <= i < |t.lines| ==> |t.lines[i]| <= CharacterLimit + 1
  }

  /** One KEYDOWN of Game.input_to_text; None where `lines[current]` raises IndexError. */
  function Press(t: Text, k: Key): (r: Option<Text>)
  {
    match k
    case Backspace =>
      if t.current >= |t.lines| then None
      else if |t.lines[t.current]| > 0 then
        var line := t.lines[t.current];
        Some(t.(lines := t.lines[t.current := line[..|line| - 1]]))
      else
        Some(Text(if t.lines == [] then [] else t.lines[..|t.lines| - 1],
                  if t.current == 0 then 0 else t.current - 1))
    case Return =>
      Some(Text(t.lines + [""], t.current + 1))
    case Typed(letter) =>
      if t.current >= |t.lines| then None
      else
        var u := if |t.lines[t.current]| > CharacterLimit then Text(t.lines + [""], t.current + 1) else t;
        Some(u.(lines := u.lines[u.current := u.lines[u.current] + letter]))
  }

  /** What a run of events leaves: the last text reached and whether an event failed. */
  datatype Outcome = Outcome(text: Text, failed: bool)

  /** Game.input_to_text over a frame's events: events other than KEYDOWN are skipped,
      and the first failing key stops the run with the text it found. */
  function Run(t: Text, events: seq<Event>): Outcome
    decreases |events|
  {
    if events == [] then Outcome(t, false)
    else match events[0]
      case OtherEvent => Run(t, events[1..])
      case KeyDown(k) =>
        match Press(t, k)
        case None => Outcome(t, true)
        case Some(u) => Run(u, events[1..])
  }

  /** Backspace on a non-empty last line removes exactly its last character; return
      and backspace on an empty line change no character; typing adds the letter at
      the end. Read as one string, the lines behave like an ordinary text buffer. */
  lemma PressAsTextBuffer(t: Text, k: Key)
    requires OnLastLine(t)
    ensures Press(t, k).Some?
    ensures var j, j' := Concat(t.lines), Concat(Press(t, k).value.lines);
            match k
            case Backspace => j' == (if j != [] && t.lines[t.current] != [] then j[..|j| - 1] else j)
            case Return => j' == j
            case Typed(letter) => j' == j + letter
  {
    match k
    case Backspace => BackspaceAsTextBuffer(t);
    case Return => ConcatSnoc(t.lines, "");
    case Typed(letter) => TypedAsTextBuffer(t, letter);
  }

  lemma BackspaceAsTextBuffer(t: Text)
    requires OnLastLine(t)
    ensures Press(t, Backspace).Some?
    ensures var j, j' := Concat(t.lines), Concat(Press(t, Backspace).value.lines);
            j' == (if j != [] && t.lines[t.current] != [] then j[..|j| - 1] else j)
  {
    var n := |t.lines| - 1;
    var init, last := t.lines[..n], t.lines[n];
    assert t.lines == init + [last];
    ConcatSnoc(init, last);
    if last != [] {
      var shorter := last[..|last| - 1];
      assert Press(t, Backspace).value.lines == t.lines[n := shorter];
      assert t.lines[n := shorter] == init + [shorter];
      ConcatSnoc(init, shorter);
      assert last == shorter + [last[|last| - 1]];
    } else {
      assert Press(t, Backspace).value.lines == init;
    }
  }

  lemma TypedAsTextBuffer(t: Text, letter: string)
    requires OnLastLine(t)
    ensures Press(t, Typed(letter)).Some?
    ensures Concat(Press(t, Typed(letter)).value.lines) == Concat(t.lines) + letter
  {
    var n := |t.lines| - 1;
    var init, last := t.lines[..n], t.lines[n];
    if |last| > CharacterLimit {
      var grown := t.lines + [""];
      assert "" + letter == letter;
      assert grown[n + 1 := letter] == t.lines + [letter];
      assert Press(t, Typed(letter)).value.lines == t.lines + [letter];
      ConcatSnoc(t.lines, letter);
    } else {
      assert t.lines == init + [last];
      ConcatSnoc(init, last);
      assert t.lines[n := last + letter] == init + [last + letter];
      assert Press(t, Typed(letter)).value.lines == init + [last + letter];
      ConcatSnoc(init, last + letter);
    }
  }

  /** Every key keeps the edited line the last one, except backspace on a text that
      is a single empty line, which empties the list of lines. */
  lemma PressKeepsLastLine(t: Text, k: Key)
    requires OnLastLine(t)
    ensures Press(t, k).Some?
    ensures var u := Press(t, k).value;
            OnLastLine(u) <==> !(k == Backspace && t.lines == [""])
    ensures k == Backspace && t.lines == [""] ==> Press(t, k).value == Text([], 0)
  {
  }

  /** Once the edited index has run past the lines, it never comes back: return keeps
      it out of range, and every other key raises IndexError. */
  lemma BrokenStaysBroken(t: Text, k: Key)
    requires t.current >= |t.lines|
    ensures Press(t, k).Some? <==> k == Return
    ensures k == Return ==> Press(t, k).value.current >= |Press(t, k).value.lines|
  {
  }

  /** No key breaks Coherent. */
  lemma PressKeepsCoherent(t: Text, k: Key)
    requires Coherent(t) && Press(t, k).Some?
    ensures Coherent(Press(t, k).value)
  {
  }

  /** With one character per key, no line grows past CharacterLimit + 1. */
  lemma PressKeepsLinesShort(t: Text, k: Key)
    requires Coherent(t)
    requires LinesShort(t)
    requires k.Typed? ==> |k.letter| <= 1
    requires Press(t, k).Some?
    ensures LinesShort(Press(t, k).value)
  {
    var u := Press(t, k).value;
    match k
    case Backspace =>
      if |t.lines[t.current]| == 0 {
        assert forall i :: 0 <= i < |u.lines| ==> u.lines[i] == t.lines[i];
      }
    case Return =>
      assert forall i :: 0 <= i < |t.lines| ==> u.lines[i] == t.lines[i];
    case Typed(letter) =>
  }

  /** A frame's events keep the line-length bound too, however the run ends. */
  lemma {:induction false} RunKeepsLinesShort(t: Text, events: seq<Event>)
    requires Coherent(t)
    requires LinesShort(t)
    requires forall i :: 0 <= i < |events| && events[i].KeyDown? && events[i].key.Typed? ==>
               |events[i].key.letter| <= 1
    ensures LinesShort(Run(t, events).text)
    decreases |events|
  {
    if events != [] {
      var rest := events[1..];
      assert forall i :: 0 <= i < |rest| ==> rest[i] == events[i + 1];
      match events[0]
      case OtherEvent =>
        assert Run(t, events) == Run(t, rest);
        RunKeepsLinesShort(t, rest);
      case KeyDown(k) =>
        if Press(t, k).Some? {
          PressKeepsLinesShort(t, k);
          PressKeepsCoherent(t, k);
          var u := Press(t, k).value;
          assert Run(t, events) == Run(u, rest);
          RunKeepsLinesShort(u, rest);
        }
    }
  }

  /** A run from a text whose edited line is the last fails only if some backspace
      emptied the lines first; without backspaces it never fails. */
  lemma {:induction false} RunWithoutBackspaceSucceeds(t: Text, events: seq<Event>)
    requires OnLastLine(t)
    requires forall i :: 0 <= i < |events| ==> events[i] != KeyDown(Backspace)
    ensures !Run(t, events).failed && OnLastLine(Run(t, events).text)
    decreases |events|
  {
    if events != [] {
      var rest := events[1..];
      assert forall i :: 0 <= i < |rest| ==> rest[i] == events[i + 1];
      match events[0]
      case OtherEvent =>
        assert Run(t, events) == Run(t, rest);
        RunWithoutBackspaceSucceeds(t, rest);
      case KeyDown(k) =>
        PressKeepsLastLine(t, k);
        assert Run(t, events) == Run(Press(t, k).value, rest);
        RunWithoutBackspaceSucceeds(Press(t, k).value, rest);
    }
  }

  /** Whether the cursor is drawn after `timer` more seconds have been added: it
      toggles, and the timer restarts, once the accumulated time reaches the period. */
  function Blink(timer: real, cursor: bool, dt: real): (r: (real, bool))
    ensures 0.0 <= timer + dt ==> 0.0 <= r.0 < BlinkPeriod
    ensures r.1 != cursor <==> timer + dt >= BlinkPeriod
    ensures r.1 != cursor ==> r.0 == 0.0
  {
    if timer + dt >= BlinkPeriod then (0.0, !cursor) else (timer + dt, cursor)
  }

  class Editor {
    var lines: seq<string>
    var current: nat
    /** Seconds since the cursor last toggled. */
    var timer: real
    /** Whether the cursor is shown. */
    var cursor: bool

    function Snapshot(): Text
      reads this`lines, this`current
    {
      Text(lines, current)
    }

    /** Game.__init__: one empty line, the first edited, a visible cursor. */
    constructor ()
      ensures Snapshot() == Initial() && timer == 0.0 && cursor
    {
      lines := [""];
      current := 0;
      timer := 0.0;
      cursor := true;
    }

    /** One KEYDOWN, changing the lines in place; on IndexError nothing has changed. */
    method KeyDown(k: Key) returns (failed: bool)
      modifies this`lines, this`current
      ensures failed <==> Press(old(Snapshot()), k).None?
      ensures Snapshot() == (if failed then old(Snapshot()) else Press(old(Snapshot()), k).value)
    {
      failed := false;
      match k
      case Backspace =>
        if current >= |lines| {
          failed := true;
        } else if |lines[current]| > 0 {
          lines := lines[current := lines[current][..|lines[current]| - 1]];
        } else {
          current := if current == 0 then 0 else current - 1;
          lines := if lines == [] then [] else lines[..|lines| - 1];
        }
      case Return =>
        lines := lines + [""];
        current := current + 1;
      case Typed(letter) =>
        if current >= |lines| {
          failed := true;
        } else {
          if |lines[current]| > CharacterLimit {
            lines := lines + [""];
            current := current + 1;
          }
          lines := lines[current := lines[current] + letter];
        }
    }

    /** Game.input_to_text: the frame's events in order, stopping at the first failure. */
    method InputToText(events: seq<Event>) returns (failed: bool)
      modifies this`lines, this`current
      ensures Run(old(Snapshot()), events) == Outcome(Snapshot(), failed)
    {
      failed := false;
      var i := 0;
      while i < |events|
        invariant 0 <= i <= |events|
        invariant Run(old(Snapshot()), events) == Run(Snapshot(), events[i..])
        decreases |events| - i
      {
        assert events[i..][1..] == events[i + 1..];
        if events[i].KeyDown? {
          failed := KeyDown(events[i].key);
          if failed {
            return;
          }
        }
        i := i + 1;
      }
    }

    /** Game.update: the frame's keys, then the cursor timer; an IndexError ends the
        program before the timer moves. */
    method Update(events: seq<Event>, dt: real) returns (failed: bool)
      modifies this
      ensures Run(old(Snapshot()), events) == Outcome(Snapshot(), failed)
      ensures (timer, cursor) == if failed then old((timer, cursor)) else Blink(old(timer), old(cursor), dt)
    {
      failed := InputToText(events);
      if failed {
        return;
      }
      timer := timer + dt;
      if timer >= BlinkPeriod {
        cursor := !cursor;
        timer := 0.0;
      }
    }
  }
}
