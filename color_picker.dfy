/** The colour picker of color_picker.py: three sliders and three text fields set
    the red, green and blue components of a colour, shown in hexadecimal. */
module Colors {
  import opened Wrappers
  import opened Rects
  import opened Numerals

  const MaxComponent := 255

  /** constrain(n, low, high) = max(min(n, high), low). */
  function Constrain(n: int, low: int, high: int): (r: int)
    ensures low <= r
    ensures low <= high ==> r <= high
    ensures low <= n <= high ==> r == n
    ensures n < low ==> r == low
    ensures high < n ==> r == (if low <= high then high else low)
  {
    if n < high then (if n < low then low else n) else (if high < low then low else high)
  }

  // ---------------------------------------------------------------- rgb_to_hex

  predicate IsHexDigit(c: char)
  {
    '0' <= c <= '9' || 'A' <= c <= 'F'
  }

  /** The upper-case hexadecimal digit of d. */
  function HexDigit(d: nat): (c: char)
    requires d < 16
    ensures IsHexDigit(c)
  {
    if d < 10 then ('0' as int + d) as char else ('A' as int + d - 10) as char
  }

  function HexValue(c: char): nat
  {
    if '0' <= c <= '9' then (c - '0') as nat
    else if 'A' <= c <= 'F' then (c - 'A') as nat + 10
    else 0
  }

  /** '{:x}'.format(n).upper(): the digits of n in base 16, without leading zeros. */
  function Hex(n: nat): (s: string)
    ensures s != [] && (|s| > 1 ==> s[0] != '0')
    ensures forall i :: 0 <= i < |s| ==> IsHexDigit(s[i])
  {
    if n < 16 then [HexDigit(n)] else Hex(n / 16) + [HexDigit(n % 16)]
  }

  /** '{:02x}'.format(n).upper(): padded with zeros to at least two digits. */
  function Hex2(n: nat): (s: string)
    ensures forall i :: 0 <= i < |s| ==> IsHexDigit(s[i])
  {
    var h := Hex(n);
    if |h| < 2 then "0" + h else h
  }

  /** The value of a string of hexadecimal digits. */
  function ParseHex(s: string): nat
  {
    if s == [] then 0 else 16 * ParseHex(s[..|s| - 1]) + HexValue(s[|s| - 1])
  }

  /** rgb_to_hex: '#' and two hexadecimal digits per component, in R, G, B order
      (the six-digit form of section 5.2 of CSS Color Module Level 4). Later list
      elements are ignored, as str.format ignores surplus arguments. */
  function RgbToHex(color: seq<nat>): (s: string)
    requires |color| >= 3
    ensures |s| >= 7 && s[0] == '#'
    ensures forall i :: 1 <= i < |s| ==> IsHexDigit(s[i])
  {
    "#" + Hex2(color[0]) + Hex2(color[1]) + Hex2(color[2])
  }

  /** Reading back the digits Hex writes gives the number. */
  lemma {:induction false} ParseHexOfHex(n: nat)
    ensures ParseHex(Hex(n)) == n
  {
    if n >= 16 {
      ParseHexOfHex(n / 16);
      var s := Hex(n);
      assert s[..|s| - 1] == Hex(n / 16);
    }
  }

  /** A component in 0..255 takes exactly two digits, which read back as it. */
  lemma Hex2OfComponent(n: nat)
    requires n <= MaxComponent
    ensures |Hex2(n)| == 2 && ParseHex(Hex2(n)) == n
  {
    ParseHexOfHex(n);
    if n < 16 {
      assert Hex2(n) == ['0', HexDigit(n)];
      assert Hex2(n)[..1] == "0";
    } else {
      assert Hex(n) == [HexDigit(n / 16), HexDigit(n % 16)];
    }
  }

  /** For components in 0..255 the hex string has exactly seven characters, and each
      pair of digits decodes to its component. */
  lemma RgbToHexRoundTrip(color: seq<nat>)
    requires |color| >= 3
    requires color[0] <= MaxComponent && color[1] <= MaxComponent && color[2] <= MaxComponent
    ensures var s := RgbToHex(color);
            |s| == 7 && ParseHex(s[1..3]) == color[0] &&
            ParseHex(s[3..5]) == color[1] && ParseHex(s[5..7]) == color[2]
  {
    Hex2OfComponent(color[0]);
    Hex2OfComponent(color[1]);
    Hex2OfComponent(color[2]);
    var s := RgbToHex(color);
    assert s[1..3] == Hex2(color[0]);
    assert s[3..5] == Hex2(color[1]);
    assert s[5..7] == Hex2(color[2]);
  }

  /** Two upper-case hexadecimal digits are what Hex2 writes for their value. */
  lemma Hex2OfPair(a: char, b: char)
    requires IsHexDigit(a) && IsHexDigit(b)
    ensures ParseHex([a, b]) <= MaxComponent && Hex2(ParseHex([a, b])) == [a, b]
  {
    assert [a, b][..1] == [a];
    assert [a][..0] == [];
    assert ParseHex([a]) == HexValue(a);
    var v := ParseHex([a, b]);
    assert v == 16 * HexValue(a) + HexValue(b);
    assert HexDigit(HexValue(a)) == a && HexDigit(HexValue(b)) == b;
    if v >= 16 {
      assert v / 16 == HexValue(a) && v % 16 == HexValue(b);
      assert Hex(v / 16) == [a];
    }
  }

  /** Every '#' followed by six upper-case hexadecimal digits is the hex string of
      the colour its pairs decode to: the encoding is onto its format. */
  lemma RgbToHexOnto(s: string)
    requires |s| == 7 && s[0] == '#' && forall i :: 1 <= i < 7 ==> IsHexDigit(s[i])
    ensures var color := [ParseHex(s[1..3]), ParseHex(s[3..5]), ParseHex(s[5..7])];
            RgbToHex(color) == s
  {
    assert s[1..3] == [s[1], s[2]];
    assert s[3..5] == [s[3], s[4]];
    assert s[5..7] == [s[5], s[6]];
    Hex2OfPair(s[1], s[2]);
    Hex2OfPair(s[3], s[4]);
    Hex2OfPair(s[5], s[6]);
  }

  // ------------------------------------------------------------------ sliders

  /** A slider image is 200 wide; its knob is a 20-wide square whose centre sits
      at height 50 of the image. */
  const SliderWidth := 200
  const KnobWidth := 20
  const KnobCentreY := 50
  const KnobMin := KnobWidth / 2
  const KnobMax := SliderWidth - KnobWidth / 2
  /** The mouse grabs a knob closer than this many pixels. */
  const MouseDistance := 40

  /** Slider.value times 255 under int(): the knob's place on its track, scaled to
      0..255 and truncated. */
  function Level(knob: int): (v: nat)
    requires KnobMin <= knob <= KnobMax
    ensures v <= MaxComponent
    ensures knob == KnobMin ==> v == 0
    ensures knob == KnobMax ==> v == MaxComponent
  {
    (knob - KnobMin) * MaxComponent / (KnobMax - KnobMin)
  }

  /** The Slider.value setter: the knob centre for a component, truncated to an
      integer pixel. */
  function KnobFor(v: nat): (knob: int)
    requires v <= MaxComponent
    ensures KnobMin <= knob <= KnobMax
    ensures v == 0 ==> knob == KnobMin
    ensures v == MaxComponent ==> knob == KnobMax
  {
    v * (KnobMax - KnobMin) / MaxComponent + KnobMin
  }

  /** Whether the mouse is within grabbing distance of a knob centre: the Euclidean
      distance is below 40, compared in squares. */
  predicate Near(centre: Point, mouse: Point)
  {
    (mouse.x - centre.x) * (mouse.x - centre.x) + (mouse.y - centre.y) * (mouse.y - centre.y)
      < MouseDistance * MouseDistance
  }

  // -------------------------------------------------------------- text fields

  /** Events of the frame's queue the picker reads: a key with its code, a mouse
      button press, or anything else. */
  datatype Event = KeyDown(key: nat) | MouseButtonDown | OtherEvent

  const Backspace := 8
  /** The largest code point chr() accepts. */
  const MaxCodePoint := 0x10FFFF

  datatype Failure = ValueError

  /** What a text field shows and whether it takes keys. */
  datatype Field = Field(text: string, highlighted: bool)

  /** One KEYDOWN on a highlighted field: a digit is appended, backspace drops the
      last character, other keys do nothing; chr() of a key code above the last code
      point raises ValueError. */
  function TypeKey(text: string, e: Event): (r: Result<string, Failure>)
    ensures AllDigits(text) && r.Ok? ==> AllDigits(r.value)
  {
    match e
    case KeyDown(key) =>
      if key > MaxCodePoint then Err(ValueError)
      else if '0' as nat <= key <= '9' as nat then Ok(text + [key as char])
      else if key == Backspace then Ok(if text == [] then [] else text[..|text| - 1])
      else Ok(text)
    case _ => Ok(text)
  }

  /** The key loop of ColorPicker.update over the whole queue. */
  function TypeKeys(text: string, events: seq<Event>): (r: Result<string, Failure>)
    ensures AllDigits(text) && r.Ok? ==> AllDigits(r.value)
  {
    if events == [] then Ok(text)
    else match TypeKeys(text, events[..|events| - 1])
      case Err(e) => Err(e)
      case Ok(t) => TypeKey(t, events[|events| - 1])
  }

  predicate BadKey(e: Event)
  {
    e.KeyDown? && e.key > MaxCodePoint
  }

  /** Typing fails exactly when some key code has no character. */
  lemma {:induction false} TypeKeysFails(text: string, events: seq<Event>)
    ensures TypeKeys(text, events).Err? <==> exists i :: 0 <= i < |events| && BadKey(events[i])
  {
    if events != [] {
      var init := events[..|events| - 1];
      TypeKeysFails(text, init);
      if exists i :: 0 <= i < |init| && BadKey(init[i]) {
        var i :| 0 <= i < |init| && BadKey(init[i]);
        assert events[i] == init[i];
      }
      if i :| 0 <= i < |events| && BadKey(events[i]) {
        if i < |init| {
          assert init[i] == events[i];
        }
      }
    }
  }

  /** Digits typed in order are appended in order; backspace undoes the last one. */
  lemma TypeDigitThenBackspace(text: string, d: nat)
    requires '0' as nat <= d <= '9' as nat
    ensures TypeKeys(text, [KeyDown(d), KeyDown(Backspace)]) == Ok(text)
  {
    var es := [KeyDown(d), KeyDown(Backspace)];
    assert es[..1] == [KeyDown(d)];
    assert [KeyDown(d)][..0] == [];
    assert TypeKeys(text, []) == Ok(text);
    assert TypeKeys(text, [KeyDown(d)]) == Ok(text + [d as char]);
    assert (text + [d as char])[..|text|] == text;
  }

  // ------------------------------------------------------------- the picker

  /** What ColorPicker.update reads and writes: the colour, the three fields, and
      each slider's knob position and whether it is held. */
  datatype Picker = Picker(color: seq<nat>, fields: seq<Field>, knobs: seq<int>, held: seq<bool>)

  /** Three of each; components in 0..255, knobs on their track, fields holding digits. */
  predicate WellFormed(p: Picker)
  {
    |p.color| == 3 && |p.fields| == 3 && |p.knobs| == 3 && |p.held| == 3 &&
    (forall i :: 0 <= i < 3 ==> p.color[i] <= MaxComponent) &&
    (forall i :: 0 <= i < 3 ==> KnobMin <= p.knobs[i] <= KnobMax) &&
    (forall i :: 0 <= i < 3 ==> AllDigits(p.fields[i].text))
  }

  /** The first loop of ColorPicker.update for slider i: the component follows the
      slider, and a held slider takes the highlight from its field. */
  function SliderStep(p: Picker, i: nat): (q: Picker)
    requires WellFormed(p) && i < 3
    ensures WellFormed(q)
  {
    var fs := if p.held[i] then p.fields[i := p.fields[i].(highlighted := false)] else p.fields;
    p.(color := p.color[i := Level(p.knobs[i])], fields := fs)
  }

  function SliderPass(p: Picker, n: nat): (q: Picker)
    requires WellFormed(p) && n <= 3
    ensures WellFormed(q)
  {
    if n == 0 then p else SliderStep(SliderPass(p, n - 1), n - 1)
  }

  /** Every field but field i loses its highlight. */
  function OnlyHighlighted(fs: seq<Field>, i: nat): (r: seq<Field>)
    ensures |r| == |fs|
    ensures forall j :: 0 <= j < |fs| ==>
              r[j].text == fs[j].text && r[j].highlighted == (fs[j].highlighted && j == i)
  {
    seq(|fs|, j requires 0 <= j < |fs| => if j == i then fs[j] else fs[j].(highlighted := false))
  }

  /** The second loop of ColorPicker.update for field i. A highlighted field
      un-highlights the others and takes the frame's keys; if its text is then
      non-empty, the component becomes its value clamped to 0..255, the text that
      value in decimal, and the slider is moved to it. A field that is not
      highlighted shows its component. */
  function FieldStep(p: Picker, events: seq<Event>, i: nat): (r: Result<Picker, Failure>)
    requires WellFormed(p) && i < 3
    ensures r.Ok? ==> WellFormed(r.value)
  {
    if !p.fields[i].highlighted then
      Ok(p.(fields := p.fields[i := p.fields[i].(text := Show(p.color[i]))]))
    else
      var fs := OnlyHighlighted(p.fields, i);
      match TypeKeys(fs[i].text, events)
      case Err(e) => Err(e)
      case Ok(t) => Ok(FieldTaken(p.(fields := fs), i, t))
  }

  /** Field i, highlighted, after its keys left text t: a non-empty t sets the
      component to its value clamped to 0..255, the text to that value in decimal,
      and the slider to it. */
  function FieldTaken(p: Picker, i: nat, t: string): (q: Picker)
    requires WellFormed(p) && i < 3 && AllDigits(t)
    ensures WellFormed(q)
  {
    if t == [] then p.(fields := p.fields[i := p.fields[i].(text := t)])
    else
      var v := Constrain(Decimal(t), 0, MaxComponent);
      p.(color := p.color[i := v], fields := p.fields[i := Field(Show(v), true)],
         knobs := p.knobs[i := KnobFor(v)])
  }

  function FieldPass(p: Picker, events: seq<Event>, n: nat): (r: Result<Picker, Failure>)
    requires WellFormed(p) && n <= 3
    ensures r.Ok? ==> WellFormed(r.value)
  {
    if n == 0 then Ok(p)
    else match FieldPass(p, events, n - 1)
      case Err(e) => Err(e)
      case Ok(q) => FieldStep(q, events, n - 1)
  }

  /** ColorPicker.update, leaving out the drawing. */
  function PickerUpdate(p: Picker, events: seq<Event>): (r: Result<Picker, Failure>)
    requires WellFormed(p)
    ensures r.Ok? ==> WellFormed(r.value)
  {
    FieldPass(SliderPass(p, 3), events, 3)
  }

  /** The index of the first highlighted field, or |fs| when there is none. */
  function FirstHighlighted(fs: seq<Field>): (k: nat)
    ensures k <= |fs| && (k < |fs| ==> fs[k].highlighted)
    ensures forall j :: 0 <= j < k ==> !fs[j].highlighted
  {
    if fs == [] then 0 else if fs[0].highlighted then 0 else 1 + FirstHighlighted(fs[1..])
  }

  predicate HasBadKey(events: seq<Event>)
  {
    exists i :: 0 <= i < |events| && BadKey(events[i])
  }

  /** What the field loop guarantees after n fields of p: the first highlighted
      field keeps its highlight and takes it from all others once reached; a field
      already visited shows its component unless it is the highlighted one, which
      shows nothing or its component; fields not yet visited are untouched. */
  ghost predicate Visited(p: Picker, q: Picker, n: nat)
    requires WellFormed(p) && WellFormed(q)
  {
    var f := FirstHighlighted(p.fields);
    (forall j :: 0 <= j < 3 ==>
       q.fields[j].highlighted == (if f < n then j == f else p.fields[j].highlighted)) &&
    (forall j :: 0 <= j < n && j < 3 && !q.fields[j].highlighted ==>
       q.fields[j].text == Show(q.color[j])) &&
    (forall j :: 0 <= j < n && j < 3 && q.fields[j].highlighted ==>
       q.fields[j].text == [] || q.fields[j].text == Show(q.color[j])) &&
    (forall j :: n <= j < 3 ==> q.fields[j].text == p.fields[j].text && q.color[j] == p.color[j])
  }

  /** A step on a field that is not highlighted only rewrites that field's text. */
  lemma PlainFieldStep(p: Picker, q: Picker, events: seq<Event>, i: nat)
    requires WellFormed(p) && WellFormed(q) && i < 3 && Visited(p, q, i)
    requires !q.fields[i].highlighted
    ensures FieldStep(q, events, i).Ok? && Visited(p, FieldStep(q, events, i).value, i + 1)
  {
  }

  /** A step on the highlighted field un-highlights the others, which at that point
      are all un-highlighted already or not yet visited. */
  lemma HighlightedFieldStep(p: Picker, q: Picker, events: seq<Event>, i: nat)
    requires WellFormed(p) && WellFormed(q) && i < 3 && Visited(p, q, i)
    requires q.fields[i].highlighted && FieldStep(q, events, i).Ok?
    ensures Visited(p, FieldStep(q, events, i).value, i + 1)
  {
    assert FirstHighlighted(p.fields) == i;
    var r := FieldStep(q, events, i).value;
    var fs := OnlyHighlighted(q.fields, i);
    var t := TypeKeys(fs[i].text, events).value;
    if t != [] {
      var v := Constrain(Decimal(t), 0, MaxComponent);
      assert r.color == q.color[i := v];
      assert r.fields == fs[i := Field(Show(v), true)];
    } else {
      assert r.fields == fs[i := fs[i].(text := t)];
    }
  }

  /** The loop over n fields fails exactly when it has reached a highlighted field and
      the queue holds a key with no character; otherwise it leaves the fields Visited. */
  lemma {:induction false} FieldPassFacts(p: Picker, events: seq<Event>, n: nat)
    requires WellFormed(p) && n <= 3
    ensures FieldPass(p, events, n).Err? <==> FirstHighlighted(p.fields) < n && HasBadKey(events)
    ensures FieldPass(p, events, n).Ok? ==> Visited(p, FieldPass(p, events, n).value, n)
    decreases n
  {
    if n > 0 {
      FieldPassFacts(p, events, n - 1);
      var i := n - 1;
      if FieldPass(p, events, i).Ok? {
        var q := FieldPass(p, events, i).value;
        if q.fields[i].highlighted {
          TypeKeysFails(OnlyHighlighted(q.fields, i)[i].text, events);
          if FieldStep(q, events, i).Ok? {
            HighlightedFieldStep(p, q, events, i);
          }
        } else {
          PlainFieldStep(p, q, events, i);
        }
      }
    }
  }

  /** After ColorPicker.update exactly one field is highlighted, the first that was
      still highlighted once the held sliders had taken theirs, or none. */
  lemma HighlightExclusive(p: Picker, events: seq<Event>)
    requires WellFormed(p) && PickerUpdate(p, events).Ok?
    ensures var s := SliderPass(p, 3);
            var f := FirstHighlighted(s.fields);
            forall j :: 0 <= j < 3 ==> PickerUpdate(p, events).value.fields[j].highlighted == (j == f)
  {
    FieldPassFacts(SliderPass(p, 3), events, 3);
  }

  /** A field that is not highlighted shows its component in decimal; the highlighted
      one shows its component or, when all was erased, nothing. */
  lemma FieldsShowColor(p: Picker, events: seq<Event>)
    requires WellFormed(p) && PickerUpdate(p, events).Ok?
    ensures var q := PickerUpdate(p, events).value;
            forall j :: 0 <= j < 3 ==>
              q.fields[j].text == Show(q.color[j]) ||
              (q.fields[j].highlighted && q.fields[j].text == [])
  {
    FieldPassFacts(SliderPass(p, 3), events, 3);
  }

  /** The held sliders' effect: a slider held during the frame leaves its field
      un-highlighted. */
  lemma {:induction false} SliderPassHeld(p: Picker, n: nat)
    requires WellFormed(p) && n <= 3
    ensures forall j :: 0 <= j < n && p.held[j] ==> !SliderPass(p, n).fields[j].highlighted
    ensures forall j :: 0 <= j < 3 ==>
              SliderPass(p, n).held[j] == p.held[j] &&
              SliderPass(p, n).fields[j].text == p.fields[j].text &&
              (SliderPass(p, n).fields[j].highlighted ==> p.fields[j].highlighted)
    decreases n
  {
    if n > 0 {
      SliderPassHeld(p, n - 1);
    }
  }

  lemma HeldSliderUnhighlights(p: Picker, events: seq<Event>, j: nat)
    requires WellFormed(p) && PickerUpdate(p, events).Ok? && j < 3 && p.held[j]
    ensures !PickerUpdate(p, events).value.fields[j].highlighted
  {
    SliderPassHeld(p, 3);
    FieldPassFacts(SliderPass(p, 3), events, 3);
  }

  predicate AnyHighlighted(fs: seq<Field>)
  {
    exists j :: 0 <= j < |fs| && fs[j].highlighted
  }

  /** The update fails exactly when some field is highlighted after the sliders'
      pass and the queue holds a key code with no character. */
  lemma UpdateFails(p: Picker, events: seq<Event>)
    requires WellFormed(p)
    ensures PickerUpdate(p, events).Err? <==> AnyHighlighted(SliderPass(p, 3).fields) && HasBadKey(events)
  {
    var s := SliderPass(p, 3);
    FieldPassFacts(s, events, 3);
    var f := FirstHighlighted(s.fields);
    if f < 3 {
      assert s.fields[f].highlighted;
    }
  }

  // ------------------------------------------------------------ text field clicks

  /** The number of mouse button presses in the queue. */
  function Clicks(events: seq<Event>): nat
  {
    if events == [] then 0
    else Clicks(events[..|events| - 1]) + (if events[|events| - 1].MouseButtonDown? then 1 else 0)
  }

  /** One click on a field: the highlight flips, and a field that becomes highlighted
      is emptied. */
  function Toggle(f: Field): Field
  {
    if f.highlighted then f.(highlighted := false) else Field([], true)
  }

  function Toggled(f: Field, n: nat): Field
  {
    if n == 0 then f else Toggle(Toggled(f, n - 1))
  }

  /** After n clicks the highlight has flipped n times, and the text is gone as soon
      as one of the clicks highlighted the field. */
  lemma {:induction false} ToggledClosedForm(f: Field, n: nat)
    ensures Toggled(f, n).highlighted == (f.highlighted != (n % 2 == 1))
    ensures Toggled(f, n).text == if n >= 2 || (n == 1 && !f.highlighted) then [] else f.text
  {
    if n > 0 {
      ToggledClosedForm(f, n - 1);
    }
  }

  class TextField {
    const rect: Rect
    var text: string
    var highlighted: bool

    function State(): Field
      reads this
    {
      Field(text, highlighted)
    }

    /** TextField.__init__: the default text, not highlighted; the rect is the
        rendered text's rect grown by 10 in each direction, placed by its top-left. */
    constructor (rect: Rect, defaultText: string)
      ensures this.rect == rect && State() == Field(defaultText, false)
    {
      this.rect := rect;
      text := defaultText;
      highlighted := false;
    }

    /** TextField.update: with the mouse over the field, each mouse button press of
        the frame toggles the highlight, emptying the text when it turns on. */
    method Update(mouse: Point, events: seq<Event>)
      modifies this
      ensures State() == Toggled(old(State()), if CollidePoint(rect, mouse) then Clicks(events) else 0)
    {
      if CollidePoint(rect, mouse) {
        for i := 0 to |events|
          invariant State() == Toggled(old(State()), Clicks(events[..i]))
        {
          assert events[..i + 1][..i] == events[..i];
          if events[i].MouseButtonDown? {
            highlighted := !highlighted;
            if highlighted {
              text := "";
            }
          }
        }
        assert events[..|events|] == events;
      }
    }
  }

  class Slider {
    /** Top-left corner of the slider image on the screen. */
    const pos: Point
    /** The x of the knob's centre within the image. */
    var knob: int
    var held: bool

    /** Slider.__init__: the knob at the left end of the track. */
    constructor (pos: Point)
      ensures this.pos == pos && knob == KnobMin && !held
    {
      this.pos := pos;
      knob := KnobMin;
      held := false;
    }

    /** The Slider.value getter: the knob's place on its track, from 0 to 1. */
    function Value(): (v: real)
      reads this
      ensures KnobMin <= knob <= KnobMax ==> 0.0 <= v <= 1.0
    {
      (knob - KnobMin) as real / (KnobMax - KnobMin) as real
    }

    /** Slider.update: pressing the left button near the knob grabs it, releasing
        lets go; a held knob follows the mouse; the knob is then clamped to the track. */
    method Update(mouse: Point, leftPressed: bool)
      modifies this
      ensures held == (leftPressed && (old(held) || Near(Point(pos.x + old(knob), pos.y + KnobCentreY), mouse)))
      ensures knob == Constrain(if held then mouse.x - pos.x else old(knob), KnobMin, KnobMax)
      ensures KnobMin <= knob <= KnobMax && 0.0 <= Value() <= 1.0
    {
      if leftPressed {
        if Near(Point(pos.x + knob, pos.y + KnobCentreY), mouse) {
          held := true;
        }
      } else {
        held := false;
      }
      if held {
        knob := mouse.x - pos.x;
      }
      knob := Constrain(knob, KnobMin, KnobMax);
    }

    /** The Slider.value setter, given a component in 0..255. */
    method SetValue(v: nat)
      requires v <= MaxComponent
      modifies this`knob
      ensures knob == KnobFor(v)
    {
      knob := KnobFor(v);
    }
  }

  class ColorPicker {
    const fields: seq<TextField>
    const sliders: seq<Slider>
    var colorValue: seq<nat>

    /** Three fields and three sliders, each its own object. */
    predicate Distinct()
    {
      |fields| == 3 && |sliders| == 3 &&
      (forall a, b :: 0 <= a < 3 && 0 <= b < 3 && a != b ==> fields[a] != fields[b]) &&
      (forall a, b :: 0 <= a < 3 && 0 <= b < 3 && a != b ==> sliders[a] != sliders[b])
    }

    ghost predicate Valid()
      reads this, fields, sliders
    {
      Distinct() && WellFormed(Snapshot())
    }

    function Snapshot(): Picker
      reads this, fields, sliders
      requires |fields| == 3 && |sliders| == 3
    {
      Picker(colorValue,
             seq(3, k requires 0 <= k < 3 reads fields => fields[k].State()),
             seq(3, k requires 0 <= k < 3 reads sliders => sliders[k].knob),
             seq(3, k requires 0 <= k < 3 reads sliders => sliders[k].held))
    }

    /** ColorPicker.__init__: black, with a slider for each component whose left edge
        is at the centre of the 800-wide screen, and a text field for each showing 255. The fields'
        size is that of the rendered text, which the caller supplies. */
    constructor (textWidth: nat, textHeight: nat)
      ensures Valid() && fresh(fields) && fresh(sliders)
      ensures Snapshot() == Picker([0, 0, 0], [Field("255", false), Field("255", false), Field("255", false)],
                                   [KnobMin, KnobMin, KnobMin], [false, false, false])
    {
      var ss := NewSliders();
      var fs := NewFields(textWidth, textHeight);
      sliders := ss;
      fields := fs;
      colorValue := [0, 0, 0];
      new;
      ghost var p := Picker([0, 0, 0], [Field("255", false), Field("255", false), Field("255", false)],
                            [KnobMin, KnobMin, KnobMin], [false, false, false]);
      assert Snapshot().fields == p.fields by {
        assert forall k :: 0 <= k < 3 ==> Snapshot().fields[k] == p.fields[k];
      }
      assert Snapshot().knobs == p.knobs by {
        assert forall k :: 0 <= k < 3 ==> Snapshot().knobs[k] == p.knobs[k];
      }
      assert Snapshot().held == p.held by {
        assert forall k :: 0 <= k < 3 ==> Snapshot().held[k] == p.held[k];
      }
      assert AllDigits("255");
    }

    /** The three sliders, one below the other, with their left edge at the screen's centre. */
    static method NewSliders() returns (ss: seq<Slider>)
      ensures |ss| == 3 && ss[0] != ss[1] && ss[0] != ss[2] && ss[1] != ss[2] && fresh(ss)
      ensures forall k :: 0 <= k < 3 ==> ss[k].knob == KnobMin && !ss[k].held
    {
      var s0 := new Slider(Point(400, 200));
      var s1 := new Slider(Point(400, 300));
      var s2 := new Slider(Point(400, 400));
      ss := [s0, s1, s2];
    }

    /** The three text fields, side by side, each showing 255. */
    static method NewFields(textWidth: nat, textHeight: nat) returns (fs: seq<TextField>)
      ensures |fs| == 3 && fs[0] != fs[1] && fs[0] != fs[2] && fs[1] != fs[2] && fresh(fs)
      ensures forall k :: 0 <= k < 3 ==> fs[k].State() == Field("255", false)
    {
      var f0 := new TextField(Rect(80, 500, textWidth + 10, textHeight + 10), "255");
      var f1 := new TextField(Rect(140, 500, textWidth + 10, textHeight + 10), "255");
      var f2 := new TextField(Rect(200, 500, textWidth + 10, textHeight + 10), "255");
      fs := [f0, f1, f2];
    }

    /** ColorPicker.update, leaving out the drawing: the sliders' loop, then the
        fields' loop. A key code with no character ends the program with ValueError. */
    method Update(events: seq<Event>) returns (failed: bool)
      requires Valid()
      modifies this, fields, sliders
      ensures failed <==> PickerUpdate(old(Snapshot()), events).Err?
      ensures !failed ==> Valid() && Snapshot() == PickerUpdate(old(Snapshot()), events).value
    {
      ghost var start := Snapshot();
      for i := 0 to 3
        invariant Valid() && Snapshot() == SliderPass(start, i)
      {
        SliderToColor(i);
      }
      ghost var mid := Snapshot();
      failed := false;
      for i := 0 to 3
        invariant Valid() && FieldPass(mid, events, i) == Ok(Snapshot())
      {
        failed := FieldToColor(i, events);
        if failed {
          assert FieldPass(mid, events, 3).Err? by {
            FieldPassErrStays(mid, events, i + 1, 3);
          }
          return;
        }
      }
    }

    /** The first loop's body for slider i. */
    method SliderToColor(i: nat)
      requires Valid() && i < 3
      modifies this, fields[i]
      ensures Valid() && Snapshot() == SliderStep(old(Snapshot()), i)
    {
      ghost var p := Snapshot();
      assert p.knobs[i] == sliders[i].knob && p.held[i] == sliders[i].held;
      colorValue := colorValue[i := Level(sliders[i].knob)];
      if sliders[i].held {
        fields[i].highlighted := false;
      }
      ghost var q := SliderStep(p, i);
      assert Snapshot().fields == q.fields by {
        assert forall k :: 0 <= k < 3 ==> Snapshot().fields[k] == q.fields[k];
      }
      assert Snapshot().knobs == q.knobs && Snapshot().held == q.held;
    }

    /** The second loop's body for field i. */
    method FieldToColor(i: nat, events: seq<Event>) returns (failed: bool)
      requires Valid() && i < 3
      modifies this, fields, sliders[i]
      ensures failed <==> FieldStep(old(Snapshot()), events, i).Err?
      ensures !failed ==> Valid() && Snapshot() == FieldStep(old(Snapshot()), events, i).value
    {
      ghost var p := Snapshot();
      assert p.fields[i] == fields[i].State();
      failed := false;
      if fields[i].highlighted {
        UnhighlightOthers(i);
        assert Snapshot().fields[i] == fields[i].State();
        failed := TakeKeys(i, events);
      } else {
        fields[i].text := Show(colorValue[i]);
        ghost var q := FieldStep(p, events, i).value;
        assert Snapshot().fields == q.fields by {
          assert forall k :: 0 <= k < 3 ==> Snapshot().fields[k] == q.fields[k];
        }
        assert Snapshot().knobs == q.knobs && Snapshot().held == q.held;
      }
    }

    /** The loop over the other fields, taking their highlight. */
    method UnhighlightOthers(i: nat)
      requires Valid() && i < 3
      modifies fields
      ensures Valid() && Snapshot() == old(Snapshot()).(fields := OnlyHighlighted(old(Snapshot()).fields, i))
    {
      ghost var p := Snapshot();
      for j := 0 to 3
        invariant forall k :: 0 <= k < 3 ==>
                    fields[k].text == old(fields[k].text) &&
                    fields[k].highlighted == (old(fields[k].highlighted) && (k == i || k >= j))
      {
        if j != i {
          fields[j].highlighted := false;
        }
      }
      ghost var q := p.(fields := OnlyHighlighted(p.fields, i));
      assert Snapshot().fields == q.fields by {
        assert forall k :: 0 <= k < 3 ==> Snapshot().fields[k] == q.fields[k];
      }
      assert Snapshot().knobs == q.knobs && Snapshot().held == q.held;
    }

    /** A highlighted field, the others already un-highlighted, takes the frame's
        keys; a non-empty result sets the component, the text and the slider. */
    method TakeKeys(i: nat, events: seq<Event>) returns (failed: bool)
      requires Valid() && i < 3 && fields[i].highlighted && AllDigits(fields[i].text)
      modifies this, fields[i], sliders[i]
      ensures failed <==> TypeKeys(old(fields[i].text), events).Err?
      ensures !failed ==> Valid() && Snapshot() == FieldTaken(old(Snapshot()), i, TypeKeys(old(fields[i].text), events).value)
    {
      ghost var p := Snapshot();
      assert p.fields[i] == fields[i].State();
      var field := fields[i];
      failed := TypeInto(field, events);
      if failed {
        return;
      }
      ghost var t := field.text;
      assert forall k :: 0 <= k < 3 ==> p.knobs[k] == sliders[k].knob && p.held[k] == sliders[k].held;
      if field.text != [] {
        var v := Constrain(Decimal(field.text), 0, MaxComponent);
        colorValue := colorValue[i := v];
        field.text := Show(v);
        sliders[i].SetValue(v);
        assert forall k :: 0 <= k < 3 && k != i ==> sliders[k].knob == p.knobs[k];
      }
      ghost var q := FieldTaken(p, i, t);
      assert Snapshot().fields == q.fields by {
        assert forall k :: 0 <= k < 3 ==> Snapshot().fields[k] == q.fields[k];
      }
      assert Snapshot().knobs == q.knobs by {
        assert forall k :: 0 <= k < 3 ==> Snapshot().knobs[k] == q.knobs[k];
      }
      assert Snapshot().held == q.held by {
        assert forall k :: 0 <= k < 3 ==> Snapshot().held[k] == q.held[k];
      }
    }

    /** The key loop of ColorPicker.update on one field. */
    method TypeInto(field: TextField, events: seq<Event>) returns (failed: bool)
      modifies field`text
      ensures failed <==> TypeKeys(old(field.text), events).Err?
      ensures !failed ==> field.text == TypeKeys(old(field.text), events).value
    {
      failed := false;
      for k := 0 to |events|
        invariant TypeKeys(old(field.text), events[..k]) == Ok(field.text)
      {
        assert events[..k + 1][..k] == events[..k];
        if BadKey(events[k]) {
          TypeKeysFails(old(field.text), events);
          return true;
        }
        if events[k].KeyDown? {
          var key := events[k].key;
          if '0' as nat <= key <= '9' as nat {
            field.text := field.text + [key as char];
          } else if key == Backspace {
            field.text := if field.text == [] then [] else field.text[..|field.text| - 1];
          }
        }
      }
      assert events[..|events|] == events;
    }
  }

  /** Once the field loop has failed, it stays failed. */
  lemma {:induction false} FieldPassErrStays(p: Picker, events: seq<Event>, m: nat, n: nat)
    requires WellFormed(p) && m <= n <= 3 && FieldPass(p, events, m).Err?
    ensures FieldPass(p, events, n).Err?
    decreases n - m
  {
    if m < n {
      FieldPassErrStays(p, events, m + 1, n);
    }
  }
}
