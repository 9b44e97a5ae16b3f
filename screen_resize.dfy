/** The resizable window of template_game_screen_resize.py: a fixed-size game screen
    is scaled into the application window, either stretched to fill it or fitted
    to it keeping its aspect ratio, and centred. Keys toggle the stretching and
    the window's display flags. */
module ScreenResize {
  import opened Wrappers
  import opened Rects

  const WindowWidth := 1024
  const WindowHeight := 768
  const GameWidth := 256
  const GameHeight := 240

  /** The bits of the display flags word the demo sets: FULLSCREEN, RESIZABLE and
      DOUBLEBUF. XOR with one of these masks flips that bit alone. */
  datatype Flags = Flags(fullscreen: bool, resizable: bool, doubleBuf: bool)

  datatype Size = Size(w: nat, h: nat)

  datatype Failure = ZeroDivisionError

  /** The size the game screen is scaled to in Game.draw. Without stretching, the
      game screen keeps its aspect ratio: it takes the window's full height when the
      game is narrower than the window (game_w / game_h < app_w / app_h), and the
      window's full width otherwise; int() of the non-negative scaled side is its
      floor. The window height divides, so a zero height fails. */
  function FittedSize(app: Size, stretched: bool): Result<Size, Failure>
  {
    if stretched then Ok(app)
    else if app.h == 0 then Err(ZeroDivisionError)
    else if GameWidth * app.h < app.w * GameHeight then
      Ok(Size(app.h * GameWidth / GameHeight, app.h))
    else
      Ok(Size(app.w, app.w * GameHeight / GameWidth))
  }

  /** Stretching fills the window exactly; fitting fails exactly on a zero height,
      and otherwise fills one side of the window and stays inside the other. */
  lemma FittedSizeFits(app: Size, stretched: bool)
    ensures stretched ==> FittedSize(app, stretched) == Ok(app)
    ensures !stretched ==> (FittedSize(app, stretched).Err? <==> app.h == 0)
    ensures FittedSize(app, stretched).Ok? ==>
              var s := FittedSize(app, stretched).value;
              s.w <= app.w && s.h <= app.h && (s.w == app.w || s.h == app.h)
  {
    if !stretched && app.h != 0 {
      if GameWidth * app.h < app.w * GameHeight {
        DivBelow(app.h * GameWidth, GameHeight, app.w);
      } else {
        DivBelow(app.w * GameHeight, GameWidth, app.h);
      }
    }
  }

  /** A quotient of naturals is below m when the dividend is below m times the divisor. */
  lemma DivBelow(a: nat, d: nat, m: nat)
    requires d > 0 && a <= m * d
    ensures a / d <= m
  {
  }

  /** The fitted screen keeps the game's aspect ratio up to the truncation of one
      pixel on the scaled side. */
  lemma FittedSizeKeepsRatio(app: Size)
    requires app.h > 0
    ensures var s := FittedSize(app, false).value;
            s.w * GameHeight <= s.h * GameWidth < (s.w + 1) * GameHeight ||
            s.h * GameWidth <= s.w * GameHeight < (s.h + 1) * GameWidth
  {
  }

  /** The rect the scaled screen is blitted to: its centre set to the window's. */
  function ScreenRect(app: Size, s: Size): Rect
  {
    CenteredAt(Point(app.w / 2, app.h / 2), s.w, s.h)
  }

  /** A screen no larger than the window is blitted entirely inside it. */
  lemma ScreenRectInside(app: Size, s: Size)
    requires s.w <= app.w && s.h <= app.h
    ensures var r := ScreenRect(app, s);
            0 <= r.x && r.x + r.w <= app.w && 0 <= r.y && r.y + r.h <= app.h
  {
  }

  /** Key and window events Game.events reacts to. */
  datatype Event = Quit | Escape | KeyS | KeyF | KeyR | VideoResize(size: Size) | OtherEvent

  /** The state Game.events changes. */
  datatype Window = Window(flags: Flags, stretched: bool, app: Size, running: bool)

  /** Game.__init__: a resizable, double-buffered 1024 x 768 window, not stretched. */
  function InitialWindow(): (w: Window)
    ensures w.flags.resizable && !w.flags.fullscreen && !w.stretched
  {
    Window(Flags(false, true, true), false, Size(WindowWidth, WindowHeight), true)
  }

  /** One event of Game.events. Setting the display mode is taken to give the window
      the requested size. */
  function HandleEvent(w: Window, e: Event): Window
  {
    match e
    case Quit => w.(running := false)
    case Escape => w.(running := false)
    case KeyS => w.(stretched := !w.stretched)
    case KeyF => w.(flags := w.flags.(fullscreen := !w.flags.fullscreen))
    case KeyR => w.(flags := w.flags.(resizable := !w.flags.resizable))
    case VideoResize(size) => w.(app := size)
    case OtherEvent => w
  }

  /** The events of a frame, in order. */
  function HandleEvents(w: Window, events: seq<Event>): Window
    decreases |events|
  {
    if events == [] then w else HandleEvents(HandleEvent(w, events[0]), events[1..])
  }

  /** Pressing S, F or R twice restores the window; each toggles only its own setting. */
  lemma ToggleTwice(w: Window, e: Event)
    requires e == KeyS || e == KeyF || e == KeyR
    ensures HandleEvent(HandleEvent(w, e), e) == w
    ensures HandleEvent(w, e) != w
    ensures e == KeyF ==> HandleEvent(w, e).flags.resizable == w.flags.resizable
    ensures e == KeyR ==> HandleEvent(w, e).flags.fullscreen == w.flags.fullscreen
  {
  }

  /** Toggles commute: the order of the key presses within a frame does not matter. */
  lemma TogglesCommute(w: Window, a: Event, b: Event)
    requires a == KeyS || a == KeyF || a == KeyR
    requires b == KeyS || b == KeyF || b == KeyR
    ensures HandleEvent(HandleEvent(w, a), b) == HandleEvent(HandleEvent(w, b), a)
  {
  }

  /** The events of one frame after those of another are the two frames in turn. */
  lemma {:induction false} HandleEventsAppend(w: Window, first: seq<Event>, second: seq<Event>)
    ensures HandleEvents(w, first + second) == HandleEvents(HandleEvents(w, first), second)
    decreases |first|
  {
    if first != [] {
      assert (first + second)[1..] == first[1..] + second;
      HandleEventsAppend(HandleEvent(w, first[0]), first[1..], second);
    } else {
      assert first + second == second;
    }
  }

  class Game {
    var flags: Flags
    var windowStretched: bool
    var appSize: Size
    var running: bool

    function State(): Window
      reads this
    {
      Window(flags, windowStretched, appSize, running)
    }

    constructor ()
      ensures State() == InitialWindow()
    {
      flags := Flags(false, true, true);
      windowStretched := false;
      appSize := Size(WindowWidth, WindowHeight);
      running := true;
    }

    /** Game.events: each event of the frame updates the fields in place. */
    method Events(events: seq<Event>)
      modifies this
      ensures State() == HandleEvents(old(State()), events)
    {
      for i := 0 to |events|
        invariant HandleEvents(old(State()), events) == HandleEvents(State(), events[i..])
      {
        assert events[i..][1..] == events[i + 1..];
        Handle(events[i]);
      }
    }

    /** The body of the event loop for one event. */
    method Handle(e: Event)
      modifies this
      ensures State() == HandleEvent(old(State()), e)
    {
      match e
      case Quit => running := false;
      case Escape => running := false;
      case KeyS => windowStretched := !windowStretched;
      case KeyF => flags := flags.(fullscreen := !flags.fullscreen);
      case KeyR => flags := flags.(resizable := !flags.resizable);
      case VideoResize(size) => appSize := size;
      case OtherEvent =>
    }

    /** Game.draw: where the scaled game screen lands in the window. */
    method Draw() returns (r: Result<Rect, Failure>)
      ensures r.Err? <==> !windowStretched && appSize.h == 0
      ensures r.Ok? ==> var s := FittedSize(appSize, windowStretched).value;
                        r.value == ScreenRect(appSize, s)
      ensures r.Ok? ==> 0 <= r.value.x && r.value.x + r.value.w <= appSize.w &&
                        0 <= r.value.y && r.value.y + r.value.h <= appSize.h
    {
      var size := FittedSize(appSize, windowStretched);
      FittedSizeFits(appSize, windowStretched);
      if size.Err? {
        return Err(size.error);
      }
      ScreenRectInside(appSize, size.value);
      r := Ok(ScreenRect(appSize, size.value));
    }
  }
}
