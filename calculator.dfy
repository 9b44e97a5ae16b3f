/** The keypad calculator of calculator.py: buttons on a grid build up a display
    string and a cache string holding the expression typed so far; '=' hands the
    cache to Python's evaluator, which the model takes as a parameter. */
module Calculator {
  import opened Wrappers
  import opened Rects
  import opened Seqs
  import opened Numerals

  const ButtonSize := 40
  const Margin := 6
  /** Frames a button waits after a press before it registers another. */
  const Delay := 10

  datatype Failure =
    | ValueError  // int() of a display holding no digit
    | EvalError   // eval() of the cache string raised

  /** add, subtract, multiply and divide on a list of numbers. Only add accepts any
      length; the others read the first two elements, and divide fails on zero. */
  function Add(x: seq<real>): real
  {
    if x == [] then 0.0 else Add(x[..|x| - 1]) + x[|x| - 1]
  }

  datatype ArithFailure = IndexError | ZeroDivisionError

  function Subtract(x: seq<real>): Result<real, ArithFailure>
  {
    if |x| < 2 then Err(IndexError) else Ok(x[0] - x[1])
  }

  function Multiply(x: seq<real>): Result<real, ArithFailure>
  {
    if |x| < 2 then Err(IndexError) else Ok(x[0] * x[1])
  }

  function Divide(x: seq<real>): Result<real, ArithFailure>
  {
    if |x| < 2 then Err(IndexError) else if x[1] == 0.0 then Err(ZeroDivisionError) else Ok(x[0] / x[1])
  }

  /** Subtraction undoes addition and multiplication undoes division. */
  lemma ArithmeticInverses(a: real, b: real)
    ensures Subtract([Add([a, b]), b]) == Ok(a)
    ensures b != 0.0 ==> Multiply([Divide([a, b]).value, b]) == Ok(a)
    ensures Divide([a, 0.0]) == Err(ZeroDivisionError)
  {
    assert [a, b][..1] == [a];
    assert [a][..0] == [];
    assert Add([a]) == a;
    assert Add([a, b]) == a + b;
    if b != 0.0 {
      var q := a / b;
      assert Divide([a, b]) == Ok(q);
      assert q * b == a;
      var x := [q, b];
      assert |x| == 2 && x[0] == q && x[1] == b;
      assert Multiply(x).Ok?;
      assert Multiply(x).value == x[0] * x[1];
      assert Multiply(x).value == a;
    }
  }

  /** Add sums any list, one element at a time. */
  lemma {:induction false} AddAppend(x: seq<real>, y: seq<real>)
    ensures Add(x + y) == Add(x) + Add(y)
  {
    if y != [] {
      assert (x + y)[..|x + y| - 1] == x + y[..|y| - 1];
      AddAppend(x, y[..|y| - 1]);
    } else {
      assert x + y == x;
    }
  }

  /** The digits of a string, in order: ''.join(i for i in s if i in NUMBERS). */
  function DigitsOf(s: string): string
  {
    Filter(s, IsDigit)
  }

  /** The fields of the calculator a button press changes. */
  datatype Calc = Calc(display: string, cache: string, numbers: seq<nat>, solved: bool)

  function InitialCalc(): Calc
  {
    Calc("", "", [], false)
  }

  /** What Button.update does once a press registers: a solved equation is cleared
      first; a digit is appended to the display; any other key first records the
      display's number, then '=' evaluates the cache, 'C' clears, and an operator
      moves the display into the cache and shows itself. The state is the one the
      program has when it stops, also on failure. */
  function Press(st: Calc, key: char, evaluate: string -> Option<string>): (Calc, Option<Failure>)
  {
    var st := if st.solved then st.(cache := "", display := "", solved := false) else st;
    if IsDigit(key) then (st.(display := st.display + [key]), None)
    else
      var ds := DigitsOf(st.display);
      if ds == [] then (st, Some(ValueError))
      else
        var st := st.(numbers := st.numbers + [Decimal(ds)]);
        if key == '=' then
          var st := st.(cache := st.cache + " " + st.display);
          match evaluate(st.cache)
          case None => (st, Some(EvalError))
          case Some(text) => (st.(display := text, solved := true), None)
        else if key == 'C' then (st.(display := "", cache := "", numbers := []), None)
        else (st.(cache := st.cache + " " + st.display, display := [key, ' ']), None)
  }

  /** A run of registered presses, stopping at the first failure. */
  function PressAll(st: Calc, keys: string, evaluate: string -> Option<string>): (Calc, Option<Failure>)
    decreases |keys|
  {
    if keys == [] then (st, None)
    else
      var r := Press(st, keys[0], evaluate);
      if r.1.Some? then r else PressAll(r.0, keys[1..], evaluate)
  }

  /** A non-digit press fails with ValueError exactly when the display it reads holds
      no digit; so does every non-digit press right after a solved equation, whose
      display the press clears first. */
  lemma NonDigitNeedsDigits(st: Calc, key: char, evaluate: string -> Option<string>)
    requires !IsDigit(key)
    ensures var shown := if st.solved then "" else st.display;
            Press(st, key, evaluate).1 == Some(ValueError) <==> DigitsOf(shown) == []
    ensures st.solved ==> Press(st, key, evaluate).1 == Some(ValueError)
  {
  }

  /** Digits typed after an operator make up the operand: the operator and its space
      are not digits. */
  lemma OperandAfterOperator(op: char, ds: string)
    requires !IsDigit(op)
    requires forall i :: 0 <= i < |ds| ==> IsDigit(ds[i])
    ensures DigitsOf([op, ' '] + ds) == ds
  {
    FilterConcat([op, ' '], ds, IsDigit);
    FilterAllKept(ds, IsDigit);
    assert [op, ' '] == [op] + [' '];
    FilterSnoc([op], ' ', IsDigit);
    assert [op] == [] + [op];
    FilterSnoc([], op, IsDigit);
  }

  /** Typing digits onto a display appends them to the display. */
  lemma {:induction false} TypeDigits(st: Calc, ds: string, evaluate: string -> Option<string>)
    requires !st.solved
    requires forall i :: 0 <= i < |ds| ==> IsDigit(ds[i])
    ensures PressAll(st, ds, evaluate) == (st.(display := st.display + ds), None)
    decreases |ds|
  {
    if ds != [] {
      var rest := ds[1..];
      assert forall i :: 0 <= i < |rest| ==> rest[i] == ds[i + 1];
      TypeDigits(st.(display := st.display + [ds[0]]), rest, evaluate);
      assert st.display + [ds[0]] + rest == st.display + ds;
    } else {
      assert st.display + ds == st.display;
    }
  }

  /** From a cleared calculator, typing a, an operator and b, then '=', hands eval the
      expression " a op b", records both operands, and shows eval's answer. */
  lemma TwoOperands(a: string, op: char, b: string, evaluate: string -> Option<string>)
    requires a != [] && b != []
    requires forall i :: 0 <= i < |a| ==> IsDigit(a[i])
    requires forall i :: 0 <= i < |b| ==> IsDigit(b[i])
    requires !IsDigit(op) && op != '=' && op != 'C'
    requires evaluate(" " + a + " " + [op, ' '] + b).Some?
    ensures var expression := " " + a + " " + [op, ' '] + b;
            PressAll(InitialCalc(), a + [op] + b + "=", evaluate) ==
              (Calc(evaluate(expression).value, expression, [Decimal(a), Decimal(b)], true), None)
  {
    var st0 := InitialCalc();
    var tail := [op] + b + "=";
    assert a + [op] + b + "=" == a + tail;
    PressAllAppend(st0, a, tail, evaluate);
    TypeDigits(st0, a, evaluate);
    var st1 := st0.(display := "" + a);
    assert st1.display == a;
    assert PressAll(st0, a + tail, evaluate) == PressAll(st1, tail, evaluate);
    SecondOperand(st1, op, b, evaluate);
  }

  /** The rest of TwoOperands, once the first operand is on the display. */
  lemma SecondOperand(st1: Calc, op: char, b: string, evaluate: string -> Option<string>)
    requires !st1.solved && st1.cache == "" && st1.numbers == [] && st1.display != []
    requires forall i :: 0 <= i < |st1.display| ==> IsDigit(st1.display[i])
    requires b != [] && forall i :: 0 <= i < |b| ==> IsDigit(b[i])
    requires !IsDigit(op) && op != '=' && op != 'C'
    requires evaluate(" " + st1.display + " " + [op, ' '] + b).Some?
    ensures var expression := " " + st1.display + " " + [op, ' '] + b;
            PressAll(st1, [op] + b + "=", evaluate) ==
              (Calc(evaluate(expression).value, expression, [Decimal(st1.display), Decimal(b)], true), None)
  {
    var st2 := OperatorStep(st1, op, evaluate);
    PressAllCons(st1, op, b + "=", evaluate);
    assert [op] + b + "=" == [op] + (b + "=");
    assert PressAll(st1, [op] + b + "=", evaluate) == PressAll(st2, b + "=", evaluate);
    var expression := " " + st1.display + " " + [op, ' '] + b;
    assert st2.cache + " " + [op, ' '] + b == expression;
    assert st2.numbers + [Decimal(b)] == [Decimal(st1.display), Decimal(b)];
    TypeThenEquals(st2, op, b, evaluate);
  }

  /** The second operand and '=' of TwoOperands. */
  lemma TypeThenEquals(st2: Calc, op: char, b: string, evaluate: string -> Option<string>)
    requires !st2.solved && |st2.numbers| == 1 && st2.display == [op, ' '] && !IsDigit(op)
    requires b != [] && forall i :: 0 <= i < |b| ==> IsDigit(b[i])
    requires evaluate(st2.cache + " " + [op, ' '] + b).Some?
    ensures var expression := st2.cache + " " + [op, ' '] + b;
            PressAll(st2, b + "=", evaluate) ==
              (Calc(evaluate(expression).value, expression, st2.numbers + [Decimal(b)], true), None)
  {
    PressAllAppend(st2, b, "=", evaluate);
    TypeDigits(st2, b, evaluate);
    var st3 := st2.(display := st2.display + b);
    assert PressAll(st2, b + "=", evaluate) == PressAll(st3, "=", evaluate);
    assert st3.display == [op, ' '] + b;
    AppendAssoc(st2.cache + " ", [op, ' '], b);
    EqualsStep(st3, op, b, evaluate);
  }

  /** The first press of a run, when it succeeds, leaves the rest to run on its result. */
  lemma PressAllCons(st: Calc, k: char, rest: string, evaluate: string -> Option<string>)
    ensures var r := Press(st, k, evaluate);
            PressAll(st, [k] + rest, evaluate) == if r.1.Some? then r else PressAll(r.0, rest, evaluate)
  {
    assert ([k] + rest)[0] == k && ([k] + rest)[1..] == rest;
  }

  /** The operator press of TwoOperands. */
  lemma OperatorStep(st: Calc, op: char, evaluate: string -> Option<string>) returns (next: Calc)
    requires !st.solved && st.cache == "" && st.numbers == [] && st.display != []
    requires forall i :: 0 <= i < |st.display| ==> IsDigit(st.display[i])
    requires !IsDigit(op) && op != '=' && op != 'C'
    ensures next == Calc([op, ' '], " " + st.display, [Decimal(st.display)], false)
    ensures Press(st, op, evaluate) == (next, None)
  {
    FilterAllKept(st.display, IsDigit);
    assert DigitsOf(st.display) == st.display;
    assert st.cache + " " + st.display == " " + st.display;
    assert st.numbers + [Decimal(st.display)] == [Decimal(st.display)];
    next := Calc([op, ' '], " " + st.display, [Decimal(st.display)], false);
  }

  /** The '=' press of TwoOperands. */
  lemma EqualsStep(st: Calc, op: char, b: string, evaluate: string -> Option<string>)
    requires !st.solved && |st.numbers| == 1 && b != []
    requires forall i :: 0 <= i < |b| ==> IsDigit(b[i])
    requires !IsDigit(op) && st.display == [op, ' '] + b
    requires evaluate(st.cache + " " + st.display).Some?
    ensures var expression := st.cache + " " + st.display;
            PressAll(st, "=", evaluate) ==
              (Calc(evaluate(expression).value, expression, st.numbers + [Decimal(b)], true), None)
  {
    OperandAfterOperator(op, b);
    assert "="[0] == '=' && "="[1..] == [];
  }

  /** Presses in two runs are the presses of both, as long as the first run succeeds. */
  lemma {:induction false} PressAllAppend(st: Calc, first: string, second: string, evaluate: string -> Option<string>)
    ensures var r := PressAll(st, first, evaluate);
            PressAll(st, first + second, evaluate) == if r.1.Some? then r else PressAll(r.0, second, evaluate)
    decreases |first|
  {
    if first != [] {
      assert (first + second)[0] == first[0] && (first + second)[1..] == first[1..] + second;
      var r := Press(st, first[0], evaluate);
      if r.1.None? {
        PressAllAppend(r.0, first[1..], second, evaluate);
      }
    } else {
      assert first + second == second;
    }
  }

  /** get_result: the operator characters of the cache, spaces and digits removed
      (the function computes them and returns nothing). */
  function Operations(cache: string): (ops: string)
  {
    Filter(Filter(cache, c => c != ' '), c => !IsDigit(c))
  }

  /** Exactly the cache's characters that are neither spaces nor digits are kept. */
  lemma OperationsMembers(cache: string)
    ensures forall c :: c in Operations(cache) <==> c in cache && c != ' ' && !IsDigit(c)
  {
    FilterMembers(cache, c => c != ' ');
    FilterMembers(Filter(cache, c => c != ' '), c => !IsDigit(c));
  }

  /** Which frames of a held button register a press: the timer counts frames, and a
      click registers, restarting it, once the count exceeds Delay. */
  function Registered(timer: int, clicks: seq<bool>): (r: seq<bool>)
    ensures |r| == |clicks|
    decreases |clicks|
  {
    if clicks == [] then []
    else
      var t := timer + 1;
      var now := clicks[0] && t > Delay;
      [now] + Registered(if now then 0 else t, clicks[1..])
  }

  /** Counting from timer, the first registered frame comes after the count passed Delay. */
  lemma {:induction false} FirstRegisteredLate(timer: int, clicks: seq<bool>, k: nat)
    requires k < |clicks| && Registered(timer, clicks)[k]
    requires forall i :: 0 <= i < k ==> !Registered(timer, clicks)[i]
    ensures timer + k + 1 > Delay
    decreases k
  {
    var r := Registered(timer, clicks);
    if k > 0 {
      assert !r[0];
      var rest := Registered(timer + 1, clicks[1..]);
      assert r == [false] + rest;
      assert forall i :: 0 <= i < k - 1 ==> rest[i] == r[i + 1];
      FirstRegisteredLate(timer + 1, clicks[1..], k - 1);
    }
  }

  /** Two registered presses of one button are more than Delay frames apart. */
  lemma {:induction false} RegisteredApart(timer: int, clicks: seq<bool>, i: nat, j: nat)
    requires i < j < |clicks|
    requires Registered(timer, clicks)[i] && Registered(timer, clicks)[j]
    ensures j - i > Delay
    decreases |clicks|
  {
    var r := Registered(timer, clicks);
    var now := clicks[0] && timer + 1 > Delay;
    var next := if now then 0 else timer + 1;
    var rest := Registered(next, clicks[1..]);
    assert r == [now] + rest;
    if i > 0 {
      RegisteredApart(next, clicks[1..], i - 1, j - 1);
    } else {
      var k: nat := j - 1;
      if exists m :: 0 <= m < k && rest[m] {
        var m :| 0 <= m < k && rest[m];
        RegisteredApart(next, clicks[1..], m, k);
      } else {
        FirstRegisteredLate(0, clicks[1..], k);
      }
    }
  }

  /** Where place_button puts the top-left corner of the button at a grid cell. */
  function GridPosition(gx: nat, gy: nat): Point
  {
    Point(8 + gx * (ButtonSize + Margin), 128 + gy * (ButtonSize + Margin))
  }

  /** The rect of a button one cell high and `span` cells wide (the '0' key spans two:
      its width 2 * 40 + 6 reaches the next cell's right edge). */
  function ButtonRect(gx: nat, gy: nat, span: nat): Rect
    requires span >= 1
  {
    var p := GridPosition(gx, gy);
    Rect(p.x, p.y, span * ButtonSize + (span - 1) * Margin, ButtonSize)
  }

  /** Buttons on different rows, or on columns that do not meet, never overlap: a
      click lands on at most one of them. */
  lemma ButtonsApart(gx1: nat, gy1: nat, span1: nat, gx2: nat, gy2: nat, span2: nat)
    requires span1 >= 1 && span2 >= 1
    requires gy1 != gy2 || gx1 + span1 <= gx2 || gx2 + span2 <= gx1
    ensures !CollideRect(ButtonRect(gx1, gy1, span1), ButtonRect(gx2, gy2, span2))
  {
  }

  class Button {
    const key: char
    var rect: Rect
    /** Frames since the last registered press. */
    var timer: int

    /** Button.__init__: a rect of the given size at the origin and a fresh timer. */
    constructor (key: char, w: nat, h: nat)
      ensures this.key == key && rect == Rect(0, 0, w, h) && timer == 0
    {
      this.key := key;
      rect := Rect(0, 0, w, h);
      timer := 0;
    }

    /** Button.place: moves the top-left corner, keeping the size. */
    method Place(pos: Point)
      modifies this`rect
      ensures rect == Rect(pos.x, pos.y, old(rect.w), old(rect.h))
    {
      rect := rect.(x := pos.x, y := pos.y);
    }

    /** Button.update for one frame, given the mouse position and left button. */
    method Update(calculator: Calculator, mouse: Point, leftPressed: bool, evaluate: string -> Option<string>)
      returns (failed: Option<Failure>)
      modifies this`timer, calculator
      ensures var registered := leftPressed && CollidePoint(rect, mouse) && old(timer) + 1 > Delay;
              && timer == (if registered then 0 else old(timer) + 1)
              && (calculator.State(), failed) ==
                   if registered then Press(old(calculator.State()), key, evaluate) else (old(calculator.State()), None)
      ensures calculator.buttons == old(calculator.buttons)
    {
      failed := None;
      timer := timer + 1;
      if leftPressed && CollidePoint(rect, mouse) && timer > Delay {
        timer := 0;
        if calculator.solved {
          calculator.cacheString := "";
          calculator.displayString := "";
          calculator.solved := false;
        }
        if IsDigit(key) {
          calculator.displayString := calculator.displayString + [key];
        } else {
          var ds := DigitsOf(calculator.displayString);
          if ds == [] {
            return Some(ValueError);
          }
          calculator.numbers := calculator.numbers + [Decimal(ds)];
          if key == '=' {
            calculator.cacheString := calculator.cacheString + " " + calculator.displayString;
            var answer := evaluate(calculator.cacheString);
            if answer.None? {
              return Some(EvalError);
            }
            calculator.displayString := answer.value;
            calculator.solved := true;
          } else if key == 'C' {
            calculator.displayString := "";
            calculator.cacheString := "";
            calculator.numbers := [];
          } else {
            calculator.cacheString := calculator.cacheString + " " + calculator.displayString;
            calculator.displayString := [key, ' '];
          }
        }
      }
    }
  }

  class Calculator {
    var displayString: string
    var cacheString: string
    var numbers: seq<nat>
    var solved: bool
    var buttons: seq<Button>

    function State(): Calc
      reads this
    {
      Calc(displayString, cacheString, numbers, solved)
    }

    /** Calculator.__init__, before its buttons are placed. */
    constructor ()
      ensures State() == InitialCalc() && buttons == []
    {
      displayString := "";
      cacheString := "";
      numbers := [];
      solved := false;
      buttons := [];
    }

    /** Calculator.place_button: the button moves to its grid cell and joins the list. */
    method PlaceButton(b: Button, gx: nat, gy: nat)
      modifies this`buttons, b`rect
      ensures b.rect == Rect(GridPosition(gx, gy).x, GridPosition(gx, gy).y, old(b.rect.w), old(b.rect.h))
      ensures buttons == old(buttons) + [b]
    {
      b.Place(GridPosition(gx, gy));
      buttons := buttons + [b];
    }
  }
}
