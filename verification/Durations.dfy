/** Duration literals, and the two loops that turn them into seconds. */
module Durations {
  import opened Options
  import opened Strings

  const INT64_LIMIT: int := 0x8000_0000_0000_0000

  const TURN: int := 0x1_0000_0000_0000_0000

  /** The signed 64-bit number with the same low bits. */
  function Wrap(x: int): (r: int)
    ensures -INT64_LIMIT <= r < INT64_LIMIT
    ensures -INT64_LIMIT <= x < INT64_LIMIT ==> r == x
  {
    (x + INT64_LIMIT) % TURN - INT64_LIMIT
  }

  lemma WrapTurns(x: int) returns (turns: int)
    ensures Wrap(x) == x - turns * TURN
  {
    turns := (x + INT64_LIMIT) / TURN;
  }

  lemma WrapSame(x: int, turns: int)
    ensures Wrap(x + turns * TURN) == Wrap(x)
  {
    var a := WrapTurns(x);
    var b := WrapTurns(x + turns * TURN);
    assert (a + turns - b) * TURN == Wrap(x + turns * TURN) - Wrap(x);
  }

  function Digit(c: char): (r: nat)
    requires IsDigit(c)
    ensures r <= 9
  {
    c as int - '0' as int
  }

  // -------------------------------------------------------------------------------- the meaning

  datatype State = State(total: nat, current: nat)

  /** The seconds that a number before a unit counts; before a character that is no unit, none. */
  function Counted(n: nat, c: char): nat {
    if c == 'H' then n * 3600 else if c == 'M' then n * 60 else if c == 'S' then n else 0
  }

  function Step(s: State, c: char): State {
    if IsDigit(c) then s.(current := s.current * 10 + Digit(c))
    else State(s.total + Counted(s.current, c), 0)
  }

  function Run(s: State, text: string): State
    decreases |text|
  {
    if text == "" then s else Run(Step(s, text[0]), text[1..])
  }

  predicate HasPrefix(text: string) { |text| >= 3 && text[0] == 'P' && text[1] == 'T' }

  function Parse(value: Option<string>): nat {
    if value.Some? && HasPrefix(value.value) then Run(State(0, 0), value.value[2..]).total
    else 0
  }

  /** No step of a run leaves 64 bits. */
  predicate Fits(s: State, text: string)
    decreases |text|
  {
    text != "" ==>
      var next := Step(s, text[0]);
      next.total < INT64_LIMIT && next.current < INT64_LIMIT && Fits(next, text[1..])
  }

  predicate ValueFits(value: Option<string>) {
    value.Some? && HasPrefix(value.value) ==> Fits(State(0, 0), value.value[2..])
  }

  lemma RunFront(s: State, text: string, i: nat)
    requires i < |text|
    ensures Run(s, text[i..]) == Run(Step(s, text[i]), text[i + 1..])
  {
    assert text[i..][1..] == text[i + 1..];
  }

  lemma RunEnd(s: State, text: string)
    ensures Run(s, text[|text|..]) == s
  {
  }

  lemma {:induction false} FittingTotal(s: State, text: string)
    requires s.total < INT64_LIMIT && Fits(s, text)
    ensures Run(s, text).total < INT64_LIMIT
    decreases |text|
  {
    if text != "" { FittingTotal(Step(s, text[0]), text[1..]); }
  }

  lemma FittingValue(value: Option<string>)
    requires ValueFits(value)
    ensures Parse(value) < INT64_LIMIT
  {
    if value.Some? && HasPrefix(value.value) { FittingTotal(State(0, 0), value.value[2..]); }
  }

  // --------------------------------------------------------------------------------- the loops

  /** The registers hold a state, cut down to 64 bits. */
  predicate Holds(total: int, current: int, s: State) { total == Wrap(s.total) && current == Wrap(s.current) }

  /** One turn of the loop, in wrapping arithmetic. */
  function Turned(total: int, current: int, c: char): (int, int) {
    if IsDigit(c) then (total, Wrap(Wrap(current * 10) + Digit(c)))
    else if c == 'H' then (Wrap(total + Wrap(current * 3600)), 0)
    else if c == 'M' then (Wrap(total + Wrap(current * 60)), 0)
    else if c == 'S' then (Wrap(total + current), 0)
    else (total, 0)
  }

  lemma WrapSum(x: int, y: int)
    ensures Wrap(Wrap(x) + Wrap(y)) == Wrap(x + y)
    ensures Wrap(x + Wrap(y)) == Wrap(x + y)
  {
    var a := WrapTurns(x);
    var b := WrapTurns(y);
    WrapSame(x + y, -(a + b));
    WrapSame(x + y, -b);
    assert Wrap(x) + Wrap(y) == x + y + -(a + b) * TURN;
    assert x + Wrap(y) == x + y + -b * TURN;
  }

  lemma WrapTimes(x: int)
    ensures Wrap(Wrap(x) * 10) == Wrap(x * 10)
    ensures Wrap(Wrap(x) * 60) == Wrap(x * 60)
    ensures Wrap(Wrap(x) * 3600) == Wrap(x * 3600)
  {
    hide Wrap;
    var a := WrapTurns(x);
    WrapSame(x * 10, -a * 10);
    WrapSame(x * 60, -a * 60);
    WrapSame(x * 3600, -a * 3600);
  }

  lemma TurnHolds(total: int, current: int, s: State, c: char)
    requires Holds(total, current, s)
    ensures var (t, n) := Turned(total, current, c); Holds(t, n, Step(s, c))
  {
    assert Wrap(0) == 0;
    hide Wrap;
    WrapTimes(s.current);
    if IsDigit(c) {
      hide Counted;
      WrapSum(Digit(c), s.current * 10);
    } else {
      hide IsDigit;
      WrapSum(s.total, Counted(s.current, c));
    }
  }

  method ParseDurationSeconds(value: Option<string>) returns (seconds: int)
    ensures seconds == Wrap(Parse(value))
    ensures ValueFits(value) ==> seconds == Parse(value)
  {
    hide Run, Fits, Turned, Wrap;
    if ValueFits(value) { FittingValue(value); }
    assert Wrap(0) == 0;
    if value.None? || value.value == "" { return 0; }
    var text := value.value;
    if |text| >= 3 && text[0] == 'P' && text[1] == 'T' {
      var total, current := 0, 0;
      ghost var state := State(0, 0);
      for i := 2 to |text|
        invariant Holds(total, current, state) && Run(state, text[i..]) == Run(State(0, 0), text[2..])
      {
        var ch := text[i];
        RunFront(state, text, i);
        TurnHolds(total, current, state, ch);
        state := Step(state, ch);
        total, current := TurnOnce(total, current, ch);
      }
      RunEnd(state, text);
      return total;
    }
    return 0;
  }

  method TurnOnce(total: int, current: int, ch: char) returns (t: int, c: int)
    ensures (t, c) == Turned(total, current, ch)
  {
    t, c := total, current;
    if IsDigit(ch) {
      c := Wrap(Wrap(c * 10) + (ch as int - '0' as int));
    } else {
      if ch == 'H' {
        t := Wrap(t + Wrap(c * 3600));
      } else if ch == 'M' {
        t := Wrap(t + Wrap(c * 60));
      } else if ch == 'S' {
        t := Wrap(t + c);
      }
      c := 0;
    }
  }

  method ParseGoDurationSeconds(value: Option<string>) returns (seconds: int)
    ensures seconds == Wrap(Parse(value))
    ensures ValueFits(value) ==> seconds == Parse(value)
  {
    hide Run, Fits, Turned, Wrap;
    if ValueFits(value) { FittingValue(value); }
    assert Wrap(0) == 0;
    if value.None? || value.value == "" { return 0; }
    var text := value.value;
    if |text| < 3 || text[0] != 'P' || text[1] != 'T' { return 0; }
    var total, current := 0, 0;
    ghost var state := State(0, 0);
    var i := 2;
    while i < |text|
      invariant 2 <= i <= |text|
      invariant Holds(total, current, state) && Run(state, text[i..]) == Run(State(0, 0), text[2..])
    {
      var ch := text[i];
      RunFront(state, text, i);
      TurnHolds(total, current, state, ch);
      state := Step(state, ch);
      total, current := TurnOnce(total, current, ch);
      i := i + 1;
    }
    RunEnd(state, text);
    return total;
  }

  // -------------------------------------------------------------------------------- additivity

  lemma {:induction false} RunConcat(s: State, a: string, b: string)
    ensures Run(s, a + b) == Run(Run(s, a), b)
    decreases |a|
  {
    if a == "" {
      assert a + b == b;
    } else {
      assert (a + b)[1..] == a[1..] + b;
      RunConcat(Step(s, a[0]), a[1..], b);
    }
  }

  lemma {:induction false} RunShifts(s: State, base: nat, text: string)
    ensures Run(State(base + s.total, s.current), text) == State(base + Run(s, text).total, Run(s, text).current)
    decreases |text|
  {
    if text != "" {
      RunShifts(Step(s, text[0]), base, text[1..]);
      assert Step(State(base + s.total, s.current), text[0]) ==
        State(base + Step(s, text[0]).total, Step(s, text[0]).current);
    }
  }

  /** Cut any text after a character that is no digit: the seconds are the sum of both parts'. */
  lemma SecondsAdd(a: string, c: char, b: string)
    requires !IsDigit(c)
    ensures Run(State(0, 0), a + [c] + b).total == Run(State(0, 0), a + [c]).total + Run(State(0, 0), b).total
  {
    RunConcat(State(0, 0), a + [c], b);
    RunConcat(State(0, 0), a, [c]);
    assert [c][1..] == "";
    var before := Run(State(0, 0), a + [c]);
    assert before.current == 0;
    RunShifts(State(0, 0), before.total, b);
  }

  // --------------------------------------------------------------------------------- rendering

  datatype TimeUnit = Hours | Minutes | Seconds {
    function Letter(): char { match this case Hours => 'H' case Minutes => 'M' case Seconds => 'S' }

    function Worth(n: nat): nat { match this case Hours => n * (60 * 60) case Minutes => n * 60 case Seconds => n }
  }

  /** A number, as its decimal digits, and its unit. */
  datatype Component = Component(digits: string, unit: TimeUnit)

  function Number(digits: string): nat
    requires forall c :: c in digits ==> IsDigit(c)
  {
    if digits == "" then 0 else Number(digits[..|digits| - 1]) * 10 + Digit(digits[|digits| - 1])
  }

  predicate IsComponent(c: Component) {
    c.digits != "" && forall d :: d in c.digits ==> IsDigit(d)
  }

  predicate AreComponents(cs: seq<Component>) { forall i :: 0 <= i < |cs| ==> IsComponent(cs[i]) }

  function Rendered(cs: seq<Component>): string {
    if cs == [] then "" else cs[0].digits + [cs[0].unit.Letter()] + Rendered(cs[1..])
  }

  function Sum(cs: seq<Component>): nat
    requires AreComponents(cs)
  {
    if cs == [] then 0 else cs[0].unit.Worth(Number(cs[0].digits)) + Sum(cs[1..])
  }

  lemma {:induction false} RunDigits(s: State, digits: string)
    requires s.current == 0 && forall c :: c in digits ==> IsDigit(c)
    ensures Run(s, digits) == s.(current := Number(digits))
    decreases |digits|
  {
    if digits != "" {
      var n := |digits| - 1;
      RunDigits(s, digits[..n]);
      RunConcat(s, digits[..n], [digits[n]]);
      assert digits == digits[..n] + [digits[n]] && [digits[n]][1..] == "";
    }
  }

  lemma RunComponent(c: Component, rest: string)
    requires IsComponent(c)
    ensures Run(State(0, 0), c.digits + [c.unit.Letter()] + rest) ==
      State(c.unit.Worth(Number(c.digits)) + Run(State(0, 0), rest).total, Run(State(0, 0), rest).current)
  {
    hide Number;
    RunDigits(State(0, 0), c.digits);
    var letter := c.unit.Letter();
    RunConcat(State(0, 0), c.digits, [letter]);
    assert [letter][1..] == "";
    RunConcat(State(0, 0), c.digits + [letter], rest);
    RunShifts(State(0, 0), c.unit.Worth(Number(c.digits)), rest);
  }

  /** Parsing undoes rendering: the components' numbers, weighted by their units, are added up. */
  lemma {:induction false} RenderedParses(cs: seq<Component>)
    requires AreComponents(cs)
    ensures Run(State(0, 0), Rendered(cs)) == State(Sum(cs), 0)
  {
    hide Number, Run, Counted;
    if cs == [] {
      assert Run(State(0, 0), "") == State(0, 0) by { RunNothing(); }
    } else {
      RunComponent(cs[0], Rendered(cs[1..]));
      RenderedParses(cs[1..]);
    }
  }

  lemma RunNothing()
    ensures Run(State(0, 0), "") == State(0, 0)
  {
  }

  /** A duration with an optional part in days, as its documentation allows. */
  datatype Duration = Duration(days: Option<string>, time: seq<Component>)

  predicate IsDuration(d: Duration) {
    && AreComponents(d.time)
    && (d.days.Some? ==> d.days.value != "" && forall c :: c in d.days.value ==> IsDigit(c))
    && (d.days.Some? || d.time != [])
  }

  function Literal(d: Duration): string {
    "P" + (if d.days.Some? then d.days.value + "D" else "") + if d.time == [] then "" else "T" + Rendered(d.time)
  }

  function Worth(d: Duration): nat
    requires IsDuration(d)
  {
    (if d.days.Some? then Number(d.days.value) * (24 * 60 * 60) else 0) + Sum(d.time)
  }

  /** A literal without days is read as the sum of its components, one with days as zero. */
  lemma LiteralParses(d: Duration)
    requires IsDuration(d)
    ensures Parse(Some(Literal(d))) == if d.days.None? then Sum(d.time) else 0
  {
    var text := Literal(d);
    if d.days.None? {
      assert |Rendered(d.time)| > 0;
      assert text[2..] == Rendered(d.time);
      RenderedParses(d.time);
    } else {
      assert text[1] == d.days.value[0] && IsDigit(d.days.value[0]);
    }
  }

  /** A literal is read as its worth exactly if it has no days or is worth nothing. */
  lemma LiteralParsesIff(d: Duration)
    requires IsDuration(d)
    ensures Parse(Some(Literal(d))) == Worth(d) <==> d.days.None? || Worth(d) == 0
  {
    hide Literal, Parse;
    LiteralParses(d);
  }

  lemma OneDayIsNoSeconds()
    ensures Parse(Some("P1D")) == 0
    ensures IsDuration(Duration(Some("1"), [])) && Literal(Duration(Some("1"), [])) == "P1D"
    ensures Worth(Duration(Some("1"), [])) == 86400
  {
    assert Number("1"[..0]) == 0;
  }

  // ------------------------------------------------------------------------------------- range

  function Digits(text: string): nat {
    if text == "" then 0 else (if IsDigit(text[0]) then 1 else 0) + Digits(text[1..])
  }

  function Power(n: nat): (r: nat)
    ensures r >= 1
  {
    if n == 0 then 1 else 10 * Power(n - 1)
  }

  lemma {:induction false} PowerGrows(m: nat, n: nat)
    requires m <= n
    ensures Power(m) <= Power(n)
  {
    if m < n { PowerGrows(m, n - 1); }
  }

  /** After k digits the state is worth less than 3600 times the k-th power of ten. */
  predicate Bounded(s: State, k: nat) { s.total + 3600 * s.current <= 3600 * (Power(k) - 1) }

  lemma {:induction false} RunFits(s: State, k: nat, text: string)
    requires Bounded(s, k) && k + Digits(text) <= 15
    ensures Fits(s, text)
    decreases |text|
  {
    if text != "" {
      var next, n := Step(s, text[0]), if IsDigit(text[0]) then k + 1 else k;
      PowerGrows(n, 15);
      FifteenthPower();
      RunFits(next, n, text[1..]);
    }
  }

  lemma FifteenthPower()
    ensures Power(15) == 1_000_000_000_000_000
  {
    assert Power(5) == 100_000 by { assert Power(2) == 100; }
    assert Power(10) == 10_000_000_000 by { assert Power(7) == 10_000_000; }
    assert Power(12) == 1_000_000_000_000;
  }

  /** With at most fifteen digits in all, no step overflows. */
  lemma FifteenDigitsFit(value: string)
    requires Digits(value) <= 15
    ensures ValueFits(Some(value))
  {
    if HasPrefix(value) {
      assert value[1..][1..] == value[2..];
      RunFits(State(0, 0), 0, value[2..]);
    }
  }
}
