/** The countdown loop of index.js: a deadline fixed at start-up and an
    interval callback that, at each clock reading, either repaints the
    countdown line or wipes it and ends the process. The clock readings are
    parameters; what the callback writes is returned and recorded. */
module Timer {
  import opened Decimal
  import opened Formatter
  import opened Parser

  /** `print(text, end)`: the text followed by its terminator. */
  function Print(text: string, end: string): string {
    text + end
  }

  /** The control sequence ESC [ 0 K, which erases to the end of the line. */
  const ClearLine: string := "\U{1B}[0K"

  /** What one run of the callback decides: repaint with the time that is
      left and keep running, or exit with a code. */
  datatype Tick = Redraw(remaining: nat) | Finish(exitCode: nat)

  /** The decision of the `setInterval` callback at clock reading `now`. Since
      `remaining` is a natural number, checking this body proves that
      `format` is only ever called with a positive remaining time. */
  function TickAt(endDate: int, now: int): Tick {
    var remainingTime := endDate - now;
    if remainingTime <= 0 then Finish(0) else Redraw(remainingTime)
  }

  /** What the callback writes for its decision. */
  function Output(t: Tick): string {
    match t
    case Finish(_) => Print(ClearLine, "")
    case Redraw(remainingTime) => Print(Format(remainingTime) + " left...", "\r")
  }

  /** The callback stops exactly when the deadline is reached, with exit
      code 0, and before it the line shows exactly the time that is left. */
  lemma TickStops(endDate: int, now: int)
    ensures TickAt(endDate, now).Finish? <==> now >= endDate
    ensures TickAt(endDate, now).Finish? ==> TickAt(endDate, now).exitCode == 0
    ensures TickAt(endDate, now).Redraw? ==> TickAt(endDate, now).remaining == endDate - now > 0
  {
  }

  /** Stopping writes only the erase sequence, with no line terminator. */
  lemma FinishWritesClear(code: nat)
    ensures Output(Finish(code)) == [27 as char, '[', '0', 'K']
  {
  }

  /** A countdown line ends in a carriage return and holds no other line
      break, so it repaints the same terminal line; with its fixed tail
      " left...\r" taken off, it reads back as the remaining time. */
  lemma RedrawShowsRemaining(r: nat)
    requires r > 0
    ensures var w := Output(Redraw(r));
            |w| >= 9 && w[|w| - 9..] == " left...\r" &&
            '\r' !in w[..|w| - 1] && '\n' !in w[..|w| - 1] &&
            ReadClock(w[..|w| - 9]) == Some(Fields(r))
  {
    var f := Format(r);
    var w := Output(Redraw(r));
    assert w == f + " left...\r";
    assert w[..|w| - 9] == f;
    assert w[..|w| - 1] == f + " left...";
    FormatReadsBack(r);
    FormatIsDisplay(r);
    LineHasNoBreak(Fields(r));
  }

  /** A rendering and the tail " left..." hold no line break. */
  lemma LineHasNoBreak(c: Clock)
    ensures '\r' !in Display(c) + " left..." && '\n' !in Display(c) + " left..."
  {
    DisplayHasNoBreak(c);
    assert '\r' !in " left..." && '\n' !in " left...";
    NotInConcat('\r', Display(c), " left...");
    NotInConcat('\n', Display(c), " left...");
  }

  lemma NotInConcat(x: char, a: string, b: string)
    requires x !in a && x !in b
    ensures x !in a + b
  {
  }

  /** A rendering holds only digits, ':' and '.'. */
  lemma DisplayHasNoBreak(c: Clock)
    ensures '\r' !in Display(c) && '\n' !in Display(c)
  {
    ShowValue(c.hours);
    PadValue(c.minutes, 2);
    PadValue(c.seconds, 2);
    PadValue(c.millis, 3);
    DigitsHaveNoBreak(Show(c.hours));
    DigitsHaveNoBreak(Pad(c.minutes, 2));
    DigitsHaveNoBreak(Pad(c.seconds, 2));
    DigitsHaveNoBreak(Pad(c.millis, 3));
  }

  lemma DigitsHaveNoBreak(s: string)
    requires IsDigits(s)
    ensures '\r' !in s && '\n' !in s
  {
  }

  /** A zero duration, which is also what an unreadable argument gives,
      finishes on the first tick at or after the start. */
  lemma ZeroDurationFinishesAtOnce(start: int, time: string, now: int)
    requires ParseTime(time) == 0 && now >= start
    ensures TickAt(start + ParseTime(time), now) == Finish(0)
  {
  }

  /** An argument of neither accepted form ends the countdown on its first
      tick, with exit code 0, instead of being reported. */
  lemma UnreadableFinishesAtOnce(start: int, time: string, now: int)
    requires !IsSeconds(time)
    requires forall p :: WellFormed(p) ==> Text(p) != time
    requires now >= start
    ensures TickAt(start + ParseTime(time), now) == Finish(0)
  {
    ParseFallback(time);
  }

  // ---------------------------------------------------------------------
  // Successive readings

  /** The decisions taken for a series of clock readings, and the exit code
      if one of them ended the process; readings after the exit are never
      seen. */
  datatype Run = Run(steps: seq<Tick>, exitCode: Option<nat>)

  function RunTicks(endDate: int, nows: seq<int>): Run {
    if nows == [] then Run([], None)
    else
      var t := TickAt(endDate, nows[0]);
      if t.Finish? then Run([t], Some(t.exitCode))
      else
        var rest := RunTicks(endDate, nows[1..]);
        Run([t] + rest.steps, rest.exitCode)
  }

  /** Everything a series of decisions writes, in order. */
  function Written(steps: seq<Tick>): string {
    if steps == [] then [] else Output(steps[0]) + Written(steps[1..])
  }

  lemma {:induction false} WrittenAppend(steps: seq<Tick>, t: Tick)
    ensures Written(steps + [t]) == Written(steps) + Output(t)
  {
    if steps == [] {
      assert [] + [t] == [t];
      assert Written([t]) == Output(t) + Written([]);
    } else {
      assert (steps + [t])[1..] == steps[1..] + [t];
      WrittenAppend(steps[1..], t);
      ConcatAssoc(Output(steps[0]), Written(steps[1..]), Output(t));
    }
  }

  lemma ConcatAssoc(a: string, b: string, c: string)
    ensures (a + b) + c == a + (b + c)
  {
  }

  /** Each step is the callback's decision at the reading it saw, one step
      per reading until the exit. */
  lemma {:induction false} RunFollowsReadings(endDate: int, nows: seq<int>)
    ensures |RunTicks(endDate, nows).steps| <= |nows|
    ensures forall k :: 0 <= k < |RunTicks(endDate, nows).steps| ==>
              RunTicks(endDate, nows).steps[k] == TickAt(endDate, nows[k])
  {
    if nows != [] && nows[0] < endDate {
      RunFollowsReadings(endDate, nows[1..]);
      var rest := RunTicks(endDate, nows[1..]).steps;
      forall k | 0 < k < |rest| + 1 ensures ([TickAt(endDate, nows[0])] + rest)[k] == TickAt(endDate, nows[k]) {
        assert nows[k] == nows[1..][k - 1];
      }
    }
  }

  /** The process exits exactly when one of the readings it sees is at or
      after the deadline. */
  lemma {:induction false} RunExitsIffDeadline(endDate: int, nows: seq<int>)
    ensures RunTicks(endDate, nows).exitCode.Some? <==>
            exists i :: 0 <= i < |nows| && nows[i] >= endDate
  {
    if nows != [] && nows[0] < endDate {
      RunExitsIffDeadline(endDate, nows[1..]);
      if RunTicks(endDate, nows[1..]).exitCode.Some? {
        var i :| 0 <= i < |nows[1..]| && nows[1..][i] >= endDate;
        assert nows[i + 1] >= endDate;
      } else {
        forall i | 0 < i < |nows| ensures nows[i] < endDate {
          assert nows[i] == nows[1..][i - 1];
        }
      }
    }
  }

  /** When it exits, it exits with code 0 at the first reading at or after
      the deadline: every earlier reading repainted the countdown. */
  lemma {:induction false} RunExitsAtFirstDeadline(endDate: int, nows: seq<int>)
    requires RunTicks(endDate, nows).exitCode.Some?
    ensures var r := RunTicks(endDate, nows);
            r.exitCode == Some(0) && 1 <= |r.steps| <= |nows| && nows[|r.steps| - 1] >= endDate
    ensures forall i :: 0 <= i < |RunTicks(endDate, nows).steps| - 1 ==> nows[i] < endDate
  {
    if nows[0] < endDate {
      RunExitsAtFirstDeadline(endDate, nows[1..]);
      var k := |RunTicks(endDate, nows[1..]).steps|;
      assert |RunTicks(endDate, nows).steps| == k + 1;
      assert nows[k] == nows[1..][k - 1];
      forall i | 0 < i < k ensures nows[i] < endDate {
        assert nows[i] == nows[1..][i - 1];
      }
    }
  }

  /** When no reading reaches the deadline, every reading repaints. */
  lemma {:induction false} RunWithoutDeadline(endDate: int, nows: seq<int>)
    requires forall i :: 0 <= i < |nows| ==> nows[i] < endDate
    ensures var r := RunTicks(endDate, nows);
            r.exitCode == None && |r.steps| == |nows|
  {
    if nows != [] {
      assert forall i :: 0 <= i < |nows[1..]| ==> nows[1..][i] == nows[i + 1];
      RunWithoutDeadline(endDate, nows[1..]);
    }
  }

  /** A run seen after the decisions `steps` while still running: the next
      reading either ends it there or moves the split one on. */
  lemma RunAdvance(endDate: int, nows: seq<int>, i: nat, steps: seq<Tick>)
    requires i < |nows|
    ensures var r, t, rest := RunTicks(endDate, nows[i..]), TickAt(endDate, nows[i]), RunTicks(endDate, nows[i + 1..]);
            (nows[i] >= endDate ==> Run(steps + r.steps, r.exitCode) == Run(steps + [t], Some(0))) &&
            (nows[i] < endDate ==> Run(steps + r.steps, r.exitCode) == Run((steps + [t]) + rest.steps, rest.exitCode))
  {
    assert nows[i..][0] == nows[i] && nows[i..][1..] == nows[i + 1..];
    if nows[i] < endDate {
      var t, rest := TickAt(endDate, nows[i]), RunTicks(endDate, nows[i + 1..]);
      assert steps + ([t] + rest.steps) == (steps + [t]) + rest.steps;
    }
  }
}

/** The running process: the deadline fixed at start-up and the state the
    interval callback changes. */
module Process {
  import opened Decimal
  import opened Formatter
  import opened Parser
  import opened Timer

  /** The globals `endDate` and `interval` of index.js and the part of the
      process state that the callback changes: whether it is still running,
      the exit code once it has stopped, and everything written so far. */
  class Countdown {
    const endDate: int
    var running: bool
    var exitCode: Option<nat>
    var written: string

    /** The process has an exit code exactly when it has stopped. */
    ghost predicate Valid()
      reads this
    {
      running <==> exitCode.None?
    }

    /** `endDate = Date.now() + parseTime(time)`, with `start` the reading. */
    constructor (start: int, time: string)
      ensures Valid()
      ensures endDate == start + ParseTime(time)
      ensures running && exitCode == None && written == []
    {
      endDate := start + ParseTime(time);
      running := true;
      exitCode := None;
      written := [];
    }

    /** One run of the interval callback at clock reading `now`. The
      runtime never calls it again once the process has exited. */
    method Tick(now: int) returns (stop: bool)
      requires Valid() && running
      modifies this
      ensures Valid()
      ensures stop <==> now >= endDate
      ensures written == old(written) + Output(TickAt(endDate, now))
      ensures running == !stop
      ensures exitCode == if stop then Some(0) else None
    {
      var remainingTime := endDate - now;
      var line: string;
      if remainingTime <= 0 {
        line := Print(ClearLine, "");
        running := false;
        exitCode := Some(0);
        stop := true;
      } else {
        var remainingTimeString := Format(remainingTime);
        line := Print(remainingTimeString + " left...", "\r");
        stop := false;
      }
      assert line == Output(TickAt(endDate, now));
      written := written + line;
    }
  }

  /** The interval timer calling the callback once per clock reading until
      the process exits; `seen` is how many readings it consumed. */
  method RunInterval(c: Countdown, nows: seq<int>) returns (seen: nat)
    requires c.Valid() && c.running
    modifies c
    ensures c.Valid()
    ensures var r := RunTicks(c.endDate, nows);
            c.written == old(c.written) + Written(r.steps) && c.exitCode == r.exitCode && seen == |r.steps|
  {
    var i := 0;
    ghost var all := RunTicks(c.endDate, nows);
    ghost var w0 := c.written;
    ghost var steps: seq<Tick> := [];
    while i < |nows| && c.running
      invariant 0 <= i <= |nows| && c.Valid() && |steps| == i
      invariant c.written == w0 + Written(steps)
      invariant c.running ==> all == Run(steps + RunTicks(c.endDate, nows[i..]).steps,
                                         RunTicks(c.endDate, nows[i..]).exitCode)
      invariant !c.running ==> all == Run(steps, c.exitCode)
      decreases |nows| - i
    {
      ghost var t := TickAt(c.endDate, nows[i]);
      RunAdvance(c.endDate, nows, i, steps);
      WrittenAppend(steps, t);
      ConcatAssoc(w0, Written(steps), Output(t));
      var stop := c.Tick(nows[i]);
      steps := steps + [t];
      i := i + 1;
    }
    if c.running {
      assert nows[i..] == [];
      assert steps + [] == steps;
    }
    seen := i;
  }
}
