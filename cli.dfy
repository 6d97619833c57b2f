/** The start-up decisions of index.js: whether there is a duration
    argument at all, the deadline it fixes, and where the frame rate comes
    from. The clock reading and the environment are parameters. */
module Cli {
  import opened Decimal
  import opened Parser
  import opened Formatter
  import opened Timer

  /** Where the frame rate comes from: an environment variable's text, taken
      as it is (even when empty), or the literal 30. */
  datatype Rate = FromEnv(text: string) | Literal(fps: nat)

  /** `PRETTY_SLEEPY_FPS ?? FPS ?? 30`: `??` falls through only on an
      unset variable, so a variable set to "" still wins. */
  function ChooseFps(prettySleepyFps: Option<string>, fps: Option<string>): (r: Rate)
    ensures r == Literal(30) <==> prettySleepyFps.None? && fps.None?
    ensures prettySleepyFps.Some? ==> r == FromEnv(prettySleepyFps.value)
    ensures prettySleepyFps.None? && fps.Some? ==> r == FromEnv(fps.value)
  {
    match prettySleepyFps
    case Some(v) => FromEnv(v)
    case None =>
      match fps
      case Some(v) => FromEnv(v)
      case None => Literal(30)
  }

  /** What start-up leads to: the usage text and an exit code, or a
      countdown to a deadline at a frame rate. */
  datatype Start = ShowUsage(exitCode: nat) | Sleep(endDate: int, rate: Rate)

  /** `const [,, time] = process.argv`, the check for a missing argument,
      `endDate = now + parseTime(time)` and the frame-rate choice. */
  function Startup(argv: seq<string>, now: int, prettySleepyFps: Option<string>, fps: Option<string>): (r: Start)
    ensures r.ShowUsage? <==> |argv| < 3
    ensures r.ShowUsage? ==> r.exitCode == 1
    ensures r.Sleep? ==> r.endDate >= now && r.rate == ChooseFps(prettySleepyFps, fps)
  {
    if |argv| < 3 then ShowUsage(1)
    else Sleep(now + ParseTime(argv[2]), ChooseFps(prettySleepyFps, fps))
  }

  /** Only the first argument after the script is read; the deadline lies
      its duration after the start. */
  lemma StartupDeadline(argv: seq<string>, more: seq<string>, now: int, prettySleepyFps: Option<string>, fps: Option<string>)
    requires |argv| >= 3
    ensures Startup(argv + more, now, prettySleepyFps, fps) == Startup(argv, now, prettySleepyFps, fps)
    ensures Startup(argv, now, prettySleepyFps, fps).endDate - now == ParseTime(argv[2])
  {
    assert (argv + more)[2] == argv[2];
  }

  /** `pretty-sleepy 0s` and `pretty-sleepy garbage` both end on the first
      tick: their duration is 0. */
  lemma ZeroSecondsEndsAtOnce(now: int, later: int)
    requires later >= now
    ensures var s := Startup(["node", "pretty-sleepy", "0s"], now, None, None);
            s.Sleep? && s.endDate == now && TickAt(s.endDate, later) == Finish(0)
  {
    ExampleZeroSeconds();
    ZeroDurationFinishesAtOnce(now, "0s", later);
  }

  lemma GarbageEndsAtOnce(now: int, later: int)
    requires later >= now
    ensures var s := Startup(["node", "pretty-sleepy", "garbage"], now, None, None);
            s.Sleep? && s.endDate == now && TickAt(s.endDate, later) == Finish(0)
  {
    FallbackWord();
    ZeroDurationFinishesAtOnce(now, "garbage", later);
  }

  /** `pretty-sleepy 5m` repaints for five minutes after the start and ends
      at the first tick after that. */
  lemma FiveMinutes(now: int, later: int)
    ensures var s := Startup(["node", "pretty-sleepy", "5m"], now, None, None);
            s.Sleep? && s.endDate == now + 300000 &&
            (TickAt(s.endDate, later).Redraw? <==> later < now + 300000)
  {
    ExampleMinutes();
  }
}
