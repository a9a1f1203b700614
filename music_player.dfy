/**
 * The playback transport of the music player: play, pause and toggle over one
 * decoded audio buffer, with elapsed time kept by hand as a clock reading taken
 * at `play` plus an offset accumulated across pauses; and the `m:ss` formatting
 * of progress and duration.
 *
 * The audio clock (`AudioContext.currentTime`) is the parameter `now`; the
 * Web Audio source node and the animation-frame loop are boolean flags.
 */
module MusicPlayer {
  import opened Wrappers

  // ---------------------------------------------------------------------------
  // JavaScript number operations used by the player
  // ---------------------------------------------------------------------------

  /** The quotient inside JavaScript's `%`: the real quotient rounded toward zero. */
  function Trunc(x: real): (q: int)
    ensures 0.0 <= x ==> q == x.Floor
    ensures if x >= 0.0 then x - 1.0 < q as real <= x else x <= q as real < x + 1.0
  {
    if x >= 0.0 then x.Floor else -((-x).Floor)
  }

  /** JavaScript's `%` on numbers: the remainder of truncating division, carrying the dividend's sign. */
  function JsRem(x: real, d: real): (r: real)
    requires d > 0.0
    ensures 0.0 <= x ==> 0.0 <= r < d
    ensures 0.0 <= x < d ==> r == x
    ensures x < 0.0 ==> -d < r <= 0.0
    ensures x - r == d * Trunc(x / d) as real
  {
    var q := Trunc(x / d);
    RemBounds(x, d, q);
    x - d * q as real
  }

  /** Scaling the bounds of a truncated quotient by the divisor. */
  lemma RemBounds(x: real, d: real, q: int)
    requires d > 0.0 && q == Trunc(x / d)
    ensures 0.0 <= x ==> 0.0 <= x - d * q as real < d
    ensures 0.0 <= x < d ==> q == 0
    ensures x < 0.0 ==> -d < x - d * q as real <= 0.0
  {
    var y := x / d;
    assert x == d * y;
    if 0.0 <= x < d {
      assert x / d < 1.0;
    }
    TruncScaled(x, d, y, q as real);
  }

  /** The remainder bounds, once the quotient `y` is known and no division remains. */
  lemma TruncScaled(x: real, d: real, y: real, qr: real)
    requires d > 0.0 && x == d * y
    requires 0.0 <= y ==> y - 1.0 < qr <= y
    requires y < 0.0 ==> y <= qr < y + 1.0
    ensures 0.0 <= x ==> 0.0 <= x - d * qr < d
    ensures x < 0.0 ==> -d < x - d * qr <= 0.0
  {
    var gap, rem := y - qr, x - d * qr;
    Distribute(d, y, qr);
    assert rem == d * gap;
    if 0.0 <= y {
      ScaleUnit(d, gap, rem);
    } else {
      MulZero(d);
      Scale(d, y, 0.0);
      ScaleUnit(d, -gap, -rem);
    }
  }

  /** A product with zero is zero. */
  lemma MulZero(d: real)
    ensures d * 0.0 == 0.0
  {
  }

  /** Multiplication distributes over subtraction. */
  lemma Distribute(d: real, a: real, b: real)
    ensures d * (a - b) == d * a - d * b
  {
  }

  /** A fraction in [0, 1) of a positive number lies in [0, that number). */
  lemma ScaleUnit(d: real, g: real, p: real)
    requires d > 0.0 && 0.0 <= g < 1.0 && p == d * g
    ensures 0.0 <= p < d
  {
  }

  /** Multiplying by a positive number keeps an inequality. */
  lemma Scale(d: real, a: real, b: real)
    requires d > 0.0 && a <= b
    ensures d * a <= d * b
    ensures a < b ==> d * a < d * b
  {
  }

  /** The decimal digit character for `d`. */
  function DigitChar(d: nat): char
    requires d < 10
  {
    ('0' as int + d) as char
  }

  predicate IsDigit(c: char)
  {
    '0' <= c <= '9'
  }

  predicate AllDigits(s: string)
  {
    forall i :: 0 <= i < |s| ==> IsDigit(s[i])
  }

  /** The number a string of decimal digits denotes. */
  function DigitsValue(s: string): nat
    requires AllDigits(s)
  {
    if s == [] then 0 else DigitsValue(s[..|s| - 1]) * 10 + (s[|s| - 1] as int - '0' as int)
  }

  /** `Number.prototype.toString()` of a natural number: decimal, no leading zeros. */
  function NatToString(n: nat): (s: string)
    ensures 1 <= |s| && AllDigits(s)
    ensures n < 10 <==> |s| == 1
    ensures 10 <= n ==> s[0] != '0'
  {
    if n < 10 then [DigitChar(n)] else NatToString(n / 10) + [DigitChar(n % 10)]
  }

  /** `Number.prototype.toString()` of an integer: a minus sign before negative values. */
  function IntToString(n: int): (s: string)
    ensures |s| >= 1
    ensures s[0] == '-' <==> n < 0
    ensures 0 <= n ==> AllDigits(s)
    ensures n < 0 ==> AllDigits(s[1..]) && |s| >= 2
    ensures 0 <= n ==> DigitsValue(s) == n
    ensures n < 0 ==> DigitsValue(s[1..]) == -n
  {
    if n < 0 then
      NatToStringValue(-n);
      assert ("-" + NatToString(-n))[1..] == NatToString(-n);
      "-" + NatToString(-n)
    else
      NatToStringValue(n);
      NatToString(n)
  }

  /** Reading back the decimal string of a number gives the number. */
  lemma {:induction false} NatToStringValue(n: nat)
    ensures DigitsValue(NatToString(n)) == n
  {
    if n >= 10 {
      var s := NatToString(n);
      NatToStringValue(n / 10);
      assert s[..|s| - 1] == NatToString(n / 10);
      assert s[|s| - 1] as int - '0' as int == n % 10;
    }
  }

  /** `String.prototype.padStart(width, fill)` with a one-character fill: prefix copies of `fill` until the string is `width` long. */
  function PadStart(s: string, width: nat, fill: char): (r: string)
    ensures |r| == if |s| >= width then |s| else width
    ensures |s| >= width ==> r == s
    ensures r == seq(|r| - |s|, _ => fill) + s
    decreases width - |s|
  {
    if |s| >= width then s else PadStart([fill] + s, width, fill)
  }

  // ---------------------------------------------------------------------------
  // formatTime
  // ---------------------------------------------------------------------------

  /** `formatTime`: whole minutes, a colon, then whole seconds padded to two characters. */
  function FormatTime(time: real): (r: string)
    ensures |r| >= 4
    ensures r[0] == '-' <==> time < 0.0
  {
    var minutes := (time / 60.0).Floor;
    var seconds := PadStart(IntToString(JsRem(time, 60.0).Floor), 2, '0');
    IntToString(minutes) + ":" + seconds
  }

  /** Reads an `m:ss` string back into whole seconds; `None` for anything else. */
  function ParseClock(s: string): Option<nat>
  {
    if |s| < 4 || s[|s| - 3] != ':' then None
    else
      var minutes, seconds := s[..|s| - 3], s[|s| - 2..];
      if AllDigits(minutes) && AllDigits(seconds) && DigitsValue(seconds) < 60
      then Some(DigitsValue(minutes) * 60 + DigitsValue(seconds))
      else None
  }

  /** Splitting a non-negative time into whole minutes and the whole seconds left over. */
  lemma MinutesSeconds(time: real)
    requires 0.0 <= time
    ensures var m := (time / 60.0).Floor; var s := JsRem(time, 60.0).Floor;
      0 <= m && 0 <= s < 60 && m * 60 + s == time.Floor
  {
    var m := (time / 60.0).Floor;
    var rem := JsRem(time, 60.0);
    assert rem == time - 60.0 * m as real;
    assert 0.0 <= m as real;
    FloorShift(rem, 60 * m);
  }

  /** Adding a whole number shifts the floor by that number. */
  lemma FloorShift(x: real, k: int)
    ensures (x + k as real).Floor == x.Floor + k
  {
    var f := x.Floor;
    assert f as real <= x < f as real + 1.0;
    assert (f + k) as real <= x + k as real < (f + k) as real + 1.0;
  }

  /** The two characters of a padded seconds field in 0..59. */
  lemma SecondsField(s: nat)
    requires s < 60
    ensures var f := PadStart(IntToString(s), 2, '0');
      && |f| == 2 && '0' <= f[0] <= '5' && IsDigit(f[1])
      && AllDigits(f) && DigitsValue(f) == s
  {
    var t := IntToString(s);
    var f := PadStart(t, 2, '0');
    if s < 10 {
      assert t == [DigitChar(s)];
      assert f == [DigitChar(0), DigitChar(s)] by {
        assert f == ['0'] + t;
      }
    } else {
      assert NatToString(s / 10) == [DigitChar(s / 10)];
      assert f == [DigitChar(s / 10), DigitChar(s % 10)];
    }
    TwoDigits(s / 10, s % 10);
  }

  /** Two digit characters read as a two-digit number. */
  lemma TwoDigits(hi: nat, lo: nat)
    requires hi < 10 && lo < 10
    ensures AllDigits([DigitChar(hi), DigitChar(lo)])
    ensures DigitsValue([DigitChar(hi), DigitChar(lo)]) == hi * 10 + lo
  {
    var t := [DigitChar(hi), DigitChar(lo)];
    assert t[..1] == [DigitChar(hi)] && t[..1][..0] == [];
    assert DigitsValue(t[..1]) == hi;
    assert DigitsValue(t) == DigitsValue(t[..1]) * 10 + lo;
  }

  /** An `m:ss` string built from whole minutes and seconds in 0..59 reads back as `m * 60 + s`. */
  lemma ClockString(m: nat, s: nat)
    requires s < 60
    ensures var f := NatToString(m) + ":" + PadStart(IntToString(s), 2, '0');
      && |f| >= 4
      && f[|f| - 3] == ':'
      && '0' <= f[|f| - 2] <= '5' && IsDigit(f[|f| - 1])
      && (|f| > 4 ==> f[0] != '0')
      && ParseClock(f) == Some(m * 60 + s)
  {
    var mins := NatToString(m);
    var secs := PadStart(IntToString(s), 2, '0');
    assert |secs| == 2 && AllDigits(secs) && DigitsValue(secs) == s && '0' <= secs[0] <= '5' by {
      SecondsField(s);
    }
    assert DigitsValue(mins) == m by {
      NatToStringValue(m);
    }
    ParseColonSplit(mins, secs, m, s);
    assert (mins + ":" + secs)[0] == mins[0];
  }

  /** `a + ":" + b`, for digit strings `a` (non-empty) and `b` (two digits, below 60), splits back into its parts and reads as `a * 60 + b`. */
  lemma ParseColonSplit(a: string, b: string, minutes: nat, seconds: nat)
    requires |a| >= 1 && AllDigits(a) && |b| == 2 && AllDigits(b)
    requires DigitsValue(a) == minutes && DigitsValue(b) == seconds < 60
    ensures var f := a + ":" + b;
      && |f| == |a| + 3 && f[|f| - 3] == ':' && f[|f| - 2] == b[0] && f[|f| - 1] == b[1]
      && ParseClock(f) == Some(minutes * 60 + seconds)
  {
    var f := a + ":" + b;
    assert f[..|f| - 3] == a;
    assert f[|f| - 2..] == b;
  }

  /**
   * For a non-negative time, `formatTime` prints the whole minutes in decimal
   * with no leading zero, a colon and two second digits in 00..59, and the string denotes exactly the
   * whole seconds of the time.
   */
  lemma FormatTimeClock(time: real)
    requires 0.0 <= time
    ensures var f := FormatTime(time);
      && |f| >= 4
      && f[|f| - 3] == ':'
      && '0' <= f[|f| - 2] <= '5' && IsDigit(f[|f| - 1])
      && (|f| > 4 ==> f[0] != '0')
      && ParseClock(f) == Some(time.Floor)
  {
    MinutesSeconds(time);
    var m := (time / 60.0).Floor;
    var s := JsRem(time, 60.0).Floor;
    assert FormatTime(time) == NatToString(m) + ":" + PadStart(IntToString(s), 2, '0');
    ClockString(m, s);
  }

  /** 125.4 seconds shows as "2:05", zero as "0:00", and -5 seconds as "-1:-5". */
  lemma FormatTimeExamples()
    ensures FormatTime(125.4) == "2:05"
    ensures FormatTime(0.0) == "0:00"
    ensures FormatTime(-5.0) == "-1:-5"
  {
    assert (125.4 / 60.0).Floor == 2;
    assert JsRem(125.4, 60.0) == 5.4;
    assert (5.4).Floor == 5;
    assert (0.0 / 60.0).Floor == 0;
    assert JsRem(0.0, 60.0) == 0.0;
    assert (-5.0 / 60.0).Floor == -1;
    assert JsRem(-5.0, 60.0) == -5.0;
    assert IntToString(-5) == "-5" && IntToString(-1) == "-1";
  }

  // ---------------------------------------------------------------------------
  // Transport
  // ---------------------------------------------------------------------------

  /** One stretch of playback: the clock reading at `play` and the one at the `pause` that ended it. */
  datatype Span = Span(started: real, paused: real)

  /** The playing time a list of stretches adds up to. */
  function TotalPlayed(spans: seq<Span>): real
  {
    if spans == [] then 0.0
    else TotalPlayed(spans[..|spans| - 1]) + (spans[|spans| - 1].paused - spans[|spans| - 1].started)
  }

  /** Every stretch ends no earlier than it started. */
  predicate Forward(spans: seq<Span>)
  {
    forall k :: 0 <= k < |spans| ==> spans[k].started <= spans[k].paused
  }

  /** Stretches of forward time add up to a non-negative total. */
  lemma {:induction false} TotalPlayedNonNegative(spans: seq<Span>)
    requires Forward(spans)
    ensures TotalPlayed(spans) >= 0.0
  {
    if spans != [] {
      TotalPlayedNonNegative(spans[..|spans| - 1]);
    }
  }

  /** The total over two runs of stretches is the sum of their totals. */
  lemma {:induction false} TotalPlayedConcat(a: seq<Span>, b: seq<Span>)
    ensures TotalPlayed(a + b) == TotalPlayed(a) + TotalPlayed(b)
  {
    if b == [] {
      assert a + b == a;
    } else {
      var ab, init, last := a + b, b[..|b| - 1], b[|b| - 1];
      assert ab[..|ab| - 1] == a + init;
      assert ab[|ab| - 1] == last;
      TotalPlayedConcat(a, init);
      calc {
        TotalPlayed(ab);
        TotalPlayed(a + init) + (last.paused - last.started);
        TotalPlayed(a) + TotalPlayed(init) + (last.paused - last.started);
        TotalPlayed(a) + TotalPlayed(b);
      }
    }
  }

  /** Logging one more forward stretch that ends at the latest clock reading keeps the log forward and adds its length to the total. */
  lemma AppendSpan(spans: seq<Span>, span: Span, clock: real)
    requires Forward(spans) && span.started <= span.paused && clock <= span.paused
    requires forall k :: 0 <= k < |spans| ==> spans[k].paused <= clock
    ensures Forward(spans + [span])
    ensures TotalPlayed(spans + [span]) == TotalPlayed(spans) + (span.paused - span.started)
    ensures forall k :: 0 <= k < |spans + [span]| ==> (spans + [span])[k].paused <= span.paused
  {
    assert (spans + [span])[..|spans|] == spans;
  }

  /** Progress as the frame loop computes it: the clock since the last start plus the offset played before it. */
  function Elapsed(now: real, startTime: real, pauseTime: real): (r: real)
    ensures now == startTime ==> r == pauseTime
    ensures startTime <= now ==> pauseTime <= r
  {
    now - startTime + pauseTime
  }

  /** The non-ghost state of a transport, for stating what a method leaves alone. */
  datatype TransportState = TransportState(
    isPlaying: bool, progress: real, duration: real,
    startTime: real, pauseTime: real,
    hasContext: bool, hasSource: bool, sourceRunning: bool, sourceOffset: real,
    frameScheduled: bool, hasBuffer: bool)

  class Transport {
    // React state
    var isPlaying: bool
    var progress: real
    var duration: real
    // refs
    var startTime: real       // clock reading when output last started
    var pauseTime: real       // seconds played before the current start
    var hasContext: bool      // an audio context has been created
    var hasSource: bool       // a source node has been created (never cleared)
    // Web Audio side
    var sourceRunning: bool   // the current source node is producing output
    var sourceOffset: real    // the buffer offset the current source node started at
    var frameScheduled: bool  // an animation-frame callback is pending
    // the track prop
    var hasBuffer: bool       // the current track carries an audio buffer

    ghost var clock: real         // the latest clock reading passed in
    ghost var played: seq<Span>   // the stretches `pauseTime` has accumulated since the last reset

    ghost function State(): TransportState
      reads this
    {
      TransportState(isPlaying, progress, duration, startTime, pauseTime,
        hasContext, hasSource, sourceRunning, sourceOffset, frameScheduled, hasBuffer)
    }

    ghost predicate Valid()
      reads this
    {
      && 0.0 <= duration
      && (hasBuffer ==> 0.0 < duration && hasContext)
      && 0.0 <= progress
      && startTime <= clock
      && Forward(played)
      && (forall k :: 0 <= k < |played| ==> played[k].paused <= clock)
      && pauseTime == TotalPlayed(played)
      && (isPlaying ==> hasSource && hasContext)
      && (sourceRunning ==> isPlaying)
    }

    /** Mounting the player with a track: initial state, then the effect that reads the buffer's duration and creates the audio context, whose clock starts at zero. */
    constructor (buffer: Option<real>)
      requires buffer.Some? ==> buffer.value > 0.0
      ensures Valid()
      ensures State() == TransportState(false, 0.0, if buffer.Some? then buffer.value else 0.0, 0.0, 0.0,
        buffer.Some?, false, false, 0.0, false, buffer.Some?)
      ensures played == [] && clock == 0.0
    {
      isPlaying, progress, duration := false, 0.0, 0.0;
      startTime, pauseTime := 0.0, 0.0;
      hasContext, hasSource := false, false;
      sourceRunning, sourceOffset, frameScheduled := false, 0.0, false;
      hasBuffer := buffer.Some?;
      if buffer.Some? {
        duration := buffer.value;
        hasContext := true;
      }
      clock, played := 0.0, [];
    }

    /** The effect's cleanup (track change or unmount): stop any source, cancel the frame loop, reset to stopped at zero. */
    method Cleanup()
      requires Valid()
      modifies this
      ensures Valid()
      ensures State() == old(State()).(sourceRunning := false, frameScheduled := false,
        isPlaying := false, progress := 0.0, pauseTime := 0.0)
      ensures played == [] && clock == old(clock)
    {
      if hasSource {
        sourceRunning := false;
      }
      frameScheduled := false;
      isPlaying := false;
      progress := 0.0;
      pauseTime := 0.0;
      played := [];
    }

    /** A new track: the old effect's cleanup, then the new effect (duration of the new buffer, audio context created once). */
    method ChangeTrack(buffer: Option<real>)
      requires Valid()
      requires buffer.Some? ==> buffer.value > 0.0
      modifies this
      ensures Valid()
      ensures State() == old(State()).(sourceRunning := false, frameScheduled := false,
        isPlaying := false, progress := 0.0, pauseTime := 0.0,
        duration := if buffer.Some? then buffer.value else old(duration),
        hasContext := old(hasContext) || buffer.Some?,
        hasBuffer := buffer.Some?)
      ensures played == [] && clock == old(clock)
    {
      Cleanup();
      if buffer.Some? {
        duration := buffer.value;
        if !hasContext {
          hasContext := true;
        }
      }
      hasBuffer := buffer.Some?;
    }

    /**
     * `play`: without a context or a buffer nothing happens. Otherwise a new
     * source starts at `pauseTime % duration`, the start clock is recorded and
     * the frame loop is scheduled.
     */
    method Play(now: real)
      requires Valid() && clock <= now
      modifies this
      ensures Valid() && clock == now && played == old(played)
      ensures !old(hasContext && hasBuffer) ==> State() == old(State())
      ensures old(hasContext && hasBuffer) ==>
        State() == old(State()).(hasSource := true, sourceRunning := true,
          startTime := now, sourceOffset := JsRem(old(pauseTime), old(duration)),
          isPlaying := true, frameScheduled := true)
      ensures old(hasContext && hasBuffer) ==>
        && 0.0 <= sourceOffset < duration
        && (pauseTime < duration ==> sourceOffset == pauseTime)
        && Elapsed(now, startTime, pauseTime) == pauseTime
    {
      TotalPlayedNonNegative(played);
      clock := now;
      if !hasContext || !hasBuffer {
        return;
      }
      hasSource := true;
      startTime := now;
      sourceOffset := JsRem(pauseTime, duration);
      sourceRunning := true;
      isPlaying := true;
      frameScheduled := true;
    }

    /**
     * `pause`: without a source or a context nothing happens. Otherwise the
     * source stops, the time played since the start clock is added to
     * `pauseTime`, and the frame loop is cancelled.
     */
    method Pause(now: real)
      requires Valid() && clock <= now
      modifies this
      ensures Valid() && clock == now
      ensures if old(hasSource && hasContext) then
          && State() == old(State()).(sourceRunning := false,
               pauseTime := old(pauseTime) + (now - old(startTime)),
               isPlaying := false, frameScheduled := false)
          && played == old(played) + [Span(old(startTime), now)]
        else
          State() == old(State()) && played == old(played)
    {
      if !hasSource || !hasContext {
        clock := now;
        return;
      }
      var span := Span(startTime, now);
      ghost var log := played + [span];
      AppendSpan(played, span, clock);
      var offset := pauseTime + (now - startTime);
      assert offset == TotalPlayed(log);
      sourceRunning, pauseTime, isPlaying, frameScheduled := false, offset, false, false;
      clock, played := now, log;
    }

    /** `togglePlayPause`: `pause` exactly when playing, `play` otherwise. */
    method TogglePlayPause(now: real)
      requires Valid() && clock <= now
      modifies this
      ensures Valid() && clock == now
      ensures old(isPlaying) ==>
        && State() == old(State()).(sourceRunning := false,
             pauseTime := old(pauseTime) + (now - old(startTime)),
             isPlaying := false, frameScheduled := false)
        && played == old(played) + [Span(old(startTime), now)]
      ensures !old(isPlaying) && !old(hasBuffer) ==> State() == old(State())
      ensures !old(isPlaying) && old(hasBuffer) ==>
        && !old(sourceRunning)
        && State() == old(State()).(hasSource := true, sourceRunning := true,
             startTime := now, sourceOffset := JsRem(old(pauseTime), old(duration)),
             isPlaying := true, frameScheduled := true)
      ensures !old(isPlaying) ==> played == old(played)
    {
      if isPlaying {
        Pause(now);
      } else {
        Play(now);
      }
    }

    /**
     * The source's `ended` handler, given the progress value it compares: if
     * that is at least `duration - 0.1`, reset to stopped at zero; otherwise
     * only the source has stopped.
     */
    method Ended(seenProgress: real)
      requires Valid()
      modifies this
      ensures Valid() && clock == old(clock)
      ensures seenProgress >= old(duration) - 0.1 ==>
        && State() == old(State()).(sourceRunning := false, isPlaying := false, progress := 0.0, pauseTime := 0.0)
        && played == []
      ensures seenProgress < old(duration) - 0.1 ==>
        State() == old(State()).(sourceRunning := false) && played == old(played)
    {
      sourceRunning := false;
      if seenProgress >= duration - 0.1 {
        isPlaying := false;
        progress := 0.0;
        pauseTime := 0.0;
        played := [];
      }
    }

    /**
     * `updateProgress`, one animation frame: while playing, progress becomes
     * the clock since the start plus `pauseTime` and the next frame is
     * requested; otherwise the loop ends.
     */
    method UpdateProgress(now: real)
      requires Valid() && clock <= now
      modifies this
      ensures Valid() && clock == now && played == old(played)
      ensures old(isPlaying && hasContext) ==>
        && State() == old(State()).(progress := Elapsed(now, old(startTime), old(pauseTime)), frameScheduled := true)
        && pauseTime <= progress
      ensures !old(isPlaying && hasContext) ==> State() == old(State()).(frameScheduled := false)
    {
      clock := now;
      if isPlaying && hasContext {
        TotalPlayedNonNegative(played);
        progress := Elapsed(now, startTime, pauseTime);
        frameScheduled := true;
      } else {
        frameScheduled := false;
      }
    }
  }

  /**
   * Four clicks on the play/pause button of a freshly mounted player with a
   * track: after playing from `t1` to `t2` and from `t3` to `t4` the paused
   * offset is exactly the time played, however the clock readings fall.
   */
  method TwoPlayPauseCycles(duration: real, t1: real, t2: real, t3: real, t4: real) returns (offset: real)
    requires 0.0 < duration && 0.0 <= t1 <= t2 <= t3 <= t4
    ensures offset == (t2 - t1) + (t4 - t3)
  {
    var player := new Transport(Some(duration));
    player.TogglePlayPause(t1);
    player.TogglePlayPause(t2);
    player.TogglePlayPause(t3);
    player.TogglePlayPause(t4);
    offset := player.pauseTime;
  }

  /**
   * A track played from the start to its natural end, with the `ended`
   * handler comparing the progress its closure captured when `play` was set
   * up (zero, since the frame loop scheduled by that `play` sees the player as
   * stopped): the reset does not happen, the player still counts as playing,
   * and the next click pauses, adding at least the whole track to the offset.
   */
  method NaturalEndCapturedProgress(duration: real, start: real, click: real)
    returns (stillPlaying: bool, offset: real)
    requires 0.1 < duration && 0.0 <= start && start + duration <= click
    ensures stillPlaying && offset >= duration
  {
    var player := new Transport(Some(duration));
    player.TogglePlayPause(start);
    player.Ended(0.0);
    stillPlaying := player.isPlaying;
    player.TogglePlayPause(click);
    offset := player.pauseTime;
  }

  /**
   * The same track, with the handler comparing the progress the frame loop
   * reports when the buffer runs out: the player resets to stopped at zero,
   * and the next click plays the track again from its start.
   */
  method NaturalEndLiveProgress(duration: real, start: real, click: real)
    returns (stillPlaying: bool, offset: real)
    requires 0.1 < duration && 0.0 <= start && start + duration <= click
    ensures !stillPlaying && offset == 0.0
  {
    var player := new Transport(Some(duration));
    player.TogglePlayPause(start);
    player.Ended(Elapsed(start + duration, player.startTime, player.pauseTime));
    stillPlaying := player.isPlaying;
    player.TogglePlayPause(click);
    offset := player.sourceOffset;
  }
}
