/** The parts of the program's entry point with behaviour of their own: the
    resolution parser, the search for the frame to identify the size with,
    the `--extra-arg` splitting, the debug level tables and the loop that
    consumes the runner's events. */
module Program {
  import opened Common
  import opened Text
  import FrameIndex
  import RunnerTask
  import Quirks

  // ---------------------------------------------------------------------
  // `parse_resolution`
  // ---------------------------------------------------------------------

  const DIM_FORMAT_MSG := "the dimension must be specified as `WIDTHxHEIGHT` (example: `1920x1080`)"
  const WIDTH_MSG := "width is not an integer"
  const HEIGHT_MSG := "height is not an integer"

  /** Split on every `x`, demand two pieces, parse both as `u32`, width first. */
  function ParseResolution(s: string): Result<(nat, nat)>
  {
    var parts := Split(s, 'x');
    if |parts| != 2 then Err([DIM_FORMAT_MSG])
    else
      match ParseUnsigned(parts[0], U32_MAX)
      case Err(why) => Err([WIDTH_MSG] + why)
      case Ok(w) =>
        match ParseUnsigned(parts[1], U32_MAX)
        case Err(why) => Err([HEIGHT_MSG] + why)
        case Ok(h) => Ok((w, h))
  }

  /** What `str::parse::<u32>` accepts. */
  predicate U32Literal(s: string)
  {
    IsUnsignedLiteral(s) && DecimalValue(LiteralDigits(s)) <= U32_MAX
  }

  /** With the text cut into two `x`-free pieces around one `x`: both `u32`
      numbers give width then height, and the width is reported first. */
  lemma ParseResolutionPieces(a: string, b: string)
    requires 'x' !in a && 'x' !in b
    ensures var r := ParseResolution(a + ['x'] + b);
      && (U32Literal(a) && U32Literal(b) ==> r == Ok((DecimalValue(LiteralDigits(a)), DecimalValue(LiteralDigits(b)))))
      && (!U32Literal(a) ==> r.Err? && r.chain[0] == WIDTH_MSG)
      && (U32Literal(a) && !U32Literal(b) ==> r.Err? && r.chain[0] == HEIGHT_MSG)
  {
    SplitAtSep(a, b, 'x');
    SplitWithoutSep(a, 'x');
    SplitWithoutSep(b, 'x');
    ParseUnsignedSpec(a, U32_MAX);
    ParseUnsignedSpec(b, U32_MAX);
  }

  /** Success exactly on `WIDTHxHEIGHT` with a single `x` between two `u32`
      numbers; any other number of pieces is reported before a number is read. */
  lemma ParseResolutionSpec(s: string)
    ensures ParseResolution(s).Ok?
        <==> exists a, b :: s == a + ['x'] + b && 'x' !in a && 'x' !in b && U32Literal(a) && U32Literal(b)
    ensures (forall a, b :: !(s == a + ['x'] + b && 'x' !in a && 'x' !in b))
        ==> ParseResolution(s) == Err([DIM_FORMAT_MSG])
  {
    SplitTwo(s, 'x');
    var parts := Split(s, 'x');
    if |parts| == 2 {
      ParseResolutionPieces(parts[0], parts[1]);
    }
    if exists a, b :: s == a + ['x'] + b && 'x' !in a && 'x' !in b && U32Literal(a) && U32Literal(b) {
      var a, b :| s == a + ['x'] + b && 'x' !in a && 'x' !in b && U32Literal(a) && U32Literal(b);
      ParseResolutionPieces(a, b);
    }
  }

  /** The `{w}x{h}` text the encoder command is given parses back to `(w, h)`. */
  lemma ResolutionRoundTrip(w: nat, h: nat)
    requires w <= U32_MAX && h <= U32_MAX
    ensures ParseResolution(Decimal(w) + "x" + Decimal(h)) == Ok((w, h))
  {
    var a, b := Decimal(w), Decimal(h);
    assert 'x' !in a && 'x' !in b by {
      assert forall i :: 0 <= i < |a| ==> IsAsciiDigit(a[i]);
      assert forall i :: 0 <= i < |b| ==> IsAsciiDigit(b[i]);
    }
    SplitAtSep(a, b, 'x');
    SplitWithoutSep(a, 'x');
    SplitWithoutSep(b, 'x');
    DecimalRoundTrip(w, U32_MAX);
    DecimalRoundTrip(h, U32_MAX);
  }

  // ---------------------------------------------------------------------
  // `find_ident_frame`
  // ---------------------------------------------------------------------

  const NO_INIT_FRAME_MSG := "no valid init frame found"

  /** The `fold`: a strictly smaller id replaces the accumulator. */
  function IdentFold(acc: FrameIndex.Frame, fs: seq<FrameIndex.Frame>): FrameIndex.Frame
    decreases |fs|
  {
    if fs == [] then acc
    else IdentFold(if fs[0].id < acc.id then fs[0] else acc, fs[1..])
  }

  /** The fold's result is the accumulator when nothing beats it, and otherwise
      the first frame of smallest id. */
  lemma {:induction false} IdentFoldSpec(acc: FrameIndex.Frame, fs: seq<FrameIndex.Frame>)
    ensures var r := IdentFold(acc, fs);
      && r.id <= acc.id
      && (forall k :: 0 <= k < |fs| ==> r.id <= fs[k].id)
      && (r.id < acc.id ==> exists i :: 0 <= i < |fs| && r == fs[i] && forall k :: 0 <= k < i ==> fs[k].id > r.id)
      && (r.id == acc.id ==> r == acc)
    decreases |fs|
  {
    if fs != [] {
      var next := if fs[0].id < acc.id then fs[0] else acc;
      IdentFoldSpec(next, fs[1..]);
      var r := IdentFold(next, fs[1..]);
      assert forall k :: 1 <= k < |fs| ==> fs[k] == fs[1..][k - 1];
      if r.id < acc.id {
        if r.id < next.id {
          var i :| 0 <= i < |fs[1..]| && r == fs[1..][i] && forall k :: 0 <= k < i ==> fs[1..][k].id > r.id;
          assert r == fs[i + 1];
          if fs[0].id < acc.id {
            assert fs[0].id > r.id;
          }
        } else {
          assert r == next;
          assert next == fs[0];
          assert fs[..0] == [];
        }
      }
    }
  }

  /** The path of the first frame, in encounter order, of smallest id below the
      `u64::MAX` sentinel. */
  function FindIdentFrame(dir: FrameIndex.Directory): Result<string>
  {
    match dir
    case Unlistable(why) => Err([FrameIndex.LIST_FAILED_MSG, why])
    case Listing(entries) =>
      var f := IdentFold(FrameIndex.Frame(U64_MAX, ""), FrameIndex.Collect(entries));
      if f.id == U64_MAX then Err([NO_INIT_FRAME_MSG]) else Ok(f.path)
  }

  /** The fold over a listing's kept frames from the sentinel: it stays at the
      sentinel's id exactly when every kept id is `u64::MAX`, and otherwise ends
      on the first kept frame of smallest id. */
  lemma IdentOfListing(entries: seq<FrameIndex.DirEntry>)
    ensures var kept := FrameIndex.Collect(entries);
      var r := IdentFold(FrameIndex.Frame(U64_MAX, ""), kept);
      && (r.id == U64_MAX <==> forall f :: f in kept ==> f.id == U64_MAX)
      && (r.id != U64_MAX ==>
            exists i :: 0 <= i < |kept| && kept[i] == r && kept[i].id < U64_MAX
              && (forall k :: 0 <= k < |kept| ==> kept[i].id <= kept[k].id)
              && (forall k :: 0 <= k < i ==> kept[k].id > kept[i].id))
  {
    var kept := FrameIndex.Collect(entries);
    var sentinel := FrameIndex.Frame(U64_MAX, "");
    IdentFoldSpec(sentinel, kept);
    KeptIdsBounded(entries);
    var r := IdentFold(sentinel, kept);
    if r.id == U64_MAX {
      forall f | f in kept ensures f.id == U64_MAX {
        var k :| 0 <= k < |kept| && kept[k] == f;
      }
    } else {
      var i :| 0 <= i < |kept| && r == kept[i] && forall k :: 0 <= k < i ==> kept[k].id > r.id;
      assert kept[i] in kept;
    }
  }

  /** It fails when the directory cannot be listed or no kept frame has an id
      below `u64::MAX`; otherwise it names the first kept frame of smallest id. */
  lemma FindIdentFrameSpec(dir: FrameIndex.Directory)
    ensures dir.Unlistable? ==> FindIdentFrame(dir) == Err([FrameIndex.LIST_FAILED_MSG, dir.why])
    ensures dir.Listing? ==>
      (FindIdentFrame(dir) == Err([NO_INIT_FRAME_MSG])
       <==> forall f :: f in FrameIndex.Collect(dir.entries) ==> f.id == U64_MAX)
    ensures dir.Listing? ==>
      var kept := FrameIndex.Collect(dir.entries);
      (FindIdentFrame(dir).Ok? ==>
            exists i :: 0 <= i < |kept| && kept[i].path == FindIdentFrame(dir).value
              && kept[i].id < U64_MAX
              && (forall k :: 0 <= k < |kept| ==> kept[i].id <= kept[k].id)
              && (forall k :: 0 <= k < i ==> kept[k].id > kept[i].id))
  {
    if dir.Listing? {
      IdentOfListing(dir.entries);
    }
  }

  /** The size is identified from the frame that heads the frame list: the
      stable sort puts the first frame of smallest id in front. */
  lemma IdentIsFirstOfFrameList(dir: FrameIndex.Directory)
    requires FindIdentFrame(dir).Ok?
    ensures FrameIndex.FromDir(dir).Ok? && |FrameIndex.FromDir(dir).value| > 0
    ensures FrameIndex.FromDir(dir).value[0].path == FindIdentFrame(dir).value
  {
    FindIdentFrameSpec(dir);
    var kept := FrameIndex.Collect(dir.entries);
    var i :| 0 <= i < |kept| && kept[i].path == FindIdentFrame(dir).value
      && (forall k :: 0 <= k < |kept| ==> kept[i].id <= kept[k].id)
      && (forall k :: 0 <= k < i ==> kept[k].id > kept[i].id);
    SortedHead(kept, i);
  }

  /** The first frame of smallest id heads the stably sorted list. */
  lemma SortedHead(kept: seq<FrameIndex.Frame>, i: nat)
    requires i < |kept|
    requires forall k :: 0 <= k < |kept| ==> kept[i].id <= kept[k].id
    requires forall k :: 0 <= k < i ==> kept[k].id > kept[i].id
    ensures |FrameIndex.SortById(kept)| > 0 && FrameIndex.SortById(kept)[0] == kept[i]
  {
    var sorted := FrameIndex.SortById(kept);
    FrameIndex.SortByIdSpec(kept);
    var m := kept[i].id;
    assert kept[i] in multiset(sorted);
    assert |sorted| > 0;
    assert sorted[0] in multiset(kept);
    assert sorted[0] in kept;
    var l :| 0 <= l < |kept| && kept[l] == sorted[0];
    assert kept[i] in sorted;
    var j :| 0 <= j < |sorted| && sorted[j] == kept[i];
    assert sorted[0].id <= sorted[j].id;
    WithIdFirst(sorted, 0, m);
    WithIdFirst(kept, i, m);
    assert FrameIndex.WithId(sorted, m) == FrameIndex.WithId(kept, m);
  }

  lemma {:induction false} WithIdNone(s: seq<FrameIndex.Frame>, k: nat)
    requires forall l :: 0 <= l < |s| ==> s[l].id != k
    ensures FrameIndex.WithId(s, k) == []
    decreases |s|
  {
    if s != [] {
      WithIdNone(s[..|s| - 1], k);
    }
  }

  lemma {:induction false} WithIdFirst(s: seq<FrameIndex.Frame>, i: nat, k: nat)
    requires i < |s| && s[i].id == k
    requires forall l :: 0 <= l < i ==> s[l].id != k
    ensures |FrameIndex.WithId(s, k)| > 0 && FrameIndex.WithId(s, k)[0] == s[i]
    decreases |s|
  {
    var init := s[..|s| - 1];
    if i == |s| - 1 {
      WithIdNone(init, k);
    } else {
      WithIdFirst(init, i, k);
    }
  }

  lemma {:induction false} KeptIdsBounded(entries: seq<FrameIndex.DirEntry>)
    ensures forall k :: 0 <= k < |FrameIndex.Collect(entries)| ==> FrameIndex.Collect(entries)[k].id <= U64_MAX
  {
    FrameIndex.CollectSpec(entries);
    var kept := FrameIndex.Collect(entries);
    forall k | 0 <= k < |kept| ensures kept[k].id <= U64_MAX {
      assert kept[k] in kept;
    }
  }

  // ---------------------------------------------------------------------
  // `--extra-arg`
  // ---------------------------------------------------------------------

  /** The words one `--extra-arg` adds: the key, and the value when there is one. */
  function ExtraArgWords(arg: string): seq<string>
  {
    var (k, v) := SplitOnce(arg, '=');
    if v.Some? then [k, v.value] else [k]
  }

  /** The key never contains `=`, a value comes exactly when the argument has
      an `=`, and joining the words with `=` gives the argument back. */
  lemma ExtraArgWordsSpec(arg: string)
    ensures var ws := ExtraArgWords(arg);
      && 1 <= |ws| <= 2
      && '=' !in ws[0]
      && (|ws| == 2 <==> '=' in arg)
      && Join(ws, '=') == arg
  {
    SplitOnceSpec(arg, '=');
  }

  /** Every extra argument's words, in order. */
  function ExtraArgsWords(extra: seq<string>): seq<string>
    decreases |extra|
  {
    if extra == [] then [] else ExtraArgsWords(extra[..|extra| - 1]) + ExtraArgWords(extra[|extra| - 1])
  }

  /** The `for` loop over the extra arguments, appending to the command's arguments. */
  method AppendExtraArgs(args: seq<string>, extra: seq<string>) returns (out: seq<string>)
    ensures out == args + ExtraArgsWords(extra)
  {
    out := args;
    var i := 0;
    while i < |extra|
      invariant 0 <= i <= |extra|
      invariant out == args + ExtraArgsWords(extra[..i])
    {
      assert extra[..i + 1][..i] == extra[..i];
      var (k, v) := SplitOnce(extra[i], '=');
      match v {
        case Some(value) => out := out + [k, value];
        case None => out := out + [k];
      }
      i := i + 1;
    }
    assert extra[..|extra|] == extra;
  }

  /** The added words split back into the arguments: each argument contributes
      one or two words whose `=`-join is that argument. */
  lemma {:induction false} ExtraArgsWordsCount(extra: seq<string>)
    ensures |extra| <= |ExtraArgsWords(extra)| <= 2 * |extra|
    ensures (forall i :: 0 <= i < |extra| ==> '=' !in extra[i]) ==> ExtraArgsWords(extra) == extra
    decreases |extra|
  {
    if extra != [] {
      var init := extra[..|extra| - 1];
      ExtraArgsWordsCount(init);
      ExtraArgWordsSpec(extra[|extra| - 1]);
      if forall i :: 0 <= i < |extra| ==> '=' !in extra[i] {
        assert forall i :: 0 <= i < |init| ==> init[i] == extra[i];
        SplitOnceSpec(extra[|extra| - 1], '=');
        assert extra == init + [extra[|extra| - 1]];
      }
    }
  }

  // ---------------------------------------------------------------------
  // `DebugLevel`
  // ---------------------------------------------------------------------

  datatype DebugLevel = Off | Terse | Extra | Full

  /** `tracing` level filters, least verbose first. */
  datatype LevelFilter = ERROR | WARN | INFO | DEBUG | TRACE

  function Verbosity(l: LevelFilter): nat
  {
    match l
    case ERROR => 0
    case WARN => 1
    case INFO => 2
    case DEBUG => 3
    case TRACE => 4
  }

  function DebugRank(d: DebugLevel): nat
  {
    match d
    case Off => 0
    case Terse => 1
    case Extra => 2
    case Full => 3
  }

  function ConsoleLevel(d: DebugLevel): LevelFilter
  {
    match d
    case Off => ERROR
    case Terse => WARN
    case Extra => INFO
    case Full => TRACE
  }

  function FileLevel(d: DebugLevel): LevelFilter
  {
    match d
    case Off => WARN
    case Terse => INFO
    case Extra => DEBUG
    case Full => TRACE
  }

  function DebugName(d: DebugLevel): string
  {
    match d
    case Off => "off"
    case Terse => "terse"
    case Extra => "extra"
    case Full => "full"
  }

  predicate Enabled(d: DebugLevel) { d != Off }

  /** The two filters grow with the level, the file filter is one step more
      verbose than the console's up to `TRACE`, the names tell the levels
      apart, and only `off` is disabled. */
  lemma DebugLevelTables()
    ensures forall a, b :: DebugRank(a) <= DebugRank(b) ==>
      Verbosity(ConsoleLevel(a)) <= Verbosity(ConsoleLevel(b)) && Verbosity(FileLevel(a)) <= Verbosity(FileLevel(b))
    ensures forall d :: Verbosity(FileLevel(d)) == Min4(Verbosity(ConsoleLevel(d)) + 1)
    ensures forall a, b :: DebugName(a) == DebugName(b) ==> a == b
    ensures forall d :: Enabled(d) <==> DebugRank(d) > 0
    ensures forall d :: Verbosity(ConsoleLevel(d)) >= DebugRank(d)
  {
  }

  function Min4(n: nat): nat { if n <= 4 then n else 4 }

  /** The subscriber's layers: the console always, a log file only when the
      level is enabled and the file could be created. */
  function LogLayers(d: DebugLevel, fileCreated: bool): (LevelFilter, Option<LevelFilter>)
  {
    (ConsoleLevel(d), if Enabled(d) && fileCreated then Some(FileLevel(d)) else None)
  }

  lemma LogLayersSpec(d: DebugLevel, fileCreated: bool)
    ensures LogLayers(d, fileCreated).1.Some? <==> d != Off && fileCreated
    ensures LogLayers(d, fileCreated).1.Some? ==>
      Verbosity(LogLayers(d, fileCreated).0) < Verbosity(LogLayers(d, fileCreated).1.value) || d == Full
  {
  }

  // ---------------------------------------------------------------------
  // The event loop of `program`.
  // ---------------------------------------------------------------------

  const MISSED_START_MSG := "somehow missed start message"
  const RUNNER_EXITED_MSG := "runner exited with error"

  /** How `program` ends after starting the runner: with a result, or in the
      `unreachable!` panic on a second `Start`. */
  datatype Exit = Returned(result: Result<()>) | Panicked

  /** The loop after `Start`: the frames it forwards to the watchdog, until
      `Stop` or the end of the stream, and whether a second `Start` panicked. */
  function Forwarded(events: seq<RunnerTask.Message>): (seq<Quirks.QuirksMessage>, bool)
    decreases |events|
  {
    if events == [] then ([], false)
    else
      match events[0]
      case Frame(fid, path) =>
        var (rest, panicked) := Forwarded(events[1..]);
        ([Quirks.Frame(fid, path)] + rest, panicked)
      case Stop(_) => ([], false)
      case Start(_) => ([], true)
  }

  /** The end of `program` from the first event on: the exit, and the messages
      pushed to the watchdog when the progress quirk is on. */
  function ConsumeSpec(events: seq<RunnerTask.Message>, joined: Result<()>, progress: bool)
    : (Exit, Option<seq<Quirks.QuirksMessage>>)
  {
    if events == [] || !events[0].Start? then (Returned(Err([MISSED_START_MSG])), None)
    else
      var (fwd, panicked) := Forwarded(events[1..]);
      if panicked then (Panicked, if progress then Some(fwd) else None)
      else
        var res := joined.Context(RUNNER_EXITED_MSG);
        (Returned(res),
         if progress then Some(fwd + (if res.Err? then [Quirks.Error(res.chain)] else [])) else None)
  }

  /** How many timer iterations run after the `i`-th push. */
  function TickAt(ticks: seq<nat>, i: nat): nat
  {
    if i < |ticks| then ticks[i] else 0
  }

  function Wakes(n: nat): seq<Quirks.Event>
    decreases n
  {
    if n == 0 then [] else Wakes(n - 1) + [Quirks.Event.Wake]
  }

  /** The watchdog's schedule: each push followed by its timer iterations. */
  function Schedule(pushes: seq<Quirks.QuirksMessage>, ticks: seq<nat>): seq<Quirks.Event>
    decreases |pushes|
  {
    if pushes == [] then []
    else
      Schedule(pushes[..|pushes| - 1], ticks) + [Quirks.Push(pushes[|pushes| - 1])]
        + Wakes(TickAt(ticks, |pushes| - 1))
  }

  /** The watchdog is in the state, and has written the snapshots, that the
      schedule `evs` leads to from a fresh start. */
  ghost predicate Follows(w: Quirks.Watchdog, evs: seq<Quirks.Event>)
    reads w
  {
    && w.Valid()
    && w.State() == Quirks.Run(Quirks.Initial, w.total, evs).0
    && w.writes == Quirks.Run(Quirks.Initial, w.total, evs).1
  }

  method PushTo(w: Quirks.Watchdog, m: Quirks.QuirksMessage, ghost evs: seq<Quirks.Event>)
    requires Follows(w, evs)
    modifies w
    ensures Follows(w, evs + [Quirks.Push(m)])
  {
    w.PushMsg(m);
    Quirks.RunSnoc(Quirks.Initial, w.total, evs, Quirks.Push(m));
  }

  /** `n` timer iterations of the watchdog's loop. */
  method WakeTimes(w: Quirks.Watchdog, n: nat, ghost evs: seq<Quirks.Event>)
    requires Follows(w, evs)
    modifies w
    ensures Follows(w, evs + Wakes(n))
  {
    var k := 0;
    assert evs + Wakes(0) == evs;
    while k < n
      invariant 0 <= k <= n
      invariant Follows(w, evs + Wakes(k))
    {
      w.Wake();
      Quirks.RunSnoc(Quirks.Initial, w.total, evs + Wakes(k), Quirks.Event.Wake);
      assert evs + Wakes(k + 1) == evs + Wakes(k) + [Quirks.Event.Wake];
      k := k + 1;
    }
  }

  /** A push to the watchdog, then the timer iterations that follow it. */
  method Notify(w: Quirks.Watchdog, m: Quirks.QuirksMessage, ticks: seq<nat>,
                pushed: seq<Quirks.QuirksMessage>)
    requires Follows(w, Schedule(pushed, ticks))
    modifies w
    ensures Follows(w, Schedule(pushed + [m], ticks))
  {
    PushTo(w, m, Schedule(pushed, ticks));
    WakeTimes(w, TickAt(ticks, |pushed|), Schedule(pushed, ticks) + [Quirks.Push(m)]);
    assert (pushed + [m])[..|pushed|] == pushed;
  }

  /** `program` from reading the first event to its return. `events` is what the
      runner delivered, `joined` what `join` returns, `progress` whether the
      progress quirk is on, and `ticks` how many timer iterations of the
      watchdog fall after each push. */
  method Consume(events: seq<RunnerTask.Message>, joined: Result<()>, progress: bool,
                 dir: string, failingWrites: set<nat>, ticks: seq<nat>)
    returns (exit: Exit, wd: Option<Quirks.Watchdog>)
    ensures exit == ConsumeSpec(events, joined, progress).0
    ensures wd.Some? <==> ConsumeSpec(events, joined, progress).1.Some?
    ensures wd.Some? ==> (fresh(wd.value) && wd.value.total == events[0].frames
      && Follows(wd.value, Schedule(ConsumeSpec(events, joined, progress).1.value, ticks)
                           + (if exit.Returned? then [Quirks.Kill, Quirks.Event.Wake] else [])))
  {
    if events == [] || !events[0].Start? {
      return Returned(Err([MISSED_START_MSG])), None;
    }
    var framen := events[0].frames;
    wd := None;
    if progress {
      var w := new Quirks.Watchdog.Start(dir, framen, failingWrites);
      wd := Some(w);
    }
    var sent: seq<Quirks.QuirksMessage> := [];
    var i := 1;
    assert [] + Forwarded(events[1..]).0 == Forwarded(events[1..]).0;
    while i < |events|
      invariant 1 <= i <= |events|
      invariant Forwarded(events[1..]) == (sent + Forwarded(events[i..]).0, Forwarded(events[i..]).1)
      invariant wd.Some? <==> progress
      invariant wd.Some? ==> fresh(wd.value) && wd.value.total == framen && Follows(wd.value, Schedule(sent, ticks))
      decreases |events| - i
    {
      assert events[i..][1..] == events[i + 1..];
      match events[i] {
        case Frame(fid, path) =>
          var m := Quirks.Frame(fid, path);
          var rest := Forwarded(events[i + 1..]);
          assert Forwarded(events[i..]) == ([m] + rest.0, rest.1);
          assert sent + ([m] + rest.0) == (sent + [m]) + rest.0;
          if wd.Some? {
            Notify(wd.value, m, ticks, sent);
          }
          sent := sent + [m];
        case Stop(_) =>
          assert Forwarded(events[i..]) == ([], false);
          assert sent + [] == sent;
          break;
        case Start(_) =>
          assert Forwarded(events[i..]) == ([], true);
          assert sent + [] == sent;
          assert Schedule(sent, ticks) + [] == Schedule(sent, ticks);
          return Panicked, wd;
      }
      i := i + 1;
    }
    assert i == |events| ==> events[i..] == [] && sent + [] == sent;
    assert Forwarded(events[1..]) == (sent, false);
    var res := joined.Context(RUNNER_EXITED_MSG);
    if wd.Some? {
      if res.Err? {
        Notify(wd.value, Quirks.Error(res.chain), ticks, sent);
        sent := sent + [Quirks.Error(res.chain)];
      }
      var w := wd.value;
      ghost var before := Schedule(sent, ticks);
      var stopped := w.Stop();
      Quirks.RunAppend(Quirks.Initial, w.total, before, [Quirks.Kill, Quirks.Event.Wake]);
    }
    return Returned(res), wd;
  }

  // ---------------------------------------------------------------------
  // The consumer on what the runner delivers.
  // ---------------------------------------------------------------------

  /** The watchdog messages for the frames `fs`. */
  function QuirksFrames(fs: seq<FrameIndex.Frame>): (ms: seq<Quirks.QuirksMessage>)
    ensures |ms| == |fs|
    ensures forall i :: 0 <= i < |fs| ==> ms[i] == Quirks.Frame(fs[i].id, fs[i].path)
    decreases |fs|
  {
    if fs == [] then [] else QuirksFrames(fs[..|fs| - 1]) + [Quirks.Frame(fs[|fs| - 1].id, fs[|fs| - 1].path)]
  }

  /** The runner's protocol after `Start`: the frames in order, then `Stop`. */
  predicate FollowsFrames(evs: seq<RunnerTask.Message>, fs: seq<FrameIndex.Frame>, t: nat)
  {
    && |evs| <= |fs| + 1
    && forall i :: 0 <= i < |evs| ==>
         evs[i] == if i < |fs| then RunnerTask.Frame(fs[i].id, fs[i].path) else RunnerTask.Stop(t)
  }

  /** On any prefix of the protocol the loop forwards one message per delivered
      frame, in order, and never panics. */
  lemma {:induction false} ForwardedOfProtocol(fs: seq<FrameIndex.Frame>, t: nat, evs: seq<RunnerTask.Message>)
    requires FollowsFrames(evs, fs, t)
    ensures !Forwarded(evs).1
    ensures |Forwarded(evs).0| == RunnerTask.Min(|evs|, |fs|)
    ensures forall i :: 0 <= i < |Forwarded(evs).0| ==> Forwarded(evs).0[i] == Quirks.Frame(fs[i].id, fs[i].path)
    decreases |evs|
  {
    if evs != [] && fs != [] {
      assert evs[0] == RunnerTask.Frame(fs[0].id, fs[0].path);
      assert FollowsFrames(evs[1..], fs[1..], t) by {
        forall i | 0 <= i < |evs[1..]|
          ensures evs[1..][i] == if i < |fs[1..]| then RunnerTask.Frame(fs[1..][i].id, fs[1..][i].path) else RunnerTask.Stop(t)
        {
          assert evs[1..][i] == evs[i + 1];
        }
      }
      ForwardedOfProtocol(fs[1..], t, evs[1..]);
    }
  }

  /** The delivered events of a run, after `Start`, follow the protocol. */
  lemma EventsAfterStart(env: RunnerTask.Env, frames: seq<FrameIndex.Frame>, files: map<RunnerTask.Path, seq<byte>>)
    requires RunnerTask.DistinctPaths(frames)
    requires RunnerTask.RunSpec(env, frames, files).0.events != []
    ensures var evs := RunnerTask.RunSpec(env, frames, files).0.events;
      evs[0] == RunnerTask.Start(|frames|) && FollowsFrames(evs[1..], frames, env.world.elapsed)
  {
    var evs := RunnerTask.RunSpec(env, frames, files).0.events;
    RunnerTask.EventsFollowProtocol(env, frames, files);
    var full := RunnerTask.Protocol(frames, env.world.elapsed);
    assert evs[0] == full[0];
    forall i | 0 <= i < |evs[1..]|
      ensures evs[1..][i] == if i < |frames| then RunnerTask.Frame(frames[i].id, frames[i].path)
                             else RunnerTask.Stop(env.world.elapsed)
    {
      assert evs[1..][i] == full[i + 1];
    }
  }

  /** The forwarded messages are the first `k` frames' messages. */
  lemma ForwardedIsPrefix(fs: seq<FrameIndex.Frame>, t: nat, evs: seq<RunnerTask.Message>)
    requires FollowsFrames(evs, fs, t)
    ensures !Forwarded(evs).1
    ensures Forwarded(evs).0 == QuirksFrames(fs[..RunnerTask.Min(|evs|, |fs|)])
  {
    ForwardedOfProtocol(fs, t, evs);
    var fwd := Forwarded(evs).0;
    var pre := fs[..RunnerTask.Min(|evs|, |fs|)];
    var ms := QuirksFrames(pre);
    assert |fwd| == |ms|;
    forall i | 0 <= i < |ms| ensures fwd[i] == ms[i] {
      assert pre[i] == fs[i];
    }
  }

  /** The error message pushed for a failed runner. */
  function ErrorPush(r: Result<()>): seq<Quirks.QuirksMessage>
  {
    if r.Err? then [Quirks.Error([RUNNER_EXITED_MSG] + r.chain)] else []
  }

  /** The program on the runner's own events: it never panics; a runner that
      never sent `Start` (no stdin, or the receiver gone at once) surfaces as
      the missed-start error; otherwise the program returns the runner's result
      under "runner exited with error", and the watchdog is sent the delivered
      frames in list order, then the error chain when there is one. */
  lemma ConsumeRunner(env: RunnerTask.Env, frames: seq<FrameIndex.Frame>,
                      files: map<RunnerTask.Path, seq<byte>>, progress: bool)
    requires RunnerTask.DistinctPaths(frames)
    ensures var (p, r) := RunnerTask.RunSpec(env, frames, files);
      var (exit, pushes) := ConsumeSpec(p.events, r, progress);
      && exit != Panicked
      && (p.events == [] ==> exit == Returned(Err([MISSED_START_MSG])) && pushes.None?)
      && (!env.hasStdin ==> exit == Returned(Err([MISSED_START_MSG])))
      && (p.events != [] ==> exit == Returned(r.Context(RUNNER_EXITED_MSG)))
      && (p.events != [] && progress ==>
            (pushes.Some? && (exists k :: (0 <= k <= |frames| && pushes.value == QuirksFrames(frames[..k]) + ErrorPush(r)))))
  {
    var (p, r) := RunnerTask.RunSpec(env, frames, files);
    if p.events != [] {
      EventsAfterStart(env, frames, files);
      ForwardedIsPrefix(frames, env.world.elapsed, p.events[1..]);
    }
  }

  /** Once `Stop` came, every frame was forwarded and the program succeeds. */
  lemma ConsumeCompleteRun(env: RunnerTask.Env, frames: seq<FrameIndex.Frame>,
                           files: map<RunnerTask.Path, seq<byte>>)
    requires RunnerTask.DistinctPaths(frames)
    requires RunnerTask.Stop(env.world.elapsed) in RunnerTask.RunSpec(env, frames, files).0.events
    ensures var (p, r) := RunnerTask.RunSpec(env, frames, files);
      ConsumeSpec(p.events, r, true) == (Returned(r), Some(QuirksFrames(frames))) && r.Ok?
  {
    var (p, r) := RunnerTask.RunSpec(env, frames, files);
    RunnerTask.StopMeansComplete(env, frames, files);
    ConsumeProtocol(frames, env.world.elapsed, p.events);
  }

  /** On the full protocol and an `Ok` runner, every frame is forwarded, no
      error is pushed, and the program returns `Ok`. */
  lemma ConsumeProtocol(frames: seq<FrameIndex.Frame>, t: nat, evs: seq<RunnerTask.Message>)
    requires evs == RunnerTask.Protocol(frames, t)
    ensures ConsumeSpec(evs, Ok(()), true) == (Returned(Ok(())), Some(QuirksFrames(frames)))
  {
    var rest := evs[1..];
    forall i | 0 <= i < |rest|
      ensures rest[i] == if i < |frames| then RunnerTask.Frame(frames[i].id, frames[i].path) else RunnerTask.Stop(t)
    {
      assert rest[i] == evs[i + 1];
    }
    ForwardedIsPrefix(frames, t, rest);
    assert frames[..|frames|] == frames;
    assert QuirksFrames(frames) + [] == QuirksFrames(frames);
  }

  // ---------------------------------------------------------------------
  // Progress never goes backwards.
  // ---------------------------------------------------------------------

  /** The frame messages among `ms` come in nondecreasing id order. */
  ghost predicate FrameIdsInOrder(ms: seq<Quirks.QuirksMessage>)
  {
    forall i, j :: 0 <= i < j < |ms| && ms[i].Frame? && ms[j].Frame? ==> ms[i].fid <= ms[j].fid
  }

  lemma {:induction false} WakesOnly(n: nat)
    ensures |Wakes(n)| == n
    ensures forall e :: 0 <= e < |Wakes(n)| ==> Wakes(n)[e] == Quirks.Event.Wake
    decreases n
  {
    if n > 0 { WakesOnly(n - 1); }
  }

  /** The timer iterations push nothing, so the schedule pushes exactly the
      messages, in their order. */
  lemma {:induction false} ScheduleInOrder(ps: seq<Quirks.QuirksMessage>, ticks: seq<nat>)
    requires FrameIdsInOrder(ps)
    ensures Quirks.PushedIdsNondecreasing(Schedule(ps, ticks))
    ensures forall e :: 0 <= e < |Schedule(ps, ticks)| && Schedule(ps, ticks)[e].Push? ==> Schedule(ps, ticks)[e].m in ps
    decreases |ps|
  {
    if ps != [] {
      var init, last := ps[..|ps| - 1], ps[|ps| - 1];
      assert FrameIdsInOrder(init) by {
        forall i, j | 0 <= i < j < |init| && init[i].Frame? && init[j].Frame? ensures init[i].fid <= init[j].fid {
          assert init[i] == ps[i] && init[j] == ps[j];
        }
      }
      ScheduleInOrder(init, ticks);
      var a := Schedule(init, ticks);
      var n := TickAt(ticks, |ps| - 1);
      WakesOnly(n);
      var s := Schedule(ps, ticks);
      assert s == a + [Quirks.Push(last)] + Wakes(n);
      forall e | 0 <= e < |s| && s[e].Push? ensures s[e].m in ps {
        if e < |a| {
          assert s[e] == a[e];
          var k :| 0 <= k < |init| && init[k] == a[e].m;
          assert ps[k] == init[k];
        }
      }
      forall i, j | 0 <= i < j < |s| && s[i].Push? && s[j].Push? && s[i].m.Frame? && s[j].m.Frame?
        ensures s[i].m.fid <= s[j].m.fid
      {
        if j == |a| {
          assert s[i] == a[i];
          var k :| 0 <= k < |init| && init[k] == a[i].m;
          assert ps[k] == init[k] && ps[|ps| - 1] == last;
        } else {
          assert s[i] == a[i] && s[j] == a[j];
        }
      }
    }
  }

  /** Frames sorted by id, cut after any of them, then an optional error: the
      frame ids are in order. */
  lemma SortedFramesInOrder(frames: seq<FrameIndex.Frame>, k: nat, r: Result<()>)
    requires FrameIndex.SortedById(frames)
    requires k <= |frames|
    ensures FrameIdsInOrder(QuirksFrames(frames[..k]) + ErrorPush(r))
  {
    var ms := QuirksFrames(frames[..k]) + ErrorPush(r);
    forall i, j | 0 <= i < j < |ms| && ms[i].Frame? && ms[j].Frame? ensures ms[i].fid <= ms[j].fid {
      assert j < k;
      assert ms[i] == Quirks.Frame(frames[i].id, frames[i].path);
      assert ms[j] == Quirks.Frame(frames[j].id, frames[j].path);
    }
  }

  /** Pushes in id order, however the timer interleaves, then `Stop`: the
      rendering snapshots never show a smaller frame id than an earlier one. */
  lemma ScheduleMonotone(ps: seq<Quirks.QuirksMessage>, total: nat, ticks: seq<nat>)
    requires FrameIdsInOrder(ps)
    ensures Quirks.RenderingNondecreasing(
      Quirks.Run(Quirks.Initial, total, Schedule(ps, ticks) + [Quirks.Kill, Quirks.Event.Wake]).1)
  {
    ScheduleInOrder(ps, ticks);
    var s := Schedule(ps, ticks);
    var evs := s + [Quirks.Kill, Quirks.Event.Wake];
    assert Quirks.PushedIdsNondecreasing(evs) by {
      forall i, j | 0 <= i < j < |evs| && evs[i].Push? && evs[j].Push? && evs[i].m.Frame? && evs[j].m.Frame?
        ensures evs[i].m.fid <= evs[j].m.fid
      {
        assert j < |s|;
        assert evs[i] == s[i] && evs[j] == s[j];
      }
    }
    Quirks.RunMonotone(total, evs);
  }

  /** The dropped-update tolerance end to end: on the frame list of a listing,
      whatever the runner delivers and however the timer interleaves, the
      rendering snapshots the watchdog writes, up to the final one after
      `Stop`, never show a smaller frame id than an earlier one. */
  lemma ProgressNeverGoesBack(env: RunnerTask.Env, dir: FrameIndex.Directory,
                              files: map<RunnerTask.Path, seq<byte>>, total: nat, ticks: seq<nat>)
    requires dir.Listing?
    requires RunnerTask.DistinctPaths(FrameIndex.FromDir(dir).value)
    ensures var frames := FrameIndex.FromDir(dir).value;
      var (p, r) := RunnerTask.RunSpec(env, frames, files);
      var pushes := ConsumeSpec(p.events, r, true).1;
      pushes.Some? ==>
        Quirks.RenderingNondecreasing(
          Quirks.Run(Quirks.Initial, total, Schedule(pushes.value, ticks) + [Quirks.Kill, Quirks.Event.Wake]).1)
  {
    var frames := FrameIndex.FromDir(dir).value;
    FrameIndex.FromDirSpec(dir);
    var (p, r) := RunnerTask.RunSpec(env, frames, files);
    ConsumeRunner(env, frames, files, true);
    var pushes := ConsumeSpec(p.events, r, true).1;
    if pushes.Some? {
      var k :| 0 <= k <= |frames| && pushes.value == QuirksFrames(frames[..k]) + ErrorPush(r);
      SortedFramesInOrder(frames, k, r);
      ScheduleMonotone(pushes.value, total, ticks);
    }
  }
}
