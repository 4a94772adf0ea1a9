/** The runner: it spawns the encoder with a piped stdin, then streams every
    frame file into that pipe in list order, announcing each frame on the
    event channel and deleting the file once it has been copied. */
module RunnerTask {
  import opened Common
  import FrameIndex

  type Path = FrameIndex.Path
  type Frame = FrameIndex.Frame

  /** The events the runner sends to the program. */
  datatype Message = Start(frames: nat) | Frame(fid: nat, path: string) | Stop(time: nat)

  /** Everything the runner does to the outside world, in order. A send records
      whether the receiver still existed. */
  datatype Effect =
    | Sent(m: Message, delivered: bool)
    | Opened(path: Path, ok: bool)
    | Copied(path: Path, ok: bool)
    | Removed(path: Path, ok: bool)
    | ClosedStdin
    | WaitedChild

  /** What the runner cannot see in advance: after how many delivered
      messages the receiver is gone (once gone it stays gone), which files fail
      to open, to copy (after how many bytes, with which error) or to be
      removed, and the time the run took. */
  datatype World = World(
    receiverGone: Option<nat>,
    openErrors: map<Path, string>,
    copyErrors: map<Path, (nat, string)>,
    removeErrors: map<Path, string>,
    elapsed: nat)

  /** A runner's fixed configuration: whether the child has a stdin to take,
      the `delete_quirk` flag, and the world it runs in. */
  datatype Env = Env(hasStdin: bool, deleteQuirk: bool, world: World)

  /** The observable state: the events delivered, the bytes written to the
      child's stdin, the file store, and the effect trace. */
  datatype Pipe = Pipe(events: seq<Message>, stdin: seq<byte>, files: map<Path, seq<byte>>, trace: seq<Effect>)

  /** The runner either goes on or returns with a result. */
  datatype Step = Continue(p: Pipe) | Exit(p: Pipe, result: Result<()>)

  const NO_STDIN_MSG := "no stdin, is ffmpeg running?"
  const OPEN_FAILED_MSG := "failed to open frame"
  const STREAM_FAILED_MSG := "failed to stream frame"
  const REMOVE_FAILED_MSG := "failed to remove frame"
  const SPAWN_FAILED_MSG := "failed to start ffmpeg process"
  /** The error a file that does not exist (any more) opens with. */
  const NOT_FOUND_MSG := "No such file or directory (os error 2)"

  function Min(a: nat, b: nat): nat { if a <= b then a else b }

  /** Whether a send finds the receiver once `i` messages have been delivered. */
  predicate Delivers(env: Env, i: nat)
  {
    env.world.receiverGone.None? || i < env.world.receiverGone.value
  }

  // ---------------------------------------------------------------------
  // The specification of `Runner::run`, step by step.
  // ---------------------------------------------------------------------

  /** `snd_chk!` around a send: a refused send makes the enclosing body return
      `Ok(())` at once. Around `Start` and `Stop` that body is `run` itself. */
  function SendStep(env: Env, p: Pipe, m: Message): Step
  {
    if Delivers(env, |p.events|) then
      Continue(p.(events := p.events + [m], trace := p.trace + [Sent(m, true)]))
    else
      Exit(p.(trace := p.trace + [Sent(m, false)]), Ok(()))
  }

  /** The body of the `for` loop for one frame, the `async` block: announce,
      open, copy, remove. A refused announcement returns from that block only,
      with `Ok`, so the result is not an error and the loop goes on. */
  function FrameStep(env: Env, p: Pipe, f: Frame): Step
  {
    match SendStep(env, p, Frame(f.id, f.path))
    case Exit(q, _) => Continue(q)
    case Continue(q) =>
      var path := f.path;
      if path in env.world.openErrors || path !in q.files then
        var why := if path in env.world.openErrors then env.world.openErrors[path] else NOT_FOUND_MSG;
        Exit(q.(trace := q.trace + [Opened(path, false)]), Err([OPEN_FAILED_MSG, why]))
      else
        var content := q.files[path];
        var reading := q.(trace := q.trace + [Opened(path, true)]);
        if path in env.world.copyErrors then
          var written := env.world.copyErrors[path].0;
          Exit(reading.(stdin := reading.stdin + content[..Min(written, |content|)],
                       trace := reading.trace + [Copied(path, false)]),
               Err([STREAM_FAILED_MSG, env.world.copyErrors[path].1]))
        else
          var copied := reading.(stdin := reading.stdin + content, trace := reading.trace + [Copied(path, true)]);
          if path in env.world.removeErrors then
            var kept := copied.(trace := copied.trace + [Removed(path, false)]);
            if env.deleteQuirk then Continue(kept)
            else Exit(kept, Err([REMOVE_FAILED_MSG, env.world.removeErrors[path]]))
          else
            Continue(copied.(files := copied.files - {path}, trace := copied.trace + [Removed(path, true)]))
  }

  /** The loop over the frames in list order; the first exit ends it. */
  function Pump(env: Env, fs: seq<Frame>, p: Pipe): Step
    decreases |fs|
  {
    if fs == [] then Continue(p)
    else
      match Pump(env, fs[..|fs| - 1], p)
      case Exit(q, r) => Exit(q, r)
      case Continue(q) => FrameStep(env, q, fs[|fs| - 1])
  }

  /** The prelude before the loop: take stdin, send `Start`. */
  function Prelude(env: Env, frames: seq<Frame>, files: map<Path, seq<byte>>): Step
  {
    var p0 := Pipe([], [], files, []);
    if !env.hasStdin then Exit(p0, Err([NO_STDIN_MSG]))
    else SendStep(env, p0, Start(|frames|))
  }

  /** The whole of `Runner::run`: the final state and the result. */
  function RunSpec(env: Env, frames: seq<Frame>, files: map<Path, seq<byte>>): (Pipe, Result<()>)
  {
    match Prelude(env, frames, files)
    case Exit(q, r) => (q, r)
    case Continue(q) =>
      match Pump(env, frames, q)
      case Exit(q', r) => (q', r)
      case Continue(q') =>
        var waited := q'.(trace := q'.trace + [ClosedStdin, WaitedChild]);
        match SendStep(env, waited, Stop(env.world.elapsed))
        case Exit(q'', r) => (q'', r)
        case Continue(q'') => (q'', Ok(()))
  }

  // ---------------------------------------------------------------------
  // Closed forms of a run that gets through frames without exiting.
  // ---------------------------------------------------------------------

  function FrameMessages(fs: seq<Frame>): (ms: seq<Message>)
    ensures |ms| == |fs|
    ensures forall i :: 0 <= i < |fs| ==> ms[i] == Frame(fs[i].id, fs[i].path)
    decreases |fs|
  {
    if fs == [] then [] else FrameMessages(fs[..|fs| - 1]) + [Frame(fs[|fs| - 1].id, fs[|fs| - 1].path)]
  }

  function Content(files: map<Path, seq<byte>>, f: Frame): seq<byte>
  {
    if f.path in files then files[f.path] else []
  }

  /** The frame files' contents, concatenated in list order. */
  function Concat(files: map<Path, seq<byte>>, fs: seq<Frame>): seq<byte>
    decreases |fs|
  {
    if fs == [] then [] else Concat(files, fs[..|fs| - 1]) + Content(files, fs[|fs| - 1])
  }

  /** The paths whose removal succeeds. */
  function RemovedPaths(env: Env, fs: seq<Frame>): (r: set<Path>)
    ensures forall path :: path in r <==>
      path !in env.world.removeErrors && exists i :: 0 <= i < |fs| && fs[i].path == path
    decreases |fs|
  {
    if fs == [] then {}
    else
      var init := RemovedPaths(env, fs[..|fs| - 1]);
      var path := fs[|fs| - 1].path;
      assert forall i :: 0 <= i < |fs| - 1 ==> fs[..|fs| - 1][i] == fs[i];
      if path in env.world.removeErrors then init else init + {path}
  }

  /** The effects of one frame that goes through. */
  function FrameTrace(env: Env, f: Frame): seq<Effect>
  {
    [Sent(Frame(f.id, f.path), true), Opened(f.path, true), Copied(f.path, true),
     Removed(f.path, f.path !in env.world.removeErrors)]
  }

  function FrameTraces(env: Env, fs: seq<Frame>): seq<Effect>
    decreases |fs|
  {
    if fs == [] then [] else FrameTraces(env, fs[..|fs| - 1]) + FrameTrace(env, fs[|fs| - 1])
  }

  /** The state once `Start` and the frames `fs` went through. */
  function After(env: Env, files: map<Path, seq<byte>>, n: nat, fs: seq<Frame>): Pipe
  {
    Pipe([Start(n)] + FrameMessages(fs), Concat(files, fs), files - RemovedPaths(env, fs),
         [Sent(Start(n), true)] + FrameTraces(env, fs))
  }

  /** Whether a frame's file exists and opens, copies, and is removed (or its
      removal failure is tolerated). */
  predicate FileOk(env: Env, files: map<Path, seq<byte>>, f: Frame)
  {
    && f.path in files
    && f.path !in env.world.openErrors
    && f.path !in env.world.copyErrors
    && (f.path !in env.world.removeErrors || env.deleteQuirk)
  }

  /** Whether the frame with index `i` goes through: its announcement is
      delivered and its file is processed. */
  predicate FrameOk(env: Env, files: map<Path, seq<byte>>, i: nat, f: Frame)
  {
    Delivers(env, i + 1) && FileOk(env, files, f)
  }

  predicate AllOk(env: Env, files: map<Path, seq<byte>>, fs: seq<Frame>)
  {
    forall k :: 0 <= k < |fs| ==> FrameOk(env, files, k, fs[k])
  }

  /** `j` is the first frame that does not go through, and it ends the run:
      its announcement is delivered but its file fails. */
  predicate FirstBad(env: Env, files: map<Path, seq<byte>>, fs: seq<Frame>, j: nat)
  {
    j < |fs| && Delivers(env, j + 1) && !FileOk(env, files, fs[j]) && AllOk(env, files, fs[..j])
  }

  /** `j` is the first frame that does not go through because the receiver is
      gone by its announcement. */
  predicate GoneAt(env: Env, files: map<Path, seq<byte>>, fs: seq<Frame>, j: nat)
  {
    j < |fs| && !Delivers(env, j + 1) && AllOk(env, files, fs[..j])
  }

  /** The refused announcements of frames offered after the receiver is gone. */
  function Refusals(fs: seq<Frame>): (t: seq<Effect>)
    ensures |t| == |fs|
    ensures forall i :: 0 <= i < |fs| ==> t[i] == Sent(Frame(fs[i].id, fs[i].path), false)
    decreases |fs|
  {
    if fs == [] then [] else Refusals(fs[..|fs| - 1]) + [Sent(Frame(fs[|fs| - 1].id, fs[|fs| - 1].path), false)]
  }

  /** The frames of a listing have different paths. */
  predicate DistinctPaths(fs: seq<Frame>)
  {
    forall i, j :: 0 <= i < j < |fs| ==> fs[i].path != fs[j].path
  }

  /** The file of frame `j` is untouched until frame `j` is reached. */
  lemma AfterKeepsLaterFiles(env: Env, files: map<Path, seq<byte>>, n: nat, fs: seq<Frame>, j: nat)
    requires DistinctPaths(fs) && j < |fs|
    ensures fs[j].path in After(env, files, n, fs[..j]).files <==> fs[j].path in files
    ensures fs[j].path in files ==> After(env, files, n, fs[..j]).files[fs[j].path] == files[fs[j].path]
  {
    var pre := fs[..j];
    assert forall i :: 0 <= i < |pre| ==> pre[i].path != fs[j].path by {
      assert forall i :: 0 <= i < |pre| ==> pre[i] == fs[i];
    }
  }

  /** The closed form one frame further on: one more message, that frame's
      bytes, and that frame's effects. */
  lemma AfterSnocLists(env: Env, files: map<Path, seq<byte>>, n: nat, fs: seq<Frame>, j: nat)
    requires j < |fs|
    ensures var p, q, f := After(env, files, n, fs[..j]), After(env, files, n, fs[..j + 1]), fs[j];
      && q.events == p.events + [Frame(f.id, f.path)]
      && q.stdin == p.stdin + Content(files, f)
      && q.trace == p.trace + FrameTrace(env, f)
  {
    assert fs[..j + 1][..j] == fs[..j];
  }

  /** The closed form one frame further on: that frame's file is gone unless
      its removal fails. */
  lemma AfterSnocFiles(env: Env, files: map<Path, seq<byte>>, n: nat, fs: seq<Frame>, j: nat)
    requires j < |fs|
    ensures var p, q, f := After(env, files, n, fs[..j]), After(env, files, n, fs[..j + 1]), fs[j];
      q.files == if f.path in env.world.removeErrors then p.files else p.files - {f.path}
  {
    var pre, next, f := fs[..j], fs[..j + 1], fs[j];
    assert next[..j] == pre;
    var removed := RemovedPaths(env, next);
    assert removed == if f.path in env.world.removeErrors then RemovedPaths(env, pre)
                      else RemovedPaths(env, pre) + {f.path};
  }


  /** One frame from a closed-form state: it goes through to the next closed
      form when `FrameOk`; with the receiver gone only the refused announcement
      is traced and the loop goes on; otherwise the frame's file fails and the
      run ends. */
  lemma FrameStepAfter(env: Env, files: map<Path, seq<byte>>, n: nat, fs: seq<Frame>, j: nat)
    requires DistinctPaths(fs) && j < |fs|
    ensures FrameOk(env, files, j, fs[j]) ==>
      FrameStep(env, After(env, files, n, fs[..j]), fs[j]) == Continue(After(env, files, n, fs[..j + 1]))
    ensures !Delivers(env, j + 1) ==>
      var p := After(env, files, n, fs[..j]);
      FrameStep(env, p, fs[j]) == Continue(p.(trace := p.trace + [Sent(Frame(fs[j].id, fs[j].path), false)]))
    ensures Delivers(env, j + 1) && !FileOk(env, files, fs[j]) ==>
      FrameStep(env, After(env, files, n, fs[..j]), fs[j]).Exit?
  {
    AfterKeepsLaterFiles(env, files, n, fs, j);
    var p := After(env, files, n, fs[..j]);
    assert |p.events| == j + 1;
    if FrameOk(env, files, j, fs[j]) {
      AfterSnocLists(env, files, n, fs, j);
      AfterSnocFiles(env, files, n, fs, j);
    }
  }

  /** The loop through states that each frame step continues from and to. */
  lemma {:induction false} PumpChain(env: Env, fs: seq<Frame>, states: seq<Pipe>)
    requires |states| == |fs| + 1
    requires forall j :: 0 <= j < |fs| ==> FrameStep(env, states[j], fs[j]) == Continue(states[j + 1])
    ensures Pump(env, fs, states[0]) == Continue(states[|fs|])
    decreases |fs|
  {
    if fs != [] {
      var init := fs[..|fs| - 1];
      var st := states[..|fs|];
      assert forall j :: 0 <= j < |init| ==> init[j] == fs[j];
      assert forall j :: 0 <= j < |st| ==> st[j] == states[j];
      PumpChain(env, init, st);
    }
  }

  /** The loop from the state after `Start`, when every frame goes through:
      it ends in the closed form of all of them. */
  lemma PumpAllOk(env: Env, files: map<Path, seq<byte>>, n: nat, fs: seq<Frame>)
    requires DistinctPaths(fs) && AllOk(env, files, fs)
    ensures Pump(env, fs, After(env, files, n, [])) == Continue(After(env, files, n, fs))
  {
    var states := seq(|fs| + 1, j requires 0 <= j <= |fs| => After(env, files, n, fs[..j]));
    forall j | 0 <= j < |fs| ensures FrameStep(env, states[j], fs[j]) == Continue(states[j + 1]) {
      FrameStepAfter(env, files, n, fs, j);
    }
    PumpChain(env, fs, states);
    assert fs[..0] == [] && fs[..|fs|] == fs;
  }

  /** Once the receiver is gone the loop only offers the remaining
      announcements: nothing more is delivered, opened, copied or removed. */
  lemma {:induction false} PumpRefused(env: Env, fs: seq<Frame>, p: Pipe)
    requires !Delivers(env, |p.events|)
    ensures Pump(env, fs, p) == Continue(p.(trace := p.trace + Refusals(fs)))
    decreases |fs|
  {
    if fs != [] {
      PumpRefused(env, fs[..|fs| - 1], p);
    }
  }

  /** The loop over two lists in a row is the loop over the first, then, if it
      did not exit, the loop over the second. */
  lemma {:induction false} PumpAppend(env: Env, a: seq<Frame>, b: seq<Frame>, p: Pipe)
    ensures Pump(env, a + b, p) == match Pump(env, a, p)
      case Exit(q, r) => Exit(q, r)
      case Continue(q) => Pump(env, b, q)
    decreases |b|
  {
    if b == [] {
      assert a + b == a;
    } else {
      var init := b[..|b| - 1];
      assert (a + b)[..|a + b| - 1] == a + init;
      PumpAppend(env, a, init, p);
    }
  }

  /** A loop that got through `a` and then found the receiver gone only offers
      the announcements of `b`. */
  lemma PumpThenRefused(env: Env, a: seq<Frame>, b: seq<Frame>, p: Pipe, q: Pipe)
    requires Pump(env, a, p) == Continue(q) && !Delivers(env, |q.events|)
    ensures Pump(env, a + b, p) == Continue(q.(trace := q.trace + Refusals(b)))
  {
    PumpRefused(env, b, q);
    PumpAppend(env, a, b, p);
  }

  /** When the receiver is gone by frame `j`'s announcement, the loop ends in
      the closed form of the first `j` frames plus the refused announcements of
      the rest. */
  lemma PumpGoneAt(env: Env, files: map<Path, seq<byte>>, n: nat, fs: seq<Frame>, j: nat)
    requires DistinctPaths(fs) && GoneAt(env, files, fs, j)
    ensures var q := After(env, files, n, fs[..j]);
      Pump(env, fs, After(env, files, n, [])) == Continue(q.(trace := q.trace + Refusals(fs[j..])))
  {
    PrefixDistinct(fs, j);
    PumpAllOk(env, files, n, fs[..j]);
    AfterEventCount(env, files, n, fs[..j]);
    PumpPrefixThenRefused(env, fs, j, After(env, files, n, []), After(env, files, n, fs[..j]));
  }

  /** The loop that got through the first `j` frames and then found the
      receiver gone. */
  lemma PumpPrefixThenRefused(env: Env, fs: seq<Frame>, j: nat, p: Pipe, q: Pipe)
    requires j <= |fs| && Pump(env, fs[..j], p) == Continue(q) && !Delivers(env, |q.events|)
    ensures Pump(env, fs, p) == Continue(q.(trace := q.trace + Refusals(fs[j..])))
  {
    PumpThenRefused(env, fs[..j], fs[j..], p, q);
    assert fs[..j] + fs[j..] == fs;
  }

  lemma PrefixDistinct(fs: seq<Frame>, j: nat)
    requires DistinctPaths(fs) && j <= |fs|
    ensures DistinctPaths(fs[..j])
  {
    assert forall k :: 0 <= k < j ==> fs[..j][k] == fs[k];
  }

  lemma AfterEventCount(env: Env, files: map<Path, seq<byte>>, n: nat, fs: seq<Frame>)
    ensures |After(env, files, n, fs).events| == |fs| + 1
  {
  }

  /** The loop stops exactly where the first bad frame stops it. */
  lemma PumpFirstBad(env: Env, files: map<Path, seq<byte>>, n: nat, fs: seq<Frame>, j: nat)
    requires DistinctPaths(fs) && FirstBad(env, files, fs, j)
    ensures Pump(env, fs, After(env, files, n, [])) == FrameStep(env, After(env, files, n, fs[..j]), fs[j])
    ensures Pump(env, fs, After(env, files, n, [])).Exit?
  {
    var p0 := After(env, files, n, []);
    var pre := fs[..j];
    assert DistinctPaths(pre) by {
      assert forall k :: 0 <= k < |pre| ==> pre[k] == fs[k];
    }
    PumpAllOk(env, files, n, pre);
    PumpStep(env, fs, j, p0, After(env, files, n, pre));
    FrameStepAfter(env, files, n, fs, j);
    ExitAbsorbs(env, fs, j + 1, p0);
  }

  /** The loop from the state after `Start`: if every frame goes through it
      ends in the closed form of all of them; if the receiver goes away first
      it ends in the closed form of the frames before plus refused
      announcements; otherwise it ends exactly where the first bad frame stops
      it. */
  lemma PumpSpec(env: Env, files: map<Path, seq<byte>>, n: nat, fs: seq<Frame>)
    requires DistinctPaths(fs)
    ensures AllOk(env, files, fs) ==>
      Pump(env, fs, After(env, files, n, [])) == Continue(After(env, files, n, fs))
    ensures forall j: nat :: GoneAt(env, files, fs, j) ==>
      var q := After(env, files, n, fs[..j]);
      Pump(env, fs, After(env, files, n, [])) == Continue(q.(trace := q.trace + Refusals(fs[j..])))
    ensures forall j: nat :: FirstBad(env, files, fs, j) ==>
      Pump(env, fs, After(env, files, n, [])) == FrameStep(env, After(env, files, n, fs[..j]), fs[j])
      && Pump(env, fs, After(env, files, n, [])).Exit?
  {
    if AllOk(env, files, fs) {
      PumpAllOk(env, files, n, fs);
    }
    forall j: nat | GoneAt(env, files, fs, j)
      ensures var q := After(env, files, n, fs[..j]);
        Pump(env, fs, After(env, files, n, [])) == Continue(q.(trace := q.trace + Refusals(fs[j..])))
    {
      PumpGoneAt(env, files, n, fs, j);
    }
    forall j: nat | FirstBad(env, files, fs, j)
      ensures Pump(env, fs, After(env, files, n, [])) == FrameStep(env, After(env, files, n, fs[..j]), fs[j])
      ensures Pump(env, fs, After(env, files, n, [])).Exit?
    {
      PumpFirstBad(env, files, n, fs, j);
    }
  }

  /** What one frame does at the first check it fails, in source order. A
      refused announcement only ends that frame's body: the loop goes on. */
  lemma FrameStepFails(env: Env, p: Pipe, f: Frame)
    ensures var s := FrameStep(env, p, f); var m := Frame(f.id, f.path);
      && (!Delivers(env, |p.events|) ==> s == Continue(p.(trace := p.trace + [Sent(m, false)])))
      && (Delivers(env, |p.events|) && (f.path in env.world.openErrors || f.path !in p.files) ==>
            s.Exit? && s.result.Err? && s.result.chain[0] == OPEN_FAILED_MSG
            && s.p == p.(events := p.events + [m], trace := p.trace + [Sent(m, true), Opened(f.path, false)]))
      && (Delivers(env, |p.events|) && f.path !in env.world.openErrors && f.path in p.files
          && f.path in env.world.copyErrors ==>
            s.Exit? && s.result == Err([STREAM_FAILED_MSG, env.world.copyErrors[f.path].1])
            && p.stdin <= s.p.stdin <= p.stdin + p.files[f.path]
            && s.p.events == p.events + [m] && s.p.files == p.files
            && s.p.trace == p.trace + [Sent(m, true), Opened(f.path, true), Copied(f.path, false)])
      && (Delivers(env, |p.events|) && f.path !in env.world.openErrors && f.path in p.files
          && f.path !in env.world.copyErrors && f.path in env.world.removeErrors && !env.deleteQuirk ==>
            s.Exit? && s.result == Err([REMOVE_FAILED_MSG, env.world.removeErrors[f.path]])
            && s.p == p.(events := p.events + [m], stdin := p.stdin + p.files[f.path],
                         trace := p.trace + [Sent(m, true), Opened(f.path, true), Copied(f.path, true), Removed(f.path, false)]))
  {
    var s := FrameStep(env, p, f);
    if Delivers(env, |p.events|) && f.path !in env.world.openErrors && f.path in p.files
       && f.path in env.world.copyErrors {
      var content := p.files[f.path];
      var k := Min(env.world.copyErrors[f.path].0, |content|);
      assert s.p.stdin == p.stdin + content[..k];
      assert content[..k] <= content;
    }
  }

  /** A run that never got its stdin fails before anything is sent. */
  lemma RunNoStdin(env: Env, frames: seq<Frame>, files: map<Path, seq<byte>>)
    requires !env.hasStdin
    ensures RunSpec(env, frames, files) == (Pipe([], [], files, []), Err([NO_STDIN_MSG]))
  {
  }

  /** The full protocol: `Start` with the frame count, one `Frame` per frame in
      list order, `Stop` with the time taken. */
  function Protocol(frames: seq<Frame>, elapsed: nat): seq<Message>
  {
    [Start(|frames|)] + FrameMessages(frames) + [Stop(elapsed)]
  }

  /** A refused `Start` ends the run with `Ok` before any frame is touched. */
  lemma RunRefusedStart(env: Env, frames: seq<Frame>, files: map<Path, seq<byte>>)
    requires env.hasStdin && !Delivers(env, 0)
    ensures RunSpec(env, frames, files) == (Pipe([], [], files, [Sent(Start(|frames|), false)]), Ok(()))
  {
    assert Prelude(env, frames, files) == Exit(Pipe([], [], files, [Sent(Start(|frames|), false)]), Ok(()));
  }

  /** Every frame goes through: the run ends after `Stop` was offered. */
  lemma RunAllOk(env: Env, frames: seq<Frame>, files: map<Path, seq<byte>>)
    requires DistinctPaths(frames)
    requires env.hasStdin && Delivers(env, 0) && AllOk(env, files, frames)
    ensures var (p, r) := RunSpec(env, frames, files); var n := |frames|;
      && r == Ok(())
      && p.events == [Start(n)] + FrameMessages(frames)
                     + (if Delivers(env, n + 1) then [Stop(env.world.elapsed)] else [])
      && p.stdin == Concat(files, frames)
      && p.files == files - RemovedPaths(env, frames)
      && p.trace == After(env, files, n, frames).trace
                    + [ClosedStdin, WaitedChild, Sent(Stop(env.world.elapsed), Delivers(env, n + 1))]
  {
    var n := |frames|;
    assert Prelude(env, frames, files) == Continue(After(env, files, n, []));
    PumpAllOk(env, files, n, frames);
  }

  /** The receiver goes away before frame `j` is announced: the remaining
      announcements are refused with no file touched, then stdin is closed, the
      child is awaited, `Stop` is refused, and the run returns `Ok`. */
  lemma RunGoneAt(env: Env, frames: seq<Frame>, files: map<Path, seq<byte>>, j: nat)
    requires DistinctPaths(frames)
    requires env.hasStdin && Delivers(env, 0) && GoneAt(env, files, frames, j)
    ensures var (p, r) := RunSpec(env, frames, files); var n := |frames|;
      && r == Ok(())
      && p.events == [Start(n)] + FrameMessages(frames[..j])
      && p.stdin == Concat(files, frames[..j])
      && p.files == files - RemovedPaths(env, frames[..j])
      && p.trace == After(env, files, n, frames[..j]).trace + Refusals(frames[j..])
                    + [ClosedStdin, WaitedChild, Sent(Stop(env.world.elapsed), false)]
  {
    var n := |frames|;
    assert Prelude(env, frames, files) == Continue(After(env, files, n, []));
    PumpGoneAt(env, files, n, frames, j);
    assert |After(env, files, n, frames[..j]).events| == j + 1;
  }

  /** One frame, and the receiver gone right after `Start`: the announcement is
      refused, the file stays, and the runner still closes stdin, waits for the
      child and offers `Stop` before it returns `Ok`. */
  lemma ReceiverGoneExample(t: nat)
    ensures var env := Env(true, false, World(Some(1), map[], map[], map[], t));
      var f := FrameIndex.Frame(1, "a");
      RunSpec(env, [f], map["a" := [7]])
      == (Pipe([Start(1)], [], map["a" := [7]],
               [Sent(Start(1), true), Sent(Frame(1, "a"), false), ClosedStdin, WaitedChild, Sent(Stop(t), false)]),
          Ok(()))
  {
    var env := Env(true, false, World(Some(1), map[], map[], map[], t));
    var f := FrameIndex.Frame(1, "a");
    var p0 := Pipe([Start(1)], [], map["a" := [7]], [Sent(Start(1), true)]);
    assert Prelude(env, [f], map["a" := [7]]) == Continue(p0);
    var q := p0.(trace := p0.trace + [Sent(Frame(1, "a"), false)]);
    assert FrameStep(env, p0, f) == Continue(q);
    assert [f][..0] == [];
    assert Pump(env, [f], p0) == Continue(q);
    var waited := q.(trace := q.trace + [ClosedStdin, WaitedChild]);
    assert SendStep(env, waited, Stop(t)) == Exit(waited.(trace := waited.trace + [Sent(Stop(t), false)]), Ok(()));
    assert RunSpec(env, [f], map["a" := [7]]) == (waited.(trace := waited.trace + [Sent(Stop(t), false)]), Ok(()));
    assert waited.trace + [Sent(Stop(t), false)]
        == [Sent(Start(1), true), Sent(Frame(1, "a"), false), ClosedStdin, WaitedChild, Sent(Stop(t), false)];
  }

  /** The run ends where the first bad frame's step ends it. */
  lemma RunFirstBad(env: Env, frames: seq<Frame>, files: map<Path, seq<byte>>, j: nat)
    requires DistinctPaths(frames)
    requires env.hasStdin && Delivers(env, 0) && FirstBad(env, files, frames, j)
    ensures var s := FrameStep(env, After(env, files, |frames|, frames[..j]), frames[j]);
      s.Exit? && RunSpec(env, frames, files) == (s.p, s.result)
  {
    var n := |frames|;
    assert Prelude(env, frames, files) == Continue(After(env, files, n, []));
    PumpFirstBad(env, files, n, frames, j);
  }

  /** The run as a whole, by how far it gets. */
  lemma RunSpecCases(env: Env, frames: seq<Frame>, files: map<Path, seq<byte>>)
    requires DistinctPaths(frames)
    ensures var (p, r) := RunSpec(env, frames, files); var n := |frames|;
      && (env.hasStdin && !Delivers(env, 0) ==>
            p == Pipe([], [], files, [Sent(Start(n), false)]) && r == Ok(()))
      && (env.hasStdin && Delivers(env, 0) && AllOk(env, files, frames) ==>
            && r == Ok(())
            && p.events == [Start(n)] + FrameMessages(frames)
                           + (if Delivers(env, n + 1) then [Stop(env.world.elapsed)] else [])
            && p.stdin == Concat(files, frames)
            && p.files == files - RemovedPaths(env, frames)
            && p.trace == After(env, files, n, frames).trace
                          + [ClosedStdin, WaitedChild, Sent(Stop(env.world.elapsed), Delivers(env, n + 1))])
      && (forall j: nat :: env.hasStdin && Delivers(env, 0) && GoneAt(env, files, frames, j) ==>
            && r == Ok(())
            && p.events == [Start(n)] + FrameMessages(frames[..j])
            && p.stdin == Concat(files, frames[..j])
            && p.files == files - RemovedPaths(env, frames[..j])
            && p.trace == After(env, files, n, frames[..j]).trace + Refusals(frames[j..])
                          + [ClosedStdin, WaitedChild, Sent(Stop(env.world.elapsed), false)])
      && (forall j: nat :: env.hasStdin && Delivers(env, 0) && FirstBad(env, files, frames, j) ==>
            var s := FrameStep(env, After(env, files, n, frames[..j]), frames[j]);
            s.Exit? && p == s.p && r == s.result)
  {
    if env.hasStdin && !Delivers(env, 0) {
      RunRefusedStart(env, frames, files);
    }
    if env.hasStdin && Delivers(env, 0) && AllOk(env, files, frames) {
      RunAllOk(env, frames, files);
    }
    forall j: nat | env.hasStdin && Delivers(env, 0) && GoneAt(env, files, frames, j)
      ensures var (p, r) := RunSpec(env, frames, files); var n := |frames|;
        && r == Ok(())
        && p.events == [Start(n)] + FrameMessages(frames[..j])
        && p.stdin == Concat(files, frames[..j])
        && p.files == files - RemovedPaths(env, frames[..j])
        && p.trace == After(env, files, n, frames[..j]).trace + Refusals(frames[j..])
                      + [ClosedStdin, WaitedChild, Sent(Stop(env.world.elapsed), false)]
    {
      RunGoneAt(env, frames, files, j);
    }
    forall j: nat | env.hasStdin && Delivers(env, 0) && FirstBad(env, files, frames, j)
      ensures var s := FrameStep(env, After(env, files, |frames|, frames[..j]), frames[j]);
        s.Exit? && RunSpec(env, frames, files) == (s.p, s.result)
    {
      RunFirstBad(env, frames, files, j);
    }
  }

  /** A run with stdin in which every send finds the receiver and every frame
      goes through: the events are the full protocol, stdin holds every frame's
      bytes in order, and the trace ends by closing stdin, waiting, and sending
      `Stop`. */
  lemma CompleteRun(env: Env, frames: seq<Frame>, files: map<Path, seq<byte>>)
    requires DistinctPaths(frames)
    requires env.hasStdin && Delivers(env, 0) && AllOk(env, files, frames) && Delivers(env, |frames| + 1)
    ensures var (p, r) := RunSpec(env, frames, files);
      && r == Ok(())
      && p.events == Protocol(frames, env.world.elapsed)
      && p.stdin == Concat(files, frames)
      && |p.trace| >= 3
      && p.trace[|p.trace| - 3..] == [ClosedStdin, WaitedChild, Sent(Stop(env.world.elapsed), true)]
      && (!env.deleteQuirk ==> forall f :: f in frames ==> f.path !in p.files)
  {
    RunAllOk(env, frames, files);
    var (p, r) := RunSpec(env, frames, files);
    var n := |frames|;
    if !env.deleteQuirk {
      forall f | f in frames ensures f.path !in p.files {
        var i :| 0 <= i < n && frames[i] == f;
        assert FrameOk(env, files, i, frames[i]);
      }
    }
  }

  /** `Stop` is delivered exactly when the whole run went through. */
  lemma StopOnlyIfComplete(env: Env, frames: seq<Frame>, files: map<Path, seq<byte>>)
    requires DistinctPaths(frames)
    ensures Stop(env.world.elapsed) in RunSpec(env, frames, files).0.events
      <==> env.hasStdin && AllOk(env, files, frames) && Delivers(env, |frames| + 1)
  {
    var p := RunSpec(env, frames, files).0;
    var n := |frames|;
    var stop := Stop(env.world.elapsed);
    if !env.hasStdin {
      RunNoStdin(env, frames, files);
    } else if !Delivers(env, 0) {
      RunRefusedStart(env, frames, files);
    } else if AllOk(env, files, frames) {
      if Delivers(env, n + 1) {
        CompleteRun(env, frames, files);
        assert p.events[n + 1] == stop;
      } else {
        RunAllOk(env, frames, files);
        assert forall i :: 0 <= i < n ==> FrameMessages(frames)[i] != stop;
        assert stop !in p.events;
      }
    } else {
      var j := FirstBadIndex(env, files, frames);
      if GoneAt(env, files, frames, j) {
        EventsGoneAt(env, frames, files, j);
      } else {
        EventsFirstBad(env, frames, files, j);
      }
    }
  }

  /** `Stop` is delivered exactly when the whole run went through, and then the
      run is complete in the sense of `CompleteRun`. */
  lemma StopMeansComplete(env: Env, frames: seq<Frame>, files: map<Path, seq<byte>>)
    requires DistinctPaths(frames)
    ensures var (p, r) := RunSpec(env, frames, files);
      Stop(env.world.elapsed) in p.events
      <==> env.hasStdin && AllOk(env, files, frames) && Delivers(env, |frames| + 1)
    ensures var (p, r) := RunSpec(env, frames, files);
      Stop(env.world.elapsed) in p.events ==>
        && r == Ok(())
        && p.events == Protocol(frames, env.world.elapsed)
        && p.stdin == Concat(files, frames)
        && |p.trace| >= 3
        && p.trace[|p.trace| - 3..] == [ClosedStdin, WaitedChild, Sent(Stop(env.world.elapsed), true)]
        && (!env.deleteQuirk ==> forall f :: f in frames ==> f.path !in p.files)
  {
    StopOnlyIfComplete(env, frames, files);
    if env.hasStdin && AllOk(env, files, frames) && Delivers(env, |frames| + 1) {
      CompleteRun(env, frames, files);
    }
  }

  /** The events after `Start` and `j` frames are the protocol's first `j + 1`,
      and one more frame message gives its first `j + 2`. */
  lemma ProtocolPrefix(frames: seq<Frame>, t: nat, j: nat)
    requires j <= |frames|
    ensures [Start(|frames|)] + FrameMessages(frames[..j]) == Protocol(frames, t)[..j + 1]
    ensures j < |frames| ==>
      [Start(|frames|)] + FrameMessages(frames[..j]) + [Frame(frames[j].id, frames[j].path)]
      == Protocol(frames, t)[..j + 2]
  {
    var full := Protocol(frames, t);
    var a := [Start(|frames|)] + FrameMessages(frames[..j]);
    assert forall i :: 1 <= i < |a| ==> a[i] == full[i];
    if j < |frames| {
      var b := a + [Frame(frames[j].id, frames[j].path)];
      assert forall i :: 1 <= i < |b| ==> b[i] == full[i];
    }
  }

  /** A frame step delivers at most that frame's message. */
  lemma FrameStepEvents(env: Env, p: Pipe, f: Frame)
    ensures var e := FrameStep(env, p, f).p.events;
      e == p.events || e == p.events + [Frame(f.id, f.path)]
  {
  }

  /** Whatever happens, the events delivered are a prefix of the protocol. */
  lemma EventsFollowProtocol(env: Env, frames: seq<Frame>, files: map<Path, seq<byte>>)
    requires DistinctPaths(frames)
    ensures RunSpec(env, frames, files).0.events <= Protocol(frames, env.world.elapsed)
  {
    var n := |frames|;
    if !env.hasStdin {
      RunNoStdin(env, frames, files);
    } else if !Delivers(env, 0) {
      RunRefusedStart(env, frames, files);
    } else {
      if AllOk(env, files, frames) {
        RunAllOk(env, frames, files);
        ProtocolPrefix(frames, env.world.elapsed, n);
        assert frames[..n] == frames;
      } else {
        var j := FirstBadIndex(env, files, frames);
        if GoneAt(env, files, frames, j) {
          EventsGoneAt(env, frames, files, j);
        } else {
          EventsFirstBad(env, frames, files, j);
        }
      }
    }
  }

  /** The events of a run whose receiver went away at frame `j`: `Start` and
      the first `j` frame messages, without `Stop`. */
  lemma EventsGoneAt(env: Env, frames: seq<Frame>, files: map<Path, seq<byte>>, j: nat)
    requires DistinctPaths(frames)
    requires env.hasStdin && Delivers(env, 0) && GoneAt(env, files, frames, j)
    ensures var evs := RunSpec(env, frames, files).0.events;
      evs <= Protocol(frames, env.world.elapsed) && Stop(env.world.elapsed) !in evs
  {
    RunGoneAt(env, frames, files, j);
    ProtocolPrefix(frames, env.world.elapsed, j);
    var ms := FrameMessages(frames[..j]);
    assert forall i :: 0 <= i < j ==> ms[i] != Stop(env.world.elapsed);
  }

  /** The events of a run that ends at a failing file `j`: `Start`, the first `j`
      frame messages and at most frame `j`'s, without `Stop`. */
  lemma EventsFirstBad(env: Env, frames: seq<Frame>, files: map<Path, seq<byte>>, j: nat)
    requires DistinctPaths(frames)
    requires env.hasStdin && Delivers(env, 0) && FirstBad(env, files, frames, j)
    ensures var evs := RunSpec(env, frames, files).0.events;
      evs <= Protocol(frames, env.world.elapsed) && Stop(env.world.elapsed) !in evs
  {
    RunFirstBad(env, frames, files, j);
    var pre := After(env, files, |frames|, frames[..j]);
    FrameStepEvents(env, pre, frames[j]);
    ProtocolPrefix(frames, env.world.elapsed, j);
    var ms := FrameMessages(frames[..j]);
    assert forall i :: 0 <= i < j ==> ms[i] != Stop(env.world.elapsed);
  }

  /** How a run ends: an error carries one of the four error messages as its
      outermost cause and is the last effect (never a tolerated removal
      failure); `Ok` comes from a refused `Start` or `Stop`, or from the
      delivered `Stop`. */
  lemma RunEnds(env: Env, frames: seq<Frame>, files: map<Path, seq<byte>>)
    requires DistinctPaths(frames)
    ensures var (p, r) := RunSpec(env, frames, files);
      && (r.Err? && !env.hasStdin ==> r.chain == [NO_STDIN_MSG] && p.trace == [])
      && (r.Err? && env.hasStdin ==>
            && |r.chain| == 2 && p.trace != []
            && r.chain[0] in {OPEN_FAILED_MSG, STREAM_FAILED_MSG, REMOVE_FAILED_MSG}
            && var last := p.trace[|p.trace| - 1];
               (r.chain[0] == OPEN_FAILED_MSG ==> last.Opened? && !last.ok)
               && (r.chain[0] == STREAM_FAILED_MSG ==> last.Copied? && !last.ok)
               && (r.chain[0] == REMOVE_FAILED_MSG ==> last.Removed? && !last.ok && !env.deleteQuirk))
      && (r.Ok? ==> (env.hasStdin && p.trace != []
            && var last := p.trace[|p.trace| - 1];
               last.Sent? && (last.m == Stop(env.world.elapsed) || (last.m == Start(|frames|) && !last.delivered))))
  {
    var n := |frames|;
    if !env.hasStdin {
      RunNoStdin(env, frames, files);
    } else if !Delivers(env, 0) {
      RunRefusedStart(env, frames, files);
    } else if AllOk(env, files, frames) {
      RunAllOk(env, frames, files);
    } else {
      var j := FirstBadIndex(env, files, frames);
      if GoneAt(env, files, frames, j) {
        RunGoneAt(env, frames, files, j);
      } else {
        RunFirstBad(env, frames, files, j);
        FrameStepFails(env, After(env, files, n, frames[..j]), frames[j]);
      }
    }
  }

  /** With `delete_quirk` a removal failure never ends the run. */
  lemma QuirkToleratesRemoval(env: Env, frames: seq<Frame>, files: map<Path, seq<byte>>)
    requires DistinctPaths(frames) && env.deleteQuirk
    ensures var r := RunSpec(env, frames, files).1;
      r.Err? ==> |r.chain| > 0 && r.chain[0] != REMOVE_FAILED_MSG
  {
    RunEnds(env, frames, files);
  }

  /** When not every frame goes through, some frame is the first that does
      not: either the receiver is gone by its announcement or its file fails. */
  lemma FirstBadIndex(env: Env, files: map<Path, seq<byte>>, fs: seq<Frame>) returns (j: nat)
    requires !AllOk(env, files, fs)
    ensures GoneAt(env, files, fs, j) || FirstBad(env, files, fs, j)
  {
    j := 0;
    while FrameOk(env, files, j, fs[j])
      invariant j < |fs|
      invariant AllOk(env, files, fs[..j])
      invariant exists k :: j <= k < |fs| && !FrameOk(env, files, k, fs[k])
      decreases |fs| - j
    {
      assert forall k :: 0 <= k < j ==> fs[..j + 1][k] == fs[..j][k];
      j := j + 1;
    }
  }

  /** One more frame of the loop, from where the first `i` left it. */
  lemma PumpStep(env: Env, fs: seq<Frame>, i: nat, p: Pipe, q: Pipe)
    requires i < |fs| && Pump(env, fs[..i], p) == Continue(q)
    ensures Pump(env, fs[..i + 1], p) == FrameStep(env, q, fs[i])
  {
    assert fs[..i + 1][..i] == fs[..i];
  }

  /** Once the loop has exited, later frames change nothing. */
  lemma {:induction false} ExitAbsorbs(env: Env, fs: seq<Frame>, k: nat, p: Pipe)
    requires k <= |fs| && Pump(env, fs[..k], p).Exit?
    ensures Pump(env, fs, p) == Pump(env, fs[..k], p)
    decreases |fs|
  {
    if k < |fs| {
      var init := fs[..|fs| - 1];
      assert init[..k] == fs[..k];
      ExitAbsorbs(env, init, k, p);
    } else {
      assert fs[..k] == fs;
    }
  }

  // ---------------------------------------------------------------------
  // Spawning, and the task as an object.
  // ---------------------------------------------------------------------

  datatype Stdio = Inherit | Piped | Null

  /** A prepared child command: program, arguments and its three streams. */
  datatype Command = Command(program: string, args: seq<string>, stdin: Stdio, stdout: Stdio, stderr: Stdio)

  /** The wiring `start` applies: a pipe for stdin, stdout and stderr discarded. */
  function Wire(c: Command): (w: Command)
    ensures w.stdin == Piped && w.stdout == Null && w.stderr == Null
    ensures w.program == c.program && w.args == c.args
  {
    c.(stdin := Piped, stdout := Null, stderr := Null)
  }

  /** The spawned task: the events it delivered, the bytes it wrote to the
      child, the file store it reads and deletes from, and its effect trace. */
  class Runner {
    const env: Env
    const frames: seq<Frame>
    var events: seq<Message>
    var stdin: seq<byte>
    var files: map<Path, seq<byte>>
    var trace: seq<Effect>

    /** `Runner::start`: wire and spawn the child; a spawn failure is returned
        before any runner exists. The spawned child always has a stdin, since it
        was wired as a pipe. `spawnError` is the operating system's answer. */
    static method Start(command: Command, spawnError: Option<string>, frames: seq<Frame>,
                 deleteQuirk: bool, world: World, files: map<Path, seq<byte>>)
      returns (r: Result<Runner>)
      ensures r.Err? <==> spawnError.Some?
      ensures r.Err? ==> r.chain == [SPAWN_FAILED_MSG, spawnError.value]
      ensures r.Ok? ==> (fresh(r.value) && r.value.env == Env(true, deleteQuirk, world)
        && r.value.frames == frames && r.value.Observed() == Pipe([], [], files, []))
    {
      var wired := Wire(command);
      if spawnError.Some? {
        return Err([SPAWN_FAILED_MSG, spawnError.value]);
      }
      var runner := new Runner(wired.stdin == Piped, frames, deleteQuirk, world, files);
      return Ok(runner);
    }

    function Observed(): Pipe
      reads this
    {
      Pipe(events, stdin, files, trace)
    }

    constructor (hasStdin: bool, frames: seq<Frame>, deleteQuirk: bool, world: World, files: map<Path, seq<byte>>)
      ensures env == Env(hasStdin, deleteQuirk, world) && this.frames == frames
      ensures Observed() == Pipe([], [], files, [])
    {
      env := Env(hasStdin, deleteQuirk, world);
      this.frames := frames;
      events, stdin, this.files, trace := [], [], files, [];
    }

    /** One send, checked by `snd_chk!`. */
    method Send(m: Message) returns (delivered: bool)
      modifies this
      ensures var s := SendStep(env, old(Observed()), m);
        delivered == s.Continue? && Observed() == s.p
    {
      if Delivers(env, |events|) {
        events := events + [m];
        trace := trace + [Sent(m, true)];
        delivered := true;
      } else {
        trace := trace + [Sent(m, false)];
        delivered := false;
      }
    }

    /** The loop body for one frame; `Some` carries the error to return with.
        A refused announcement ends only this body, so the loop goes on. */
    method StreamFrame(f: Frame) returns (stop: Option<Result<()>>)
      modifies this
      ensures var s := FrameStep(env, old(Observed()), f);
        Observed() == s.p && (stop.None? <==> s.Continue?) && (stop.Some? ==> stop.value == s.result)
    {
      var delivered := Send(Frame(f.id, f.path));
      if !delivered {
        return None;
      }
      if f.path in env.world.openErrors || f.path !in files {
        trace := trace + [Opened(f.path, false)];
        var why := if f.path in env.world.openErrors then env.world.openErrors[f.path] else NOT_FOUND_MSG;
        return Some(Err([OPEN_FAILED_MSG, why]));
      }
      var content := files[f.path];
      trace := trace + [Opened(f.path, true)];
      if f.path in env.world.copyErrors {
        stdin := stdin + content[..Min(env.world.copyErrors[f.path].0, |content|)];
        trace := trace + [Copied(f.path, false)];
        return Some(Err([STREAM_FAILED_MSG, env.world.copyErrors[f.path].1]));
      }
      stdin := stdin + content;
      trace := trace + [Copied(f.path, true)];
      if f.path in env.world.removeErrors {
        trace := trace + [Removed(f.path, false)];
        if !env.deleteQuirk {
          return Some(Err([REMOVE_FAILED_MSG, env.world.removeErrors[f.path]]));
        }
      } else {
        files := files - {f.path};
        trace := trace + [Removed(f.path, true)];
      }
      return None;
    }

    /** The `for` loop over the frames, in list order; `Some` carries the
        result the run returns with. */
    method PumpFrames() returns (stop: Option<Result<()>>)
      modifies this
      ensures var s := Pump(env, frames, old(Observed()));
        Observed() == s.p && (stop.None? <==> s.Continue?) && (stop.Some? ==> stop.value == s.result)
    {
      ghost var started := Observed();
      var i := 0;
      while i < |frames|
        invariant 0 <= i <= |frames|
        invariant Pump(env, frames[..i], started) == Continue(Observed())
      {
        ghost var before := Observed();
        stop := StreamFrame(frames[i]);
        PumpStep(env, frames, i, started, before);
        if stop.Some? {
          ExitAbsorbs(env, frames, i + 1, started);
          return;
        }
        i := i + 1;
      }
      assert frames[..|frames|] == frames;
      return None;
    }

    /** `Runner::run`, on a runner fresh from `Start` (it consumes itself, so it
        runs once). */
    method Run() returns (r: Result<()>)
      requires events == [] && stdin == [] && trace == []
      modifies this
      ensures (Observed(), r) == RunSpec(env, frames, old(files))
    {
      if !env.hasStdin {
        return Err([NO_STDIN_MSG]);
      }
      var delivered := Send(Message.Start(|frames|));
      if !delivered {
        return Ok(());
      }
      ghost var started := Observed();
      assert Prelude(env, frames, old(files)) == Continue(started);
      var stop := PumpFrames();
      if stop.Some? {
        return stop.value;
      }
      ghost var pumped := Observed();
      trace := trace + [ClosedStdin];
      trace := trace + [WaitedChild];
      assert Observed() == pumped.(trace := pumped.trace + [ClosedStdin, WaitedChild]);
      delivered := Send(Stop(env.world.elapsed));
      return Ok(());
    }
  }
}
