/** The progress watchdog: a single-slot mailbox sampled once per loop iteration,
    and the `_progress.json` snapshots it writes. */
module Quirks {
  import opened Common

  datatype QuirksMessage =
    | Start(frames: nat)
    | Frame(fid: nat, path: string)
    | Stop(time: nat)
    | Error(error: seq<string>)

  /** The `status` tag of a snapshot; only the error status carries a chain. */
  datatype Status = Rendering | Done | Errored(errorChain: seq<string>)

  /** `ProgressFile`: one full snapshot, replacing the previous file content. */
  datatype ProgressFile = ProgressFile(status: Status, frames: nat, total: nat, path: string)

  const PROGRESS_FILE_NAME := "_progress.json"

  /** `Path::join` of a relative name onto a directory: a `/` goes between them
      unless the directory is empty or already ends with one. */
  function JoinPath(dir: string, name: string): (r: string)
    ensures |r| >= |dir| + |name| && r[..|dir|] == dir && r[|r| - |name|..] == name
    ensures dir != [] ==> r[|r| - |name| - 1] == '/'
    ensures |r| <= |dir| + 1 + |name|
  {
    if dir == [] || dir[|dir| - 1] == '/' then dir + name else dir + "/" + name
  }

  /** What `_progress.json` holds: nothing yet, one snapshot, or, after a failed
      write, unknown text. `fs::write` truncates before it writes, so a failure
      may leave the old snapshot, an empty file or a partial one. */
  datatype FileContent = Absent | Holds(snapshot: ProgressFile) | Unknown

  /** The tag serde writes (`rename_all = "snake_case"`, `tag = "status"`). */
  function StatusTag(s: Status): string
  {
    match s
    case Rendering => "rendering"
    case Done => "done"
    case Errored(_) => "error"
  }

  /** The keys of the serialised object: `status` flattened in beside the other
      three fields, and `error_chain` from the error variant. */
  function JsonKeys(p: ProgressFile): set<string>
  {
    {"status", "frames", "total", "path"} + (if p.status.Errored? then {"error_chain"} else {})
  }

  /** The tag is one of three and tells the variants apart; `error_chain` is
      present exactly for the error tag. */
  lemma SnapshotShape(p: ProgressFile)
    ensures StatusTag(p.status) in {"rendering", "done", "error"}
    ensures "error_chain" in JsonKeys(p) <==> StatusTag(p.status) == "error"
    ensures JsonKeys(p) >= {"status", "frames", "total", "path"}
    ensures forall a: Status, b: Status :: StatusTag(a) == StatusTag(b) ==> a.Errored? == b.Errored?
  {
  }

  // ---------------------------------------------------------------------
  // One iteration of `KeysightQuirks::run`.
  // ---------------------------------------------------------------------

  /** The loop's state: the local `frames`, the shared slot, whether the kill
      signal has been raised and whether the loop has exited. */
  datatype Loop = Loop(frames: nat, slot: Option<QuirksMessage>, killed: bool, exited: bool)

  /** The state the task starts in: no frame seen, empty slot. */
  const Initial := Loop(0, None, false, false)

  /** What one iteration leaves behind, and the snapshot it writes, if any. */
  datatype Iteration = Iteration(next: Loop, write: Option<ProgressFile>)

  /** The branch order is `biased`: the kill signal is looked at first. Both
      branches take the slot's content and leave it empty. */
  function Iterate(s: Loop, total: nat): Iteration
    requires !s.exited
  {
    if s.killed then
      var status := if s.slot.Some? && s.slot.value.Error? then Errored(s.slot.value.error) else Done;
      Iteration(Loop(s.frames, None, true, true), Some(ProgressFile(status, s.frames, total, "")))
    else
      match s.slot
      case Some(Frame(fid, path)) =>
        Iteration(Loop(fid, None, false, false), Some(ProgressFile(Rendering, fid, total, path)))
      case Some(Error(chain)) =>
        Iteration(Loop(s.frames, None, false, true), Some(ProgressFile(Errored(chain), s.frames, total, "")))
      case _ =>
        Iteration(s.(slot := None), None)
  }

  /** The four outcomes of an iteration, by what it found. */
  lemma IterateSpec(s: Loop, total: nat)
    requires !s.exited
    ensures Iterate(s, total).next.slot.None?
    ensures var it := Iterate(s, total);
      && (it.write.Some? ==> it.write.value.total == total)
      && (it.write.Some? ==> (it.write.value.status.Errored? <==> "error_chain" in JsonKeys(it.write.value)))
      && (s.killed ==> it.next.exited && it.write.Some? && it.write.value.path == ""
                       && it.write.value.frames == s.frames
                       && it.write.value.status == (if s.slot.Some? && s.slot.value.Error?
                                                    then Errored(s.slot.value.error) else Done))
      && (!s.killed && s.slot.Some? && s.slot.value.Frame? ==>
            !it.next.exited && it.next.frames == s.slot.value.fid
            && it.write == Some(ProgressFile(Rendering, s.slot.value.fid, total, s.slot.value.path)))
      && (!s.killed && s.slot.Some? && s.slot.value.Error? ==>
            it.next.exited && it.write == Some(ProgressFile(Errored(s.slot.value.error), s.frames, total, "")))
      && (!s.killed && (s.slot.None? || s.slot.value.Start? || s.slot.value.Stop?) ==>
            it.write.None? && it.next == s.(slot := None))
  {
  }

  // ---------------------------------------------------------------------
  // Schedules: what the handle and the timer do to the loop, in some order.
  // ---------------------------------------------------------------------

  /** `Push` is `push_msg`; `Kill` raises the stop signal; `Wake` is one pass of
      the loop body (the `select!` returning, through either branch). */
  datatype Event = Push(m: QuirksMessage) | Kill | Wake

  function Apply(s: Loop, total: nat, ev: Event): Iteration
  {
    match ev
    case Push(m) => Iteration(s.(slot := Some(m)), None)
    case Kill => Iteration(s.(killed := true), None)
    case Wake => if s.exited then Iteration(s, None) else Iterate(s, total)
  }

  function Writes(w: Option<ProgressFile>): seq<ProgressFile>
  {
    if w.Some? then [w.value] else []
  }

  /** The state after a schedule, and every snapshot written on the way. */
  function Run(s: Loop, total: nat, evs: seq<Event>): (Loop, seq<ProgressFile>)
    decreases |evs|
  {
    if evs == [] then (s, [])
    else
      var it := Apply(s, total, evs[0]);
      var (last, ws) := Run(it.next, total, evs[1..]);
      (last, Writes(it.write) + ws)
  }

  lemma {:induction false} RunAppend(s: Loop, total: nat, a: seq<Event>, b: seq<Event>)
    ensures Run(s, total, a + b).0 == Run(Run(s, total, a).0, total, b).0
    ensures Run(s, total, a + b).1 == Run(s, total, a).1 + Run(Run(s, total, a).0, total, b).1
    decreases |a|
  {
    if a == [] {
      assert a + b == b;
    } else {
      assert (a + b)[0] == a[0];
      assert (a + b)[1..] == a[1..] + b;
      RunAppend(Apply(s, total, a[0]).next, total, a[1..], b);
    }
  }

  /** `push_msg` overwrites: of two pushes with nothing in between, the first is lost. */
  lemma LastPushWins(s: Loop, total: nat, a: QuirksMessage, b: QuirksMessage, rest: seq<Event>)
    ensures Run(s, total, [Push(a), Push(b)] + rest) == Run(s, total, [Push(b)] + rest)
  {
    var sb := s.(slot := Some(b));
    var r := Run(sb, total, rest);
    assert ([Push(b)] + rest)[0] == Push(b) && ([Push(b)] + rest)[1..] == rest;
    assert Run(s, total, [Push(b)] + rest) == (r.0, [] + r.1);
    assert Run(s.(slot := Some(a)), total, [Push(b)] + rest) == (r.0, [] + r.1);
    assert ([Push(a), Push(b)] + rest)[0] == Push(a);
    assert ([Push(a), Push(b)] + rest)[1..] == [Push(b)] + rest;
    assert [] + ([] + r.1) == [] + r.1;
  }

  lemma RunSnoc(s: Loop, total: nat, evs: seq<Event>, ev: Event)
    ensures var it := Apply(Run(s, total, evs).0, total, ev);
      Run(s, total, evs + [ev]) == (it.next, Run(s, total, evs).1 + Writes(it.write))
  {
    RunAppend(s, total, evs, [ev]);
    var it := Apply(Run(s, total, evs).0, total, ev);
    assert [ev][0] == ev && [ev][1..] == [];
    assert Run(it.next, total, []) == (it.next, []);
    assert Writes(it.write) + [] == Writes(it.write);
  }

  /** Once the loop has exited nothing it does changes any more: pushes land in a
      slot nobody reads and no snapshot is written. */
  lemma {:induction false} ExitedIsFinal(s: Loop, total: nat, evs: seq<Event>)
    requires s.exited
    ensures Run(s, total, evs).1 == []
    ensures Run(s, total, evs).0.exited && Run(s, total, evs).0.frames == s.frames
    decreases |evs|
  {
    if evs != [] {
      ExitedIsFinal(Apply(s, total, evs[0]).next, total, evs[1..]);
    }
  }

  /** Raising the signal and waking the loop always ends it with a `done` or
      `error` snapshot and an empty path, whatever the slot held (`stop()`). */
  lemma StopEndsLoop(s: Loop, total: nat)
    requires !s.exited
    ensures var (last, ws) := Run(s, total, [Kill, Wake]);
      && last.exited
      && |ws| == 1 && ws[0].path == "" && ws[0].frames == s.frames && ws[0].total == total
      && (ws[0].status == if s.slot.Some? && s.slot.value.Error? then Errored(s.slot.value.error) else Done)
  {
    assert [Kill, Wake][1..] == [Wake];
  }

  /** The snapshot invariants over every schedule that starts from a fresh task:
      the total never changes, every `rendering` snapshot carries the id and path
      of a pushed frame, and only the last snapshot can be `done` or `error`. */
  ghost predicate WriteLog(ws: seq<ProgressFile>, total: nat, evs: seq<Event>)
  {
    && (forall i :: 0 <= i < |ws| ==> ws[i].total == total)
    && (forall i :: 0 <= i < |ws| && ws[i].status.Rendering? ==>
          Push(Frame(ws[i].frames, ws[i].path)) in evs)
    && (forall i :: 0 <= i < |ws| - 1 ==> ws[i].status.Rendering?)
  }

  /** The loop's `frames` is 0 or the id of a pushed frame; a message still in
      the slot was pushed. */
  ghost predicate Explained(s: Loop, evs: seq<Event>)
  {
    && (s.frames == 0 || exists p :: Push(Frame(s.frames, p)) in evs)
    && (s.slot.Some? ==> Push(s.slot.value) in evs)
  }

  /** What holds after every prefix of a schedule. */
  ghost predicate LogInvariant(s: Loop, ws: seq<ProgressFile>, total: nat, evs: seq<Event>)
  {
    && WriteLog(ws, total, evs)
    && Explained(s, evs)
    && (ws != [] && !ws[|ws| - 1].status.Rendering? ==> s.exited)
  }

  lemma LogInvariantStep(s: Loop, ws: seq<ProgressFile>, total: nat, evs: seq<Event>, ev: Event)
    requires LogInvariant(s, ws, total, evs)
    ensures var it := Apply(s, total, ev);
      LogInvariant(it.next, ws + Writes(it.write), total, evs + [ev])
  {
    if !ev.Wake? || s.exited {
      LogInvariantQuiet(s, ws, total, evs, ev);
      assert ws + [] == ws;
    } else {
      LogInvariantWake(s, ws, total, evs);
    }
  }

  /** A push, a kill, or a wake after exit writes nothing and keeps the invariant. */
  lemma LogInvariantQuiet(s: Loop, ws: seq<ProgressFile>, total: nat, evs: seq<Event>, ev: Event)
    requires LogInvariant(s, ws, total, evs)
    requires !ev.Wake? || s.exited
    ensures var it := Apply(s, total, ev);
      it.write.None? && LogInvariant(it.next, ws, total, evs + [ev])
  {
    var evs' := evs + [ev];
    assert forall e :: e in evs ==> e in evs';
    assert ev in evs';
  }

  /** One pass of the loop keeps the invariant. */
  lemma LogInvariantWake(s: Loop, ws: seq<ProgressFile>, total: nat, evs: seq<Event>)
    requires LogInvariant(s, ws, total, evs) && !s.exited
    ensures var it := Iterate(s, total);
      LogInvariant(it.next, ws + Writes(it.write), total, evs + [Wake])
  {
    var evs' := evs + [Wake];
    assert forall e :: e in evs ==> e in evs';
    var it := Iterate(s, total);
    var all := ws + Writes(it.write);
    if it.write.Some? {
      assert all == ws + [it.write.value];
      assert forall i :: 0 <= i < |ws| ==> all[i] == ws[i];
      if ws != [] {
        assert ws[|ws| - 1].status.Rendering?;
      }
      if it.write.value.status.Rendering? {
        assert Push(s.slot.value) in evs;
      }
    } else {
      assert all == ws;
    }
  }

  lemma {:induction false} RunWriteLog(total: nat, evs: seq<Event>)
    ensures LogInvariant(Run(Initial, total, evs).0, Run(Initial, total, evs).1, total, evs)
    decreases |evs|
  {
    if evs != [] {
      var init, ev := evs[..|evs| - 1], evs[|evs| - 1];
      assert evs == init + [ev];
      RunWriteLog(total, init);
      RunSnoc(Initial, total, init, ev);
      LogInvariantStep(Run(Initial, total, init).0, Run(Initial, total, init).1, total, init, ev);
    }
  }

  /** The dropped-update tolerance: the snapshots never go backwards when the
      frames were pushed in nondecreasing id order, as the runner sends them. */
  ghost predicate PushedIdsNondecreasing(evs: seq<Event>)
  {
    forall i, j :: (0 <= i < j < |evs| && evs[i].Push? && evs[j].Push?
      && evs[i].m.Frame? && evs[j].m.Frame?) ==> evs[i].m.fid <= evs[j].m.fid
  }

  ghost predicate RenderingNondecreasing(ws: seq<ProgressFile>)
  {
    forall i, j :: 0 <= i < j < |ws| && ws[i].status.Rendering? && ws[j].status.Rendering?
      ==> ws[i].frames <= ws[j].frames
  }

  /** Every frame id the loop knows of (its `frames`, a frame in the slot, the
      snapshots so far) is at most the largest pushed id so far. */
  ghost predicate BoundedBy(s: Loop, ws: seq<ProgressFile>, bound: nat)
  {
    && s.frames <= bound
    && (s.slot.Some? && s.slot.value.Frame? ==> s.slot.value.fid <= bound)
    && (forall i :: 0 <= i < |ws| && ws[i].status.Rendering? ==> ws[i].frames <= bound)
  }

  function LastPushedId(evs: seq<Event>): nat
    decreases |evs|
  {
    if evs == [] then 0
    else if evs[|evs| - 1].Push? && evs[|evs| - 1].m.Frame? then evs[|evs| - 1].m.fid
    else LastPushedId(evs[..|evs| - 1])
  }

  lemma {:induction false} LastPushedIdIsMax(evs: seq<Event>, i: nat)
    requires PushedIdsNondecreasing(evs)
    requires i < |evs| && evs[i].Push? && evs[i].m.Frame?
    ensures evs[i].m.fid <= LastPushedId(evs)
    decreases |evs|
  {
    var last := evs[|evs| - 1];
    if i < |evs| - 1 && !(last.Push? && last.m.Frame?) {
      var init := evs[..|evs| - 1];
      assert init[i] == evs[i];
      assert PushedIdsNondecreasing(init) by {
        forall a, b | 0 <= a < b < |init| ensures
          init[a].Push? && init[b].Push? && init[a].m.Frame? && init[b].m.Frame? ==> init[a].m.fid <= init[b].m.fid
        {
          assert init[a] == evs[a] && init[b] == evs[b];
        }
      }
      LastPushedIdIsMax(init, i);
    }
  }

  /** What holds after every prefix of a schedule whose pushes are in id order. */
  ghost predicate MonotoneInvariant(s: Loop, ws: seq<ProgressFile>, evs: seq<Event>)
  {
    && RenderingNondecreasing(ws)
    && BoundedBy(s, ws, LastPushedId(evs))
    && (s.slot.Some? && s.slot.value.Frame? ==> s.slot.value.fid == LastPushedId(evs))
  }

  lemma MonotoneInvariantStep(s: Loop, ws: seq<ProgressFile>, total: nat, evs: seq<Event>, ev: Event)
    requires MonotoneInvariant(s, ws, evs)
    requires ev.Push? && ev.m.Frame? ==> LastPushedId(evs) <= ev.m.fid
    ensures var it := Apply(s, total, ev);
      MonotoneInvariant(it.next, ws + Writes(it.write), evs + [ev])
  {
    LastPushedIdSnoc(evs, ev);
    if !ev.Wake? || s.exited {
      assert ws + [] == ws;
    } else {
      MonotoneInvariantWake(s, ws, total, LastPushedId(evs));
    }
  }

  lemma LastPushedIdSnoc(evs: seq<Event>, ev: Event)
    ensures LastPushedId(evs + [ev]) == if ev.Push? && ev.m.Frame? then ev.m.fid else LastPushedId(evs)
  {
    assert (evs + [ev])[..|evs|] == evs;
  }

  /** One pass of the loop keeps the invariant for the same largest pushed id. */
  lemma MonotoneInvariantWake(s: Loop, ws: seq<ProgressFile>, total: nat, bound: nat)
    requires !s.exited
    requires RenderingNondecreasing(ws) && BoundedBy(s, ws, bound)
    requires s.slot.Some? && s.slot.value.Frame? ==> s.slot.value.fid == bound
    ensures var it := Iterate(s, total); var all := ws + Writes(it.write);
      && RenderingNondecreasing(all) && BoundedBy(it.next, all, bound) && it.next.slot.None?
  {
    var it := Iterate(s, total);
    var all := ws + Writes(it.write);
    if it.write.Some? {
      assert all == ws + [it.write.value];
      assert forall i :: 0 <= i < |ws| ==> all[i] == ws[i];
    } else {
      assert all == ws;
    }
  }

  /** A pushed frame id is at least every earlier one, so at least the last one. */
  lemma PushAfterLast(evs: seq<Event>, ev: Event)
    requires PushedIdsNondecreasing(evs + [ev])
    requires ev.Push? && ev.m.Frame?
    ensures LastPushedId(evs) <= ev.m.fid
  {
    var evs' := evs + [ev];
    if exists k :: 0 <= k < |evs| && evs[k].Push? && evs[k].m.Frame? {
      LastPushedIdWitness(evs);
      var k :| 0 <= k < |evs| && evs[k].Push? && evs[k].m.Frame? && evs[k].m.fid == LastPushedId(evs);
      assert evs'[k] == evs[k] && evs'[|evs|] == ev;
    } else {
      LastPushedIdNone(evs);
    }
  }

  lemma {:induction false} RunMonotone(total: nat, evs: seq<Event>)
    requires PushedIdsNondecreasing(evs)
    ensures RenderingNondecreasing(Run(Initial, total, evs).1)
    ensures BoundedBy(Run(Initial, total, evs).0, Run(Initial, total, evs).1, LastPushedId(evs))
    ensures MonotoneInvariant(Run(Initial, total, evs).0, Run(Initial, total, evs).1, evs)
    decreases |evs|
  {
    if evs != [] {
      var init, ev := evs[..|evs| - 1], evs[|evs| - 1];
      assert evs == init + [ev];
      assert PushedIdsNondecreasing(init) by {
        forall a, b | 0 <= a < b < |init| ensures
          init[a].Push? && init[b].Push? && init[a].m.Frame? && init[b].m.Frame? ==> init[a].m.fid <= init[b].m.fid
        {
          assert init[a] == evs[a] && init[b] == evs[b];
        }
      }
      RunMonotone(total, init);
      RunSnoc(Initial, total, init, ev);
      if ev.Push? && ev.m.Frame? { PushAfterLast(init, ev); }
      MonotoneInvariantStep(Run(Initial, total, init).0, Run(Initial, total, init).1, total, init, ev);
    }
  }

  lemma {:induction false} LastPushedIdWitness(evs: seq<Event>)
    requires exists k :: 0 <= k < |evs| && evs[k].Push? && evs[k].m.Frame?
    ensures exists k :: 0 <= k < |evs| && evs[k].Push? && evs[k].m.Frame? && evs[k].m.fid == LastPushedId(evs)
    decreases |evs|
  {
    var last := evs[|evs| - 1];
    if !(last.Push? && last.m.Frame?) {
      var init := evs[..|evs| - 1];
      var k :| 0 <= k < |evs| && evs[k].Push? && evs[k].m.Frame?;
      assert k < |init| && init[k] == evs[k];
      LastPushedIdWitness(init);
      var j :| 0 <= j < |init| && init[j].Push? && init[j].m.Frame? && init[j].m.fid == LastPushedId(init);
      assert evs[j] == init[j];
    }
  }

  lemma {:induction false} LastPushedIdNone(evs: seq<Event>)
    requires forall k :: 0 <= k < |evs| ==> !(evs[k].Push? && evs[k].m.Frame?)
    ensures LastPushedId(evs) == 0
    decreases |evs|
  {
    if evs != [] {
      var init := evs[..|evs| - 1];
      forall k | 0 <= k < |init| ensures !(init[k].Push? && init[k].m.Frame?) {
        assert init[k] == evs[k];
      }
      LastPushedIdNone(init);
    }
  }

  // ---------------------------------------------------------------------
  // The task and its handle as one object.
  // ---------------------------------------------------------------------

  /** `KeysightQuirks` together with its `KeysightQuirksHandle`: the loop's state,
      every snapshot it tried to write, and what `_progress.json` holds. Writes
      whose attempt number is in `failingWrites` fail; the failure is only
      printed (`e!`). */
  class Watchdog {
    const path: string
    const total: nat
    const failingWrites: set<nat>
    var frames: nat
    var slot: Option<QuirksMessage>
    var killed: bool
    var exited: bool
    var writes: seq<ProgressFile>
    var file: FileContent

    function State(): Loop
      reads this
    {
      Loop(frames, slot, killed, exited)
    }

    /** The file is what the write attempts so far leave behind. */
    ghost predicate Valid()
      reads this
    {
      file == FileAfter(writes, failingWrites)
    }

    /** `KeysightQuirks::start`: the task starts with `frames = 0` and an empty
        slot; nothing has been written. */
    constructor Start(sourceDir: string, total: nat, failingWrites: set<nat>)
      ensures Valid()
      ensures path == JoinPath(sourceDir, PROGRESS_FILE_NAME)
      ensures this.total == total && this.failingWrites == failingWrites
      ensures State() == Initial && writes == [] && file == Absent
    {
      path := JoinPath(sourceDir, PROGRESS_FILE_NAME);
      this.total := total;
      this.failingWrites := failingWrites;
      frames, slot, killed, exited := 0, None, false, false;
      writes, file := [], Absent;
    }

    /** `push_msg`: replaces whatever the slot held. */
    method PushMsg(m: QuirksMessage)
      requires Valid()
      modifies this`slot
      ensures Valid()
      ensures State() == old(State()).(slot := Some(m))
    {
      slot := Some(m);
    }

    /** `write_progress` wrapped in `e!`: attempted, and on failure only printed.
        A successful write replaces the file with the snapshot; after a failed
        one the file's text is unknown. */
    method WriteProgress(p: ProgressFile)
      requires Valid()
      modifies this`writes, this`file
      ensures Valid()
      ensures writes == old(writes) + [p]
      ensures file == if |old(writes)| in failingWrites then Unknown else Holds(p)
    {
      if |writes| in failingWrites {
        file := Unknown;
      } else {
        file := Holds(p);
      }
      writes := writes + [p];
      FileAfterSnoc(old(writes), p, failingWrites);
    }

    /** One pass of the loop body, while the loop still runs. */
    method Wake()
      requires Valid()
      modifies this`frames, this`slot, this`exited, this`writes, this`file
      ensures Valid()
      ensures var it := Apply(old(State()), total, Event.Wake);
        State() == it.next && writes == old(writes) + Writes(it.write)
    {
      if exited {
        return;
      }
      ghost var it := Iterate(State(), total);
      ghost var before := writes;
      var msg := slot;
      slot := None;
      if killed {
        if msg.Some? && msg.value.Error? {
          WriteProgress(ProgressFile(Errored(msg.value.error), frames, total, ""));
        } else {
          WriteProgress(ProgressFile(Done, frames, total, ""));
        }
        exited := true;
        assert State() == it.next && writes == before + Writes(it.write);
        return;
      }
      match msg {
        case Some(Frame(fid, path)) =>
          assert it == Iteration(Loop(fid, None, false, false), Some(ProgressFile(Rendering, fid, total, path)));
          frames := fid;
          WriteProgress(ProgressFile(Rendering, frames, total, path));
        case Some(Error(chain)) =>
          assert it == Iteration(Loop(frames, None, false, true), Some(ProgressFile(Errored(chain), frames, total, "")));
          WriteProgress(ProgressFile(Errored(chain), frames, total, ""));
          exited := true;
        case _ =>
          assert it == Iteration(State(), None);
          assert writes == before + [];
      }
    }

    /** `stop`: raise the signal (a no-op once the task has ended) and wait for
        the task, which then takes the kill branch. Always `Ok`. */
    method Stop() returns (r: Result<()>)
      requires Valid()
      modifies this`frames, this`slot, this`killed, this`exited, this`writes, this`file
      ensures Valid()
      ensures r == Ok(())
      ensures var (last, ws) := Run(old(State()), total, [Kill, Event.Wake]);
        State() == last && writes == old(writes) + ws
      ensures exited
    {
      killed := true;
      Wake();
      assert [Kill, Event.Wake][1..] == [Event.Wake];
      return Ok(());
    }
  }

  /** The last snapshot whose write attempt succeeded. */
  /** What the write attempts `ws` leave in the file: the last attempt decides,
      since every write replaces the whole file. */
  function FileAfter(ws: seq<ProgressFile>, failing: set<nat>): FileContent
  {
    if ws == [] then Absent
    else if |ws| - 1 in failing then Unknown
    else Holds(ws[|ws| - 1])
  }

  /** One more attempt: it leaves its snapshot, or unknown text if it fails. */
  lemma FileAfterSnoc(ws: seq<ProgressFile>, p: ProgressFile, failing: set<nat>)
    ensures FileAfter(ws + [p], failing) == if |ws| in failing then Unknown else Holds(p)
  {
  }

  /** A readable file never shows a stale snapshot: it holds one exactly when
      the latest attempt succeeded, and then it holds that attempt's snapshot. */
  lemma FileNeverStale(ws: seq<ProgressFile>, failing: set<nat>)
    ensures FileAfter(ws, failing).Holds? <==> ws != [] && |ws| - 1 !in failing
    ensures FileAfter(ws, failing).Holds? ==> FileAfter(ws, failing).snapshot == ws[|ws| - 1]
    ensures FileAfter(ws, failing).Absent? <==> ws == []
  {
  }

  /** With no failed writes the file shows the latest snapshot. */
  lemma NoFailuresShowLatest(ws: seq<ProgressFile>)
    requires ws != []
    ensures FileAfter(ws, {}) == Holds(ws[|ws| - 1])
  {
  }
}
