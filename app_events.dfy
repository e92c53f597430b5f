/** The UI event bridge of crates/app/src/events.rs: events from background services,
    a throttle that lets editor repaints and cursor updates through at most once per
    interval, and a receiver that drops throttled events until one passes. Instants and
    durations are whole nanoseconds; the readings of `Instant::now()` are passed in. */
module AppEvents {
  import opened Wrappers

  /** Nanoseconds in a millisecond. */
  const MILLIS: nat := 1_000_000

  /** `UiEvent`; `usize` fields are naturals and `String` fields character sequences. */
  datatype UiEvent =
    | EditorContentChanged(startLine: nat, endLine: nat)
    | CursorMoved(line: nat, column: nat)
    | FileLoaded(filename: seq<char>, language: seq<char>)
    | FileSaveStatus(filename: seq<char>, isDirty: bool)
    | ExplorerRefresh
    | ChatResponseChunk(content: seq<char>)
    | ChatResponseComplete
    | ChatError(message: seq<char>)
    | DiffAvailable(hunkCount: nat)
    | DiffHunkResolved(remaining: nat)
    | StatusUpdate(message: seq<char>)

  /** `ThrottleConfig`: the least time between two repaints and between two cursor
      updates. */
  datatype ThrottleConfig = ThrottleConfig(editorRepaintInterval: nat, cursorUpdateInterval: nat)

  /** `ThrottleConfig::default`: 16 ms for repaints, 50 ms for cursor updates. */
  const DefaultConfig := ThrottleConfig(16 * MILLIS, 50 * MILLIS)

  /** `Instant::duration_since`: the time from `earlier` to `now`, zero when `now` is
      before it. */
  function Elapsed(now: nat, earlier: nat): (d: nat)
    ensures now >= earlier ==> earlier + d == now
    ensures now < earlier ==> d == 0
  {
    if now >= earlier then now - earlier else 0
  }

  /** A throttle decision: whether to emit, and the last emission time afterwards. */
  datatype Decision = Decision(emit: bool, last: Option<nat>)

  /** One `should_emit_*` call at `now`: emit, and remember `now`, unless the previous
      emission is less than `interval` ago, in which case nothing is remembered. */
  function Throttle(last: Option<nat>, now: nat, interval: nat): (r: Decision)
    ensures r.emit <==> last.None? || Elapsed(now, last.value) >= interval
    ensures r.emit ==> r.last == Some(now)
    ensures !r.emit ==> r.last == last
  {
    match last
    case Some(l) => if Elapsed(now, l) < interval then Decision(false, last) else Decision(true, Some(now))
    case None => Decision(true, Some(now))
  }

  /** The two last-emission times of the throttle state. */
  datatype Lasts = Lasts(repaint: Option<nat>, cursor: Option<nat>)

  /** The events the throttle may hold back. */
  predicate Throttled(e: UiEvent)
  {
    e.EditorContentChanged? || e.CursorMoved?
  }

  /** The filter rule of `recv` and `try_recv` for one event read at `now`: a content
      change asks the repaint throttle, a cursor move the cursor throttle, and every other
      event passes. Each throttle's time is touched only by its own kind of event. */
  function Admit(cfg: ThrottleConfig, s: Lasts, e: UiEvent, now: nat): (r: (bool, Lasts))
    ensures !Throttled(e) ==> r == (true, s)
    ensures e.EditorContentChanged? ==>
      r.1.cursor == s.cursor && (r.0, r.1.repaint) == (Throttle(s.repaint, now, cfg.editorRepaintInterval).emit, Throttle(s.repaint, now, cfg.editorRepaintInterval).last)
    ensures e.CursorMoved? ==>
      r.1.repaint == s.repaint && (r.0, r.1.cursor) == (Throttle(s.cursor, now, cfg.cursorUpdateInterval).emit, Throttle(s.cursor, now, cfg.cursorUpdateInterval).last)
  {
    match e
    case EditorContentChanged(_, _) =>
      var d := Throttle(s.repaint, now, cfg.editorRepaintInterval);
      (d.emit, s.(repaint := d.last))
    case CursorMoved(_, _) =>
      var d := Throttle(s.cursor, now, cfg.cursorUpdateInterval);
      (d.emit, s.(cursor := d.last))
    case _ => (true, s)
  }

  /** What one `recv`/`try_recv` call does with the pending events `q`, the `k`-th event
      it examines being read at `clock(k)`: the first event that passes, the events
      after it, and the throttle state; `None` once every pending event is dropped. */
  datatype Received = Received(event: Option<UiEvent>, pending: seq<UiEvent>, lasts: Lasts)

  function Receive(cfg: ThrottleConfig, s: Lasts, q: seq<UiEvent>, clock: nat -> nat, k: nat): (r: Received)
    ensures |r.pending| < |q| || (q == [] && r.pending == [])
    decreases |q|
  {
    if q == [] then Received(Option.None, [], s)
    else
      var a := Admit(cfg, s, q[0], clock(k));
      if a.0 then Received(Some(q[0]), q[1..], a.1) else Receive(cfg, a.1, q[1..], clock, k + 1)
  }

  /** A call returns the first pending event that passes and leaves the events after it
      pending; every event before it was a throttled kind and is dropped. With nothing
      passing it returns nothing and drops everything. */
  lemma {:induction false} ReceiveFirstPassing(cfg: ThrottleConfig, s: Lasts, q: seq<UiEvent>, clock: nat -> nat, k: nat)
    ensures var r := Receive(cfg, s, q, clock, k);
      var taken := |q| - |r.pending|;
      q[taken..] == r.pending &&
      (r.event.Some? ==> taken > 0 && r.event.value == q[taken - 1]) &&
      (r.event.None? ==> r.pending == []) &&
      forall i :: 0 <= i < (if r.event.Some? then taken - 1 else taken) ==> Throttled(q[i])
    decreases |q|
  {
    if q != [] {
      var a := Admit(cfg, s, q[0], clock(k));
      if !a.0 {
        ReceiveFirstPassing(cfg, a.1, q[1..], clock, k + 1);
        var r := Receive(cfg, a.1, q[1..], clock, k + 1);
        var taken := |q[1..]| - |r.pending|;
        assert q[1..][taken..] == q[taken + 1..];
        forall i | 0 <= i < (if r.event.Some? then taken else taken + 1)
          ensures Throttled(q[i])
        {
          if i > 0 {
            assert q[i] == q[1..][i - 1];
          }
        }
      }
    }
  }

  /** An event the throttle never holds back passes at once and leaves the state alone. */
  lemma UnthrottledPasses(cfg: ThrottleConfig, s: Lasts, q: seq<UiEvent>, clock: nat -> nat, k: nat)
    requires q != [] && !Throttled(q[0])
    ensures Receive(cfg, s, q, clock, k) == Received(Some(q[0]), q[1..], s)
  {
  }

  /** Cursor moves read less than the cursor interval after an emitted one are all
      dropped, and the state is unchanged. */
  lemma {:induction false} CursorBurstDropped(cfg: ThrottleConfig, s: Lasts, q: seq<UiEvent>, clock: nat -> nat, k: nat)
    requires s.cursor.Some?
    requires forall i :: 0 <= i < |q| ==> q[i].CursorMoved?
    requires forall j :: k <= j < k + |q| ==> Elapsed(clock(j), s.cursor.value) < cfg.cursorUpdateInterval
    ensures Receive(cfg, s, q, clock, k) == Received(Option.None, [], s)
    decreases |q|
  {
    if q != [] {
      assert q[0].CursorMoved?;
      assert Elapsed(clock(k), s.cursor.value) < cfg.cursorUpdateInterval;
      CursorBurstDropped(cfg, s, q[1..], clock, k + 1);
    }
  }

  /** `ThrottleState`. */
  class ThrottleState {
    var lastEditorRepaint: Option<nat>
    var lastCursorUpdate: Option<nat>

    /** `ThrottleState::new`: nothing emitted yet. */
    constructor()
      ensures lastEditorRepaint == Option.None && lastCursorUpdate == Option.None
    {
      lastEditorRepaint := Option.None;
      lastCursorUpdate := Option.None;
    }

    /** `should_emit_editor_repaint` at `now`; the cursor time is untouched. */
    method ShouldEmitEditorRepaint(config: ThrottleConfig, now: nat) returns (emit: bool)
      modifies this
      ensures Decision(emit, lastEditorRepaint) == Throttle(old(lastEditorRepaint), now, config.editorRepaintInterval)
      ensures lastCursorUpdate == old(lastCursorUpdate)
    {
      match lastEditorRepaint {
        case Some(last) =>
          if Elapsed(now, last) < config.editorRepaintInterval {
            return false;
          }
        case None =>
      }
      lastEditorRepaint := Some(now);
      emit := true;
    }

    /** `should_emit_cursor_update` at `now`; the repaint time is untouched. */
    method ShouldEmitCursorUpdate(config: ThrottleConfig, now: nat) returns (emit: bool)
      modifies this
      ensures Decision(emit, lastCursorUpdate) == Throttle(old(lastCursorUpdate), now, config.cursorUpdateInterval)
      ensures lastEditorRepaint == old(lastEditorRepaint)
    {
      match lastCursorUpdate {
        case Some(last) =>
          if Elapsed(now, last) < config.cursorUpdateInterval {
            return false;
          }
        case None =>
      }
      lastCursorUpdate := Some(now);
      emit := true;
    }
  }

  /** `TryRecvError::Empty`: no pending event (a disconnected channel is not modelled). */
  datatype TryRecvError = Empty

  /** `EventReceiver`: the pending events of the channel, the throttle state and the
      configuration. */
  class EventReceiver {
    var pending: seq<UiEvent>
    const throttleState: ThrottleState
    const config: ThrottleConfig

    constructor(config: ThrottleConfig)
      ensures pending == [] && this.config == config && fresh(throttleState)
      ensures throttleState.lastEditorRepaint == Option.None && throttleState.lastCursorUpdate == Option.None
    {
      pending := [];
      this.config := config;
      throttleState := new ThrottleState();
    }

    /** The channel's `send`: one more pending event. */
    method Send(e: UiEvent)
      modifies this
      ensures pending == old(pending) + [e]
    {
      pending := pending + [e];
    }

    function State(): Lasts
      reads this, throttleState
    {
      Lasts(throttleState.lastEditorRepaint, throttleState.lastCursorUpdate)
    }

    /** The filter loop shared by `recv` and `try_recv`. */
    method Next(clock: nat -> nat) returns (event: Option<UiEvent>)
      modifies this, throttleState
      ensures Received(event, pending, State()) == Receive(config, old(State()), old(pending), clock, 0)
    {
      var k: nat := 0;
      while pending != []
        invariant Receive(config, State(), pending, clock, k) == Receive(config, old(State()), old(pending), clock, 0)
        decreases |pending|
      {
        var e := pending[0];
        pending := pending[1..];
        var emit := true;
        match e {
          case EditorContentChanged(_, _) =>
            emit := throttleState.ShouldEmitEditorRepaint(config, clock(k));
          case CursorMoved(_, _) =>
            emit := throttleState.ShouldEmitCursorUpdate(config, clock(k));
          case _ =>
        }
        if emit {
          return Some(e);
        }
        k := k + 1;
      }
      event := Option.None;
    }

    /** `try_recv`: the first pending event that passes, or `Empty` once every pending
        event has been dropped. */
    method TryRecv(clock: nat -> nat) returns (r: Result<UiEvent, TryRecvError>)
      modifies this, throttleState
      ensures var x := Receive(config, old(State()), old(pending), clock, 0);
        r == (if x.event.Some? then Success(x.event.value) else Failure(Empty)) && pending == x.pending && State() == x.lasts
    {
      var e := Next(clock);
      r := if e.Some? then Success(e.value) else Failure(Empty);
    }

    /** `recv`: the same filter; `None` stands for the channel closing once the pending
        events are used up. */
    method Recv(clock: nat -> nat) returns (r: Option<UiEvent>)
      modifies this, throttleState
      ensures Received(r, pending, State()) == Receive(config, old(State()), old(pending), clock, 0)
    {
      r := Next(clock);
    }
  }

  /** `test_throttling`: a 100 ms cursor interval, five cursor moves sent at once; the
      first passes, and while every later reading is under 100 ms after the first, the
      next call drops the other four and finds nothing. */
  lemma FiveRapidCursorEvents(cfg: ThrottleConfig, clock: nat -> nat, clock2: nat -> nat)
    requires cfg == DefaultConfig.(cursorUpdateInterval := 100 * MILLIS)
    requires forall j :: 0 <= j < 4 ==> Elapsed(clock2(j), clock(0)) < 100 * MILLIS
    ensures var q := [CursorMoved(0, 0), CursorMoved(1, 0), CursorMoved(2, 0), CursorMoved(3, 0), CursorMoved(4, 0)];
      var first := Receive(cfg, Lasts(Option.None, Option.None), q, clock, 0);
      first.event == Some(CursorMoved(0, 0)) && first.pending == q[1..] &&
      Receive(cfg, first.lasts, first.pending, clock2, 0) == Received(Option.None, [], first.lasts)
  {
    var q := [CursorMoved(0, 0), CursorMoved(1, 0), CursorMoved(2, 0), CursorMoved(3, 0), CursorMoved(4, 0)];
    var first := Receive(cfg, Lasts(Option.None, Option.None), q, clock, 0);
    assert first.lasts.cursor == Some(clock(0));
    CursorBurstDropped(cfg, first.lasts, first.pending, clock2, 0);
  }

  /** The default throttle lets a repaint through and holds back another 10 ms later,
      but not one 16 ms later. */
  lemma DefaultRepaintInterval(t: nat)
    ensures Throttle(Option.None, t, DefaultConfig.editorRepaintInterval) == Decision(true, Some(t))
    ensures !Throttle(Some(t), t + 10 * MILLIS, DefaultConfig.editorRepaintInterval).emit
    ensures Throttle(Some(t), t + 16 * MILLIS, DefaultConfig.editorRepaintInterval) == Decision(true, Some(t + 16 * MILLIS))
  {
  }
}
