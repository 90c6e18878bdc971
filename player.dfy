/** The virtual player (simulate_player, Streaming-Client/build/src/player.c).
    It waits until the playout buffer is full, logs playback_start, and
    then plays: a turn with an empty buffer opens a stall (once), a turn
    with frames closes any open stall and consumes one frame, until total
    frames have been played; playback_end closes the log. Each turn of
    either loop is one Step here. The download side adds frames while the
    player sleeps; those frames, and the clock, come in with each turn as a
    Tick, and they land at the point of the turn where the player sleeps,
    so a read of the count after the sleep sees them. */
module Player {
  import opened PlayoutBuffer
  import opened EventLogger
  import opened Prelude

  const WAITING: string := "waiting_for_initial_buffer"
  const PLAYBACK_START: string := "playback_start"
  const STALL_START: string := "stall_start"
  const STALL_END: string := "stall_end"
  const CONSUME_FRAME: string := "consume_frame"
  const CONSUME_FAILED: string := "consume_failed"
  const PLAYBACK_END: string := "playback_end"

  /** Which loop the player is in: the initial fill, playback, or done. */
  datatype Phase = Filling | Playing | Finished

  /** What happens during one turn: the number of buffer_add calls the
      download side makes while the player sleeps, and the clock reading
      for the turn. */
  datatype Tick = Tick(arrivals: nat, now: real)

  /** The buffer's bound (which is also the initial-fill threshold), the
      number of frames to play, and the stall log's capacity. */
  datatype Config = Config(maxFrames: int, total: int, stallCapacity: int)

  /** The player's own variables: the loop it is in, played_frames,
      in_stall, stall_start, start_ms, and the frame indices it has passed
      to frame_deadline_ms. */
  datatype PlayerVars = PlayerVars(phase: Phase, played: int, inStall: bool, stallStart: real, startMs: real,
                                   deadlines: seq<int>)

  /** The player's variables, the buffer count, and what it has logged:
      the player events, the stall records, and the frame indices passed
      to frame_deadline_ms. */
  datatype PlayerState = PlayerState(phase: Phase, count: int, played: int, inStall: bool,
                                     stallStart: real, startMs: real,
                                     events: seq<PlayerEvent>, stalls: seq<StallLog>, deadlines: seq<int>)

  function Start(count: int): PlayerState
  {
    PlayerState(Filling, count, 0, false, 0.0, 0.0, [], [], [])
  }

  /** The buffer count after n buffer_add calls. */
  function Arrive(count: int, maxFrames: int, n: nat): int
    decreases n
  {
    if n == 0 then count else AddStep(Arrive(count, maxFrames, n - 1), maxFrames).1
  }

  /** Adds never empty the buffer, and never take it past its bound. */
  lemma {:induction false} ArriveBounds(count: int, maxFrames: int, n: nat)
    ensures Arrive(count, maxFrames, n) >= count
    ensures count <= maxFrames ==> Arrive(count, maxFrames, n) <= maxFrames
    decreases n
  {
    if n > 0 {
      ArriveBounds(count, maxFrames, n - 1);
    }
  }

  function Log(st: PlayerState, now: real, name: string, frame: int, count: int): seq<PlayerEvent>
  {
    st.events + [PlayerEvent(now, name, frame, count)]
  }

  /** Leaving a stall: one stall record, kept while the stall log has
      room, and a stall_end event. */
  function CloseStall(cfg: Config, st: PlayerState, now: real, c: int): PlayerState
  {
    if st.inStall then
      st.(stalls := Appended(st.stalls, cfg.stallCapacity, StallLog(st.stallStart, now - st.stallStart)),
          inStall := false, events := Log(st, now, STALL_END, 0, c))
    else st
  }

  /** A frame consumed: the deadline is asked for the number of frames
      already played, which then grows by one and is logged. */
  function Consumed(st: PlayerState, now: real, c': int): PlayerState
  {
    st.(count := c', deadlines := st.deadlines + [st.played], played := st.played + 1,
        events := Log(st, now, CONSUME_FRAME, st.played + 1, c'))
  }

  /** A turn of the playback loop on a non-empty buffer: close the open
      stall, if any, then consume. A consumed frame is logged before the
      player sleeps until its deadline; a refused consume is logged after
      a 1 ms sleep, with the count read then, and the loop goes on. */
  function PlayTurn(cfg: Config, st: PlayerState, t: Tick): PlayerState
  {
    var st1 := CloseStall(cfg, st, t.now, st.count);
    var (rc, c') := ConsumeStep(st.count);
    if rc == 0 then
      var st2 := Consumed(st1, t.now, c');
      st2.(count := Arrive(c', cfg.maxFrames, t.arrivals))
    else
      var c'' := Arrive(c', cfg.maxFrames, t.arrivals);
      st1.(count := c'', events := Log(st1, t.now, CONSUME_FAILED, st1.played, c''))
  }

  /** One turn of the loop the player is in. The count is tested as it
      stands; the turn's frames arrive during its sleep, so the waiting
      event sees them. After playback_start they arrive before the next
      test; after playback_end the player no longer reads the count. */
  function Step(cfg: Config, st: PlayerState, t: Tick): PlayerState
  {
    match st.phase
    case Filling =>
      if st.count < cfg.maxFrames then
        var c := Arrive(st.count, cfg.maxFrames, t.arrivals);
        st.(count := c, events := Log(st, t.now, WAITING, 0, c))
      else
        st.(count := Arrive(st.count, cfg.maxFrames, t.arrivals), phase := Playing, startMs := t.now,
            events := Log(st, t.now, PLAYBACK_START, 0, st.count))
    case Playing =>
      if st.played >= cfg.total then
        st.(phase := Finished, events := Log(st, t.now, PLAYBACK_END, 0, st.count))
      else if st.count == 0 then
        var c := Arrive(0, cfg.maxFrames, t.arrivals);
        if st.inStall then st.(count := c)
        else st.(count := c, inStall := true, stallStart := t.now, events := Log(st, t.now, STALL_START, 0, 0))
      else PlayTurn(cfg, st, t)
    case Finished => st
  }

  /** The state after a run of turns. */
  function Run(cfg: Config, st: PlayerState, ticks: seq<Tick>): PlayerState
    decreases |ticks|
  {
    if ticks == [] then st else Step(cfg, Run(cfg, st, ticks[..|ticks| - 1]), ticks[|ticks| - 1])
  }

  // ---------------------------------------------------------------------
  // Views of the event log
  // ---------------------------------------------------------------------

  /** The number of events of the given name. */
  function Count(events: seq<PlayerEvent>, name: string): nat
    decreases |events|
  {
    if events == [] then 0
    else Count(events[..|events| - 1], name) + (if events[|events| - 1].event == name then 1 else 0)
  }

  /** The frame numbers of the consume_frame events, in order. */
  function ConsumedFrames(events: seq<PlayerEvent>): seq<int>
    decreases |events|
  {
    if events == [] then []
    else
      var e := events[|events| - 1];
      ConsumedFrames(events[..|events| - 1]) + (if e.event == CONSUME_FRAME then [e.frame] else [])
  }

  /** The stall events in order: true for stall_start, false for stall_end. */
  function StallMarks(events: seq<PlayerEvent>): seq<bool>
    decreases |events|
  {
    if events == [] then []
    else
      var e := events[|events| - 1];
      StallMarks(events[..|events| - 1]) +
        (if e.event == STALL_START then [true] else if e.event == STALL_END then [false] else [])
  }

  lemma {:induction false} CountOfSnoc(events: seq<PlayerEvent>, e: PlayerEvent, name: string)
    ensures Count(events + [e], name) == Count(events, name) + (if e.event == name then 1 else 0)
  {
    assert (events + [e])[..|events|] == events;
  }

  lemma {:induction false} ViewsOfSnoc(events: seq<PlayerEvent>, e: PlayerEvent)
    ensures ConsumedFrames(events + [e]) == ConsumedFrames(events) + (if e.event == CONSUME_FRAME then [e.frame] else [])
    ensures StallMarks(events + [e]) ==
              StallMarks(events) + (if e.event == STALL_START then [true] else if e.event == STALL_END then [false] else [])
  {
    assert (events + [e])[..|events|] == events;
  }

  // ---------------------------------------------------------------------
  // What every run keeps true
  // ---------------------------------------------------------------------

  /** frame number k is the k-th consumed, for k from 1 */
  ghost predicate NumberedFrom1(s: seq<int>)
  {
    forall i | 0 <= i < |s| :: s[i] == i + 1
  }

  /** deadline index i is the i-th, from 0 */
  ghost predicate NumberedFrom0(s: seq<int>)
  {
    forall i | 0 <= i < |s| :: s[i] == i
  }

  /** stall_start and stall_end alternate, beginning with stall_start. */
  ghost predicate Alternating(marks: seq<bool>)
  {
    forall i | 0 <= i < |marks| :: marks[i] == (i % 2 == 0)
  }

  function Min(a: int, b: int): int
  {
    if a <= b then a else b
  }

  /** played_frames is the number of consume_frame events; the k-th of
      them carries frame number k, and the k-th deadline was asked for
      frame index k-1. */
  ghost predicate PlayedInv(st: PlayerState)
  {
    && 0 <= st.played
    && |st.deadlines| == st.played && NumberedFrom0(st.deadlines)
    && |ConsumedFrames(st.events)| == st.played && NumberedFrom1(ConsumedFrames(st.events))
  }

  /** Before playback starts only waiting events are logged; afterwards
      the log is the waiting events, one playback_start, and no more
      waiting events; playback_end is logged once, when playback ends. */
  ghost predicate PhaseInv(st: PlayerState)
  {
    var w := Count(st.events, WAITING);
    && (st.phase == Filling ==> w == |st.events| && st.played == 0 && !st.inStall && st.stalls == [])
    && (st.phase != Filling ==>
          && w < |st.events| && Count(st.events[..w], WAITING) == w
          && st.events[w].event == PLAYBACK_START)
    && Count(st.events, PLAYBACK_START) == (if st.phase == Filling then 0 else 1)
    && Count(st.events, PLAYBACK_END) == (if st.phase == Finished then 1 else 0)
  }

  /** stall_start and stall_end alternate, a stall is open exactly when the
      last of them is a stall_start, and the stall log holds one record
      per closed stall, up to its capacity. */
  ghost predicate StallInv(cfg: Config, st: PlayerState)
  {
    var marks := StallMarks(st.events);
    && Alternating(marks)
    && (st.inStall <==> |marks| % 2 == 1)
    && |st.stalls| == Min(|marks| / 2, Max0(cfg.stallCapacity))
  }

  /** The count is never negative, so no consume fails; at most total
      frames are played; a stall is open only while frames remain; and
      playback ends with all of them played. */
  ghost predicate ProgressInv(cfg: Config, st: PlayerState)
  {
    && 0 <= st.count
    && Count(st.events, CONSUME_FAILED) == 0
    && st.played <= Max0(cfg.total)
    && (st.inStall ==> st.phase == Playing && st.played < cfg.total)
    && (st.phase == Finished ==> st.played == Max0(cfg.total))
  }

  ghost predicate Inv(cfg: Config, st: PlayerState)
  {
    PlayedInv(st) && PhaseInv(st) && StallInv(cfg, st) && ProgressInv(cfg, st)
  }

  /** A run starts in the invariant. */
  lemma {:induction false} StartInv(cfg: Config, count: int)
    requires count >= 0
    ensures Inv(cfg, Start(count))
  {
  }

  /** A turn of the initial-fill loop. */
  lemma {:induction false} FillingStepKeepsInv(cfg: Config, st: PlayerState, t: Tick)
    requires Inv(cfg, st) && st.phase == Filling
    ensures Inv(cfg, Step(cfg, st, t))
  {
    var c := Arrive(st.count, cfg.maxFrames, t.arrivals);
    ArriveBounds(st.count, cfg.maxFrames, t.arrivals);
    if st.count < cfg.maxFrames {
      var e := PlayerEvent(t.now, WAITING, 0, c);
      LogDuringFill(st, e);
      var st' := st.(count := c, events := st.events + [e]);
      assert Step(cfg, st, t) == st';
      assert PlayedInv(st');
      assert PhaseInv(st');
      assert StallInv(cfg, st');
    } else {
      var e := PlayerEvent(t.now, PLAYBACK_START, 0, st.count);
      LogDuringFill(st, e);
      var st' := st.(count := c, phase := Playing, startMs := t.now, events := st.events + [e]);
      assert Step(cfg, st, t) == st';
      assert st'.events[..|st.events|] == st.events;
      assert PlayedInv(st');
      assert PhaseInv(st');
      assert StallInv(cfg, st');
    }
  }

  /** The views of the log after a waiting event or playback_start. */
  lemma {:induction false} LogDuringFill(st: PlayerState, e: PlayerEvent)
    requires e.event == WAITING || e.event == PLAYBACK_START
    ensures Count(st.events + [e], WAITING) == Count(st.events, WAITING) + (if e.event == WAITING then 1 else 0)
    ensures Count(st.events + [e], PLAYBACK_START) == Count(st.events, PLAYBACK_START) + (if e.event == WAITING then 0 else 1)
    ensures Count(st.events + [e], PLAYBACK_END) == Count(st.events, PLAYBACK_END)
    ensures Count(st.events + [e], CONSUME_FAILED) == Count(st.events, CONSUME_FAILED)
    ensures ConsumedFrames(st.events + [e]) == ConsumedFrames(st.events)
    ensures StallMarks(st.events + [e]) == StallMarks(st.events)
  {
    ViewsOfSnoc(st.events, e);
    CountOfSnoc(st.events, e, WAITING);
    CountOfSnoc(st.events, e, PLAYBACK_START);
    CountOfSnoc(st.events, e, PLAYBACK_END);
    CountOfSnoc(st.events, e, CONSUME_FAILED);
  }

  /** The end of playback. */
  lemma {:induction false} EndStepKeepsInv(cfg: Config, st: PlayerState, t: Tick)
    requires Inv(cfg, st) && st.phase == Playing && st.played >= cfg.total
    ensures Inv(cfg, Step(cfg, st, t))
  {
    var e := PlayerEvent(t.now, PLAYBACK_END, 0, st.count);
    AppendKeepsPhaseLog(st, e);
    var st' := st.(phase := Finished, events := st.events + [e]);
    assert Step(cfg, st, t) == st';
    assert PlayedInv(st');
    assert PhaseInv(st');
    assert StallInv(cfg, st');
  }

  /** A turn of playback on an empty buffer: a stall opens, or stays open,
      and the frames that arrive during the sleep are counted. */
  lemma {:induction false} StallStepKeepsInv(cfg: Config, st: PlayerState, t: Tick)
    requires Inv(cfg, st) && st.phase == Playing && st.played < cfg.total && st.count == 0
    ensures Inv(cfg, Step(cfg, st, t))
  {
    var c := Arrive(0, cfg.maxFrames, t.arrivals);
    ArriveBounds(0, cfg.maxFrames, t.arrivals);
    if !st.inStall {
      var e := PlayerEvent(t.now, STALL_START, 0, 0);
      AppendKeepsPhaseLog(st, e);
      var st' := st.(count := c, inStall := true, stallStart := t.now, events := st.events + [e]);
      assert Step(cfg, st, t) == st';
      assert PlayedInv(st');
      assert PhaseInv(st');
      assert StallInv(cfg, st');
    }
  }

  /** Closing a stall keeps the invariant and leaves no stall open. */
  lemma {:induction false} CloseStallKeepsInv(cfg: Config, st: PlayerState, now: real)
    requires Inv(cfg, st) && st.phase == Playing && st.played < cfg.total && st.count > 0
    ensures var st1 := CloseStall(cfg, st, now, st.count);
      && Inv(cfg, st1) && !st1.inStall && st1.phase == Playing
      && st1.played == st.played && st1.count == st.count && st1.deadlines == st.deadlines
  {
    if st.inStall {
      var e := PlayerEvent(now, STALL_END, 0, st.count);
      AppendKeepsPhaseLog(st, e);
      var st1 := CloseStall(cfg, st, now, st.count);
      assert st1.events == st.events + [e];
      assert PlayedInv(st1);
      assert PhaseInv(st1);
      assert StallInv(cfg, st1);
    }
  }

  /** Consuming a frame keeps the invariant. */
  lemma {:induction false} ConsumedKeepsInv(cfg: Config, st: PlayerState, now: real)
    requires Inv(cfg, st) && st.phase == Playing && st.played < cfg.total && !st.inStall && st.count > 0
    ensures Inv(cfg, Consumed(st, now, st.count - 1))
  {
    var e := PlayerEvent(now, CONSUME_FRAME, st.played + 1, st.count - 1);
    AppendKeepsPhaseLog(st, e);
    var st' := Consumed(st, now, st.count - 1);
    assert st'.events == st.events + [e];
    assert PlayedInv(st');
    assert PhaseInv(st');
    assert StallInv(cfg, st');
  }

  /** A playback turn on a non-empty buffer. */
  lemma {:induction false} PlayStepKeepsInv(cfg: Config, st: PlayerState, t: Tick)
    requires Inv(cfg, st) && st.phase == Playing && st.played < cfg.total && st.count != 0
    ensures Inv(cfg, Step(cfg, st, t))
  {
    CloseStallKeepsInv(cfg, st, t.now);
    var st1 := CloseStall(cfg, st, t.now, st.count);
    ConsumedKeepsInv(cfg, st1, t.now);
    var st2 := Consumed(st1, t.now, st.count - 1);
    ArriveBounds(st.count - 1, cfg.maxFrames, t.arrivals);
    assert Step(cfg, st, t) == st2.(count := Arrive(st.count - 1, cfg.maxFrames, t.arrivals));
  }

  /** An event appended after playback has started, other than a waiting
      event or a playback_start, leaves the shape of the log as it was. */
  lemma {:induction false} AppendKeepsPhaseLog(st: PlayerState, e: PlayerEvent)
    requires st.phase != Filling && e.event != WAITING && e.event != PLAYBACK_START
    requires var w := Count(st.events, WAITING);
      w < |st.events| && Count(st.events[..w], WAITING) == w && st.events[w].event == PLAYBACK_START
    ensures var events := st.events + [e]; var w := Count(events, WAITING);
      && w == Count(st.events, WAITING)
      && w < |events| && Count(events[..w], WAITING) == w && events[w].event == PLAYBACK_START
    ensures Count(st.events + [e], PLAYBACK_START) == Count(st.events, PLAYBACK_START)
    ensures Count(st.events + [e], PLAYBACK_END) == Count(st.events, PLAYBACK_END) + (if e.event == PLAYBACK_END then 1 else 0)
    ensures Count(st.events + [e], CONSUME_FAILED) == Count(st.events, CONSUME_FAILED) + (if e.event == CONSUME_FAILED then 1 else 0)
    ensures ConsumedFrames(st.events + [e]) == ConsumedFrames(st.events) + (if e.event == CONSUME_FRAME then [e.frame] else [])
    ensures StallMarks(st.events + [e]) ==
              StallMarks(st.events) + (if e.event == STALL_START then [true] else if e.event == STALL_END then [false] else [])
  {
    ViewsOfSnoc(st.events, e);
    CountOfSnoc(st.events, e, WAITING);
    CountOfSnoc(st.events, e, PLAYBACK_START);
    CountOfSnoc(st.events, e, PLAYBACK_END);
    CountOfSnoc(st.events, e, CONSUME_FAILED);
    var w := Count(st.events, WAITING);
    assert (st.events + [e])[..w] == st.events[..w];
  }

  /** Every turn keeps the invariant. */
  lemma {:induction false} StepKeepsInv(cfg: Config, st: PlayerState, t: Tick)
    requires Inv(cfg, st)
    ensures Inv(cfg, Step(cfg, st, t))
  {
    match st.phase
    case Filling => FillingStepKeepsInv(cfg, st, t);
    case Playing =>
      if st.played >= cfg.total {
        EndStepKeepsInv(cfg, st, t);
      } else if st.count == 0 {
        StallStepKeepsInv(cfg, st, t);
      } else {
        PlayStepKeepsInv(cfg, st, t);
      }
    case Finished =>
  }

  /** Every run from an empty buffer log and a non-negative count keeps
      the invariant. */
  lemma {:induction false} RunKeepsInv(cfg: Config, count: int, ticks: seq<Tick>)
    requires count >= 0
    ensures Inv(cfg, Run(cfg, Start(count), ticks))
    decreases |ticks|
  {
    if ticks == [] {
      StartInv(cfg, count);
    } else {
      RunKeepsInv(cfg, count, ticks[..|ticks| - 1]);
      StepKeepsInv(cfg, Run(cfg, Start(count), ticks[..|ticks| - 1]), ticks[|ticks| - 1]);
    }
  }

  // ---------------------------------------------------------------------
  // More about turns and runs
  // ---------------------------------------------------------------------

  /** Once playback has started the player never goes back to the initial
      fill, and start_ms stays fixed; once it has ended nothing changes. */
  lemma {:induction false} StartIsFixed(cfg: Config, st: PlayerState, t: Tick)
    requires st.phase != Filling
    ensures Step(cfg, st, t).phase != Filling && Step(cfg, st, t).startMs == st.startMs
    ensures st.phase == Finished ==> Step(cfg, st, t) == st
  {
  }

  /** While the buffer has not reached its bound, each turn of a run logs
      exactly one waiting event and nothing else. */
  lemma {:induction false} FillLogsOnePerTurn(cfg: Config, count: int, ticks: seq<Tick>)
    requires Run(cfg, Start(count), ticks).phase == Filling
    ensures var st := Run(cfg, Start(count), ticks);
      |st.events| == |ticks| && Count(st.events, WAITING) == |ticks|
    decreases |ticks|
  {
    if ticks != [] {
      var prev := Run(cfg, Start(count), ticks[..|ticks| - 1]);
      if prev.phase != Filling {
        StartIsFixed(cfg, prev, ticks[|ticks| - 1]);
      }
      FillLogsOnePerTurn(cfg, count, ticks[..|ticks| - 1]);
      var c := Arrive(prev.count, cfg.maxFrames, ticks[|ticks| - 1].arrivals);
      LogDuringFill(prev, PlayerEvent(ticks[|ticks| - 1].now, WAITING, 0, c));
    }
  }

  /** A turn of the initial fill logs the count read after its 1 ms
      sleep, so the frames that arrived during it are seen: the waiting
      event may carry the threshold itself. */
  lemma {:induction false} WaitingSeesArrivals(cfg: Config, st: PlayerState, t: Tick)
    requires st.phase == Filling && st.count < cfg.maxFrames
    ensures var c := Arrive(st.count, cfg.maxFrames, t.arrivals);
      Step(cfg, st, t) == st.(count := c, events := st.events + [PlayerEvent(t.now, WAITING, 0, c)])
  {
  }

  /** One frame arriving during the first sleep of a fill to one frame:
      the log is a waiting event with the full count, then playback_start. */
  lemma FillToOne(total: int, cap: int)
    ensures Run(Config(1, total, cap), Start(0), [Tick(1, 0.0), Tick(0, 1.0)]).events ==
            [PlayerEvent(0.0, WAITING, 0, 1), PlayerEvent(1.0, PLAYBACK_START, 0, 1)]
  {
    var cfg := Config(1, total, cap);
    assert Arrive(0, 1, 1) == 1 by {
      assert Arrive(0, 1, 0) == 0;
    }
    assert Arrive(1, 1, 0) == 1;
    assert [Tick(1, 0.0), Tick(0, 1.0)][..1] == [Tick(1, 0.0)];
    assert [Tick(1, 0.0)][..0] == [];
    var st1 := Run(cfg, Start(0), [Tick(1, 0.0)]);
    assert st1 == Step(cfg, Start(0), Tick(1, 0.0));
    assert st1.count == 1 && st1.phase == Filling;
  }

  /** A refused consume is not fatal: the player logs consume_failed with
      the count read after its 1 ms sleep, keeps played_frames and goes on
      playing. (No run from a buffer count of zero or more reaches it, by
      the invariant.) */
  lemma {:induction false} FailedConsumeGoesOn(cfg: Config, st: PlayerState, t: Tick)
    requires st.phase == Playing && st.played < cfg.total && !st.inStall && st.count < 0
    ensures var st' := Step(cfg, st, t);
      && st'.phase == Playing && st'.played == st.played && st'.deadlines == st.deadlines
      && st'.count == Arrive(st.count, cfg.maxFrames, t.arrivals)
      && st'.events == st.events + [PlayerEvent(t.now, CONSUME_FAILED, st.played, st'.count)]
  {
  }

  /** What a whole run promises: playback ends only once all total frames
      are played, with no stall open and one playback_end; the k-th
      consume_frame carries k and its deadline index is k-1; stall events
      alternate and every closed stall has a record while the log has
      room; and no consume fails. */
  lemma {:induction false} RunOutcome(cfg: Config, count: int, ticks: seq<Tick>)
    requires count >= 0
    ensures var st := Run(cfg, Start(count), ticks); var marks := StallMarks(st.events);
      && (st.phase == Finished ==>
            st.played == Max0(cfg.total) && !st.inStall && Count(st.events, PLAYBACK_END) == 1)
      && |ConsumedFrames(st.events)| == st.played == |st.deadlines|
      && NumberedFrom1(ConsumedFrames(st.events)) && NumberedFrom0(st.deadlines)
      && Alternating(marks) && |st.stalls| == Min(|marks| / 2, Max0(cfg.stallCapacity))
      && Count(st.events, CONSUME_FAILED) == 0
  {
    RunKeepsInv(cfg, count, ticks);
  }

  // ---------------------------------------------------------------------
  // The procedure
  // ---------------------------------------------------------------------

  /** The whole state: the player's variables, the buffer's count and the
      logger's events and stall records. */
  ghost function Whole(vars: PlayerVars, b: Buffer, l: Logger): PlayerState
    reads b, l, l.stallLogs
    requires l.Valid()
  {
    PlayerState(vars.phase, b.count, vars.played, vars.inStall, vars.stallStart, vars.startMs,
                l.playerEvents, l.Stalls(), vars.deadlines)
  }

  /** The download side's buffer_add calls during one turn's sleep. */
  method Arrivals(b: Buffer, n: nat)
    modifies b
    ensures b.count == Arrive(old(b.count), b.maxFrames, n) && b.maxFrames == old(b.maxFrames)
  {
    var k := 0;
    while k < n
      invariant k <= n && b.maxFrames == old(b.maxFrames)
      invariant b.count == Arrive(old(b.count), b.maxFrames, k)
    {
      var _ := Add(b);
      k := k + 1;
    }
  }

  /** One turn of simulate_player's loops, on the buffer and the logger. */
  method PlayerTurn(b: Buffer, l: Logger, total: int, vars: PlayerVars, t: Tick) returns (vars': PlayerVars)
    requires l.Valid() && l.playerEventCap > 0
    modifies b, l, l.stallLogs
    ensures l.Valid() && l.playerEventCap > 0 && l.stallLogs == old(l.stallLogs)
    ensures b.maxFrames == old(b.maxFrames) && l.stallCapacity == old(l.stallCapacity)
    ensures l.frameLogs == old(l.frameLogs) && l.frameSize == old(l.frameSize) && l.frameCapacity == old(l.frameCapacity)
    ensures Whole(vars', b, l) ==
            Step(Config(b.maxFrames, total, l.stallCapacity), old(Whole(vars, b, l)), t)
  {
    ghost var cfg := Config(b.maxFrames, total, l.stallCapacity);
    ghost var st := Whole(vars, b, l);
    vars' := vars;
    if vars.phase == Finished {
      return;
    }
    var c := b.count;
    if vars.phase == Filling {
      if c < b.maxFrames {
        Arrivals(b, t.arrivals);
        AddPlayerEvent(l, WAITING, 0, b.count, t.now);
      } else {
        vars' := vars'.(startMs := t.now, phase := Playing);
        AddPlayerEvent(l, PLAYBACK_START, 0, c, t.now);
        Arrivals(b, t.arrivals);
      }
    } else if vars.played >= total {
      AddPlayerEvent(l, PLAYBACK_END, 0, c, t.now);
      vars' := vars'.(phase := Finished);
    } else if c == 0 {
      if !vars.inStall {
        vars' := vars'.(stallStart := t.now, inStall := true);
        AddPlayerEvent(l, STALL_START, 0, c, t.now);
      }
      Arrivals(b, t.arrivals);
    } else {
      if vars.inStall {
        l.AddStall(vars.stallStart, t.now - vars.stallStart);
        vars' := vars'.(inStall := false);
        AddPlayerEvent(l, STALL_END, 0, c, t.now);
      }
      assert Whole(vars', b, l) == CloseStall(cfg, st, t.now, c);
      var rc := Consume(b);
      if rc == 0 {
        vars' := vars'.(deadlines := vars'.deadlines + [vars'.played], played := vars'.played + 1);
        AddPlayerEvent(l, CONSUME_FRAME, vars'.played, b.count, t.now);
        Arrivals(b, t.arrivals);
      } else {
        Arrivals(b, t.arrivals);
        AddPlayerEvent(l, CONSUME_FAILED, vars'.played, b.count, t.now);
      }
    }
  }

  /** simulate_player over a schedule of turns, with the buffer and the
      logger passed in (null when the source's argument is null, which
      ends it at once): after the turns, or after playback_end, the buffer
      and the logs are those of the run, from the logs as they stood. */
  method SimulatePlayer(b: Buffer?, l: Logger?, total: int, ticks: seq<Tick>)
    requires l != null ==> l.Valid() && l.playerEventCap > 0
    modifies b, l, if l != null then {l.stallLogs} else {}
    ensures b != null && l != null ==>
      var init := PlayerState(Filling, old(b.count), 0, false, 0.0, 0.0, old(l.playerEvents), old(l.Stalls()), []);
      var st := Run(Config(b.maxFrames, total, l.stallCapacity), init, ticks);
      && b.count == st.count && l.Valid() && l.playerEvents == st.events && l.Stalls() == st.stalls
    ensures b != null ==> b.maxFrames == old(b.maxFrames)
    ensures l != null ==>
      l.frameLogs == old(l.frameLogs) && l.frameSize == old(l.frameSize) && l.frameCapacity == old(l.frameCapacity)
    ensures b == null || l == null ==> (b != null ==> unchanged(b)) && (l != null ==> unchanged(l) && l.Stalls() == old(l.Stalls()))
  {
    if b == null || l == null {
      return;
    }
    ghost var cfg := Config(b.maxFrames, total, l.stallCapacity);
    ghost var init := Whole(PlayerVars(Filling, 0, false, 0.0, 0.0, []), b, l);
    var vars := PlayerVars(Filling, 0, false, 0.0, 0.0, []);
    var i := 0;
    while i < |ticks| && vars.phase != Finished
      invariant 0 <= i <= |ticks|
      invariant l.Valid() && l.playerEventCap > 0 && l.stallLogs == old(l.stallLogs)
      invariant cfg == Config(b.maxFrames, total, l.stallCapacity) && b.maxFrames == old(b.maxFrames)
      invariant l.frameLogs == old(l.frameLogs) && l.frameSize == old(l.frameSize) && l.frameCapacity == old(l.frameCapacity)
      invariant Whole(vars, b, l) == Run(cfg, init, ticks[..i])
    {
      vars := PlayerTurn(b, l, total, vars, ticks[i]);
      assert ticks[..i + 1][..i] == ticks[..i];
      i := i + 1;
    }
    RunAfterFinish(cfg, init, ticks, i);
  }

  /** Turns after playback_end change nothing. */
  lemma {:induction false} RunAfterFinish(cfg: Config, init: PlayerState, ticks: seq<Tick>, i: nat)
    requires i <= |ticks| && (i < |ticks| ==> Run(cfg, init, ticks[..i]).phase == Finished)
    ensures Run(cfg, init, ticks) == Run(cfg, init, ticks[..i])
    decreases |ticks| - i
  {
    if i < |ticks| {
      var st := Run(cfg, init, ticks[..i]);
      assert ticks[..i + 1][..i] == ticks[..i];
      StartIsFixed(cfg, st, ticks[i]);
      RunAfterFinish(cfg, init, ticks, i + 1);
    } else {
      assert ticks[..i] == ticks;
    }
  }
}
