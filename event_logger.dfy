/** The logger (Streaming-Client/build/src/logger.c): two fixed-capacity
    logs, one record per decoded frame and one per stall, which drop new
    records once full, and a list of player events that doubles its
    capacity whenever it fills. Timestamps come from the monotonic clock,
    which is a parameter here. */
module EventLogger {
  /** The player-event list's capacity after logger_init. */
  const INITIAL_EVENT_CAPACITY: int := 128

  datatype FrameLog = FrameLog(frameNo: int, downloadMs: real, decryptMs: real, bufferCount: int, timestampMs: real)

  datatype StallLog = StallLog(startMs: real, durationMs: real)

  /** One player event: the fields the source formats into a line. */
  datatype PlayerEvent = PlayerEvent(timestampMs: real, event: string, frame: int, bufferCount: int)

  // ---------------------------------------------------------------------
  // The bounded logs, as values
  // ---------------------------------------------------------------------

  /** A bounded log after one more record: the record is kept while the
      log has room and dropped once it holds capacity records. */
  function Appended<T>(entries: seq<T>, capacity: int, e: T): seq<T>
  {
    if |entries| >= capacity then entries else entries + [e]
  }

  /** A bounded log after a run of records, added one at a time. */
  function AppendedAll<T>(entries: seq<T>, capacity: int, es: seq<T>): seq<T>
    decreases |es|
  {
    if es == [] then entries else Appended(AppendedAll(entries, capacity, es[..|es| - 1]), capacity, es[|es| - 1])
  }

  /** A bounded log keeps the first records it was given and drops the
      rest: it holds the first capacity of all the records ever added, and
      never more than capacity. */
  lemma {:induction false} BoundedLogKeepsFirst<T>(entries: seq<T>, capacity: int, es: seq<T>)
    requires |entries| <= capacity
    ensures var all := entries + es;
      AppendedAll(entries, capacity, es) == all[..if |all| <= capacity then |all| else capacity]
    decreases |es|
  {
    if es != [] {
      var init := es[..|es| - 1];
      BoundedLogKeepsFirst(entries, capacity, init);
      var all, all' := entries + es, entries + init;
      assert all' == all[..|all| - 1];
      assert all[|all| - 1] == es[|es| - 1];
      if |all'| < capacity {
        assert all'[..|all'|] + [es[|es| - 1]] == all[..|all|];
      } else {
        assert all'[..capacity] == all[..capacity];
      }
    }
  }

  /** The capacity of the player-event list after one more event, when it
      holds count events: doubled if full. */
  function Grown(count: int, capacity: int): int
  {
    if count >= capacity then capacity * 2 else capacity
  }

  /** The capacity after n events, starting from capacity c and no events. */
  function CapacityAfter(n: nat, c: int): int
  {
    if n == 0 then c else Grown(n - 1, CapacityAfter(n - 1, c))
  }

  /** From a positive capacity, the list always has room for the events it
      holds, and it is either still at its first capacity or less than
      twice as large as needed. */
  lemma {:induction false} CapacityTracksCount(n: nat, c: int)
    requires c > 0
    ensures var cap := CapacityAfter(n, c);
      cap > 0 && n <= cap && (cap == c || cap < 2 * n)
  {
    if n > 0 {
      CapacityTracksCount(n - 1, c);
    }
  }

  // ---------------------------------------------------------------------
  // The logger object
  // ---------------------------------------------------------------------

  /** Logger: the two record arrays with their sizes and capacities, and
      the player events with their count and capacity. */
  class Logger {
    var frameCapacity: int
    var stallCapacity: int
    var frameLogs: array<FrameLog>
    var frameSize: int
    var stallLogs: array<StallLog>
    var stallSize: int
    var playerEvents: seq<PlayerEvent>
    var playerEventCount: int
    var playerEventCap: int

    /** Each log holds at most its capacity, and the event list holds
        playerEventCount events within its capacity. */
    ghost predicate Valid()
      reads this
    {
      && frameLogs.Length == frameCapacity && 0 <= frameSize <= frameCapacity
      && stallLogs.Length == stallCapacity && 0 <= stallSize <= stallCapacity
      && |playerEvents| == playerEventCount <= playerEventCap
    }

    /** The frame records, oldest first. */
    ghost function Frames(): seq<FrameLog>
      reads this, frameLogs
      requires Valid()
    {
      frameLogs[..frameSize]
    }

    /** The stall records, oldest first. */
    ghost function Stalls(): seq<StallLog>
      reads this, stallLogs
      requires Valid()
    {
      stallLogs[..stallSize]
    }

    /** logger_init: empty logs of the given capacities and an empty event
        list of capacity 128. */
    constructor (frameCap: int, stallCap: int)
      requires frameCap >= 0 && stallCap >= 0
      ensures Valid() && fresh(frameLogs) && fresh(stallLogs)
      ensures frameCapacity == frameCap && stallCapacity == stallCap
      ensures Frames() == [] && Stalls() == []
      ensures playerEvents == [] && playerEventCount == 0 && playerEventCap == INITIAL_EVENT_CAPACITY
    {
      frameCapacity := frameCap;
      stallCapacity := stallCap;
      frameLogs := new FrameLog[frameCap];
      frameSize := 0;
      stallLogs := new StallLog[stallCap];
      stallSize := 0;
      playerEventCap := INITIAL_EVENT_CAPACITY;
      playerEvents := [];
      playerEventCount := 0;
    }

    /** logger_add_frame: the record is written at frameSize unless the log
        is full; earlier records and the other logs stay as they were. */
    method AddFrame(f: int, d: real, dec: real, buf: int, now: real)
      requires Valid()
      modifies this, frameLogs
      ensures Valid() && frameLogs == old(frameLogs) && frameCapacity == old(frameCapacity)
      ensures Frames() == Appended(old(Frames()), frameCapacity, FrameLog(f, d, dec, buf, now))
      ensures stallLogs == old(stallLogs) && stallSize == old(stallSize) && stallCapacity == old(stallCapacity)
      ensures playerEvents == old(playerEvents) && playerEventCount == old(playerEventCount)
      ensures playerEventCap == old(playerEventCap)
    {
      if frameSize >= frameCapacity {
        return;
      }
      frameLogs[frameSize] := FrameLog(f, d, dec, buf, now);
      frameSize := frameSize + 1;
    }

    /** logger_add_stall: the same, on the stall log. */
    method AddStall(start: real, dur: real)
      requires Valid()
      modifies this, stallLogs
      ensures Valid() && stallLogs == old(stallLogs) && stallCapacity == old(stallCapacity)
      ensures Stalls() == Appended(old(Stalls()), stallCapacity, StallLog(start, dur))
      ensures frameLogs == old(frameLogs) && frameSize == old(frameSize) && frameCapacity == old(frameCapacity)
      ensures playerEvents == old(playerEvents) && playerEventCount == old(playerEventCount)
      ensures playerEventCap == old(playerEventCap)
    {
      if stallSize >= stallCapacity {
        return;
      }
      stallLogs[stallSize] := StallLog(start, dur);
      stallSize := stallSize + 1;
    }

    /** logger_flush_player with the file's opening as a parameter: the
        events are handed out, oldest first, and the list is emptied down
        to capacity 0; when the file cannot be opened nothing changes. */
    method FlushPlayer(fileOpened: bool) returns (written: seq<PlayerEvent>)
      requires Valid()
      modifies this
      ensures Valid()
      ensures fileOpened ==> written == old(playerEvents) && playerEvents == [] && playerEventCount == 0 && playerEventCap == 0
      ensures !fileOpened ==>
                written == [] && playerEvents == old(playerEvents) && playerEventCount == old(playerEventCount) &&
                playerEventCap == old(playerEventCap)
      ensures frameLogs == old(frameLogs) && frameSize == old(frameSize) && frameCapacity == old(frameCapacity)
      ensures stallLogs == old(stallLogs) && stallSize == old(stallSize) && stallCapacity == old(stallCapacity)
    {
      if !fileOpened {
        return [];
      }
      written := playerEvents;
      playerEvents := [];
      playerEventCount := 0;
      playerEventCap := 0;
    }
  }

  /** logger_add_player_event: nothing for a null logger; otherwise the
      capacity is doubled if the list is full and the event joins the end.
      The list needs a positive capacity: after a flush it is 0, doubling
      leaves it 0 and the source would write past the end. */
  method AddPlayerEvent(l: Logger?, event: string, frame: int, bufCount: int, now: real)
    requires l != null ==> l.Valid() && l.playerEventCap > 0
    modifies l
    ensures l != null ==> l.Valid() && l.playerEventCap > 0
    ensures l != null ==> l.playerEvents == old(l.playerEvents) + [PlayerEvent(now, event, frame, bufCount)]
    ensures l != null ==> l.playerEventCount == old(l.playerEventCount) + 1
    ensures l != null ==> l.playerEventCap == Grown(old(l.playerEventCount), old(l.playerEventCap))
    ensures l != null ==> l.frameLogs == old(l.frameLogs) && l.frameSize == old(l.frameSize) && l.frameCapacity == old(l.frameCapacity)
    ensures l != null ==> l.stallLogs == old(l.stallLogs) && l.stallSize == old(l.stallSize) && l.stallCapacity == old(l.stallCapacity)
  {
    if l == null {
      return;
    }
    if l.playerEventCount >= l.playerEventCap {
      l.playerEventCap := l.playerEventCap * 2;
    }
    l.playerEvents := l.playerEvents + [PlayerEvent(now, event, frame, bufCount)];
    l.playerEventCount := l.playerEventCount + 1;
  }
}
