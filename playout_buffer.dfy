/** The playout buffer (Streaming-Client/build/src/buffer.c): a count of
    decoded frames waiting to be played, bounded by seconds * fps. Adding
    to a full buffer and consuming from an empty one are refused with -1;
    a null buffer is refused with -2. */
module PlayoutBuffer {
  const REFUSED: int := -1
  const NULL_BUFFER: int := -2

  /** The outcome of buffer_add on a buffer holding count of maxFrames
      frames: the return code and the new count. The add succeeds exactly
      when there is room, and then adds one frame; a refused add changes
      nothing. */
  function AddStep(count: int, maxFrames: int): (r: (int, int))
    ensures r.0 == 0 || r.0 == REFUSED
    ensures r.0 == REFUSED <==> count >= maxFrames
    ensures r.1 == (if r.0 == 0 then count + 1 else count)
  {
    if count >= maxFrames then (REFUSED, count) else (0, count + 1)
  }

  /** The outcome of buffer_consume on a buffer holding count frames. The
      consume succeeds exactly when a frame is there, and then removes it;
      a refused consume changes nothing. */
  function ConsumeStep(count: int): (r: (int, int))
    ensures r.0 == 0 || r.0 == REFUSED
    ensures r.0 == REFUSED <==> count <= 0
    ensures r.1 == (if r.0 == 0 then count - 1 else count)
  {
    if count <= 0 then (REFUSED, count) else (0, count - 1)
  }

  /** A buffer holds between none and maxFrames frames. */
  predicate Bounded(count: int, maxFrames: int)
  {
    0 <= count <= maxFrames
  }

  /** Both operations keep the count within its bounds. */
  lemma {:induction false} StepsKeepBounds(count: int, maxFrames: int)
    requires Bounded(count, maxFrames)
    ensures Bounded(AddStep(count, maxFrames).1, maxFrames)
    ensures Bounded(ConsumeStep(count).1, maxFrames)
  {
  }

  /** A successful add followed by a consume leaves the count as it was,
      and so does a successful consume followed by an add. */
  lemma {:induction false} AddThenConsumeRestores(count: int, maxFrames: int)
    requires Bounded(count, maxFrames)
    ensures AddStep(count, maxFrames).0 == 0 ==>
              ConsumeStep(AddStep(count, maxFrames).1) == (0, count)
    ensures ConsumeStep(count).0 == 0 ==>
              AddStep(ConsumeStep(count).1, maxFrames) == (0, count)
  {
  }

  /** Buffer: the bound and the number of frames held. */
  class Buffer {
    var maxFrames: int
    var count: int

    /** buffer_init: an empty buffer of seconds * fps frames. */
    constructor (seconds: int, fps: int)
      ensures maxFrames == seconds * fps && count == 0
    {
      maxFrames := seconds * fps;
      count := 0;
    }
  }

  /** buffer_add: the return code and the new count are those of AddStep;
      -2 and no change for a null buffer. */
  method Add(b: Buffer?) returns (rc: int)
    modifies b
    ensures b == null ==> rc == NULL_BUFFER
    ensures b != null ==> (rc, b.count) == AddStep(old(b.count), b.maxFrames) && b.maxFrames == old(b.maxFrames)
  {
    if b == null {
      return NULL_BUFFER;
    }
    if b.count >= b.maxFrames {
      return REFUSED;
    }
    b.count := b.count + 1;
    rc := 0;
  }

  /** buffer_consume: the return code and the new count are those of
      ConsumeStep; -2 and no change for a null buffer. */
  method Consume(b: Buffer?) returns (rc: int)
    modifies b
    ensures b == null ==> rc == NULL_BUFFER
    ensures b != null ==> (rc, b.count) == ConsumeStep(old(b.count)) && b.maxFrames == old(b.maxFrames)
  {
    if b == null {
      return NULL_BUFFER;
    }
    if b.count <= 0 {
      return REFUSED;
    }
    b.count := b.count - 1;
    rc := 0;
  }
}
