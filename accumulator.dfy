/**
 * The per-byte inbound frame accumulator of processComm (fronius.c:610-719).
 * main no longer calls it (the call at fronius.c:448 is commented out), but
 * it is the byte-level statement of the framing rules: three sync bytes, a
 * length byte of at most MAXINVERTERS, completion at LEN + 8 bytes and the
 * checksum over bytes [3, LEN + 7).
 *
 * Step is the accumulator as a function of its abstract state (the bytes
 * buffered so far and staticInfo.responseLength); SerialAccumulator is the
 * same code over the global buffer, proved to follow Step.
 */
module Accumulator {
  import opened Wire

  /** What one call of processComm did with the byte it was given. */
  datatype AccEvent =
    | Continue                           // byte buffered, frame not yet complete
    | Overflow                           // buffer full: frame discarded; see Step
    | SyncDropped(position: nat, got: byte)  // not 0x80 at positions 0-2: byte dropped
    | LengthRejected(length: byte)       // length byte above MAXINVERTERS
    | ChecksumFailed                     // complete frame with a bad checksum
    | Complete(frame: seq<byte>)         // complete frame handed on (to processPacket)

  /** serialbuf[..serbufindex] and staticInfo.responseLength. */
  datatype AccState = AccState(pending: seq<byte>, responseLength: byte)

  const Idle: AccState := AccState([], 0)

  /**
   * The state processComm keeps between calls: the first three buffered
   * bytes are sync bytes; once the length byte is buffered it is the
   * recorded response length, at most MAXINVERTERS, and the frame is still
   * short of its LEN + 8 bytes.
   */
  ghost predicate AccValid(s: AccState)
  {
    (forall i | 0 <= i < |s.pending| && i < 3 :: s.pending[i] == SYNC) &&
    (|s.pending| >= 4 ==>
       s.pending[3] == s.responseLength && s.responseLength as int <= MAXINVERTERS &&
       |s.pending| < s.responseLength as int + 8)
  }

  /**
   * One call of processComm on the byte b. On a full buffer the C code
   * returns before reading, so the byte would be read by the next call;
   * here it counts as consumed. No AccValid state reaches that branch
   * (the third ensures), so Feed from a valid state never skips a byte.
   */
  function Step(s: AccState, b: byte): (r: (AccState, AccEvent))
    ensures AccValid(s) ==> AccValid(r.0)
    ensures AccValid(s) ==> |r.0.pending| < s.responseLength as int + 8 || |r.0.pending| <= 3
    ensures AccValid(s) ==> r.1 != Overflow && |r.0.pending| <= MAXINVERTERS + 7
    ensures AccValid(s) && r.1.Complete? ==> WellFormed(r.1.frame) && r.1.frame[3] as int <= MAXINVERTERS
    ensures !r.1.Continue? ==> r.0.pending == []
  {
    if |s.pending| + 1 == BUFSIZE then (AccState([], s.responseLength), Overflow)
    else EndOfFrame(Buffer(s, b))
  }

  /** The per-position checks of fronius.c:664-701. */
  function Buffer(s: AccState, b: byte): (AccState, AccEvent)
  {
    var pos := |s.pending|;
    if pos <= 2 then
      (if b != SYNC then (AccState([], s.responseLength), SyncDropped(pos, b))
       else (AccState(s.pending + [b], s.responseLength), Continue))
    else if pos == 3 then
      (if b as int > MAXINVERTERS then (AccState([], b), LengthRejected(b))
       else (AccState(s.pending + [b], b), Continue))
    else (AccState(s.pending + [b], s.responseLength), Continue)
  }

  /** The end-of-frame test and checksum of fronius.c:703-717. */
  function EndOfFrame(next: (AccState, AccEvent)): (AccState, AccEvent)
  {
    var p, rl := next.0.pending, next.0.responseLength as int;
    if |p| == rl + 8 then
      (AccState([], next.0.responseLength),
       if Checksum(p[3..rl + 7]) == p[rl + 7] then Complete(p) else ChecksumFailed)
    else next
  }

  /** processComm called once per byte of a stream, collecting the events. */
  function Feed(s: AccState, bytes: seq<byte>): (r: (AccState, seq<AccEvent>))
    ensures |r.1| == |bytes|
    ensures AccValid(s) ==> AccValid(r.0)
    decreases |bytes|
  {
    if bytes == [] then (s, [])
    else
      var before := Feed(s, bytes[..|bytes| - 1]);
      var after := Step(before.0, bytes[|bytes| - 1]);
      (after.0, before.1 + [after.1])
  }

  function Continues(n: nat): (r: seq<AccEvent>)
    ensures |r| == n && forall i | 0 <= i < n :: r[i] == Continue
  {
    seq(n, _ => Continue)
  }

  /**
   * A well-formed frame whose length byte is at most MAXINVERTERS, fed
   * into an idle accumulator, is buffered byte by byte and handed on whole
   * at its last byte, and the accumulator is idle again.
   */
  lemma {:induction false} FrameAccepted(f: seq<byte>, rl: byte)
    requires WellFormed(f) && f[3] as int <= MAXINVERTERS
    ensures Feed(AccState([], rl), f) == (AccState([], f[3]), Continues(|f| - 1) + [Complete(f)])
  {
    var n := |f|;
    FramePrefix(f, rl, n - 1);
    assert f[..n] == f;
    assert f[..n][..n - 1] == f[..n - 1];
    assert f[..n - 1] + [f[n - 1]] == f;
  }

  /** Every proper prefix of such a frame is buffered without any event but Continue. */
  lemma {:induction false} FramePrefix(f: seq<byte>, rl: byte, k: nat)
    requires WellFormed(f) && f[3] as int <= MAXINVERTERS && k < |f|
    ensures Feed(AccState([], rl), f[..k]) == (AccState(f[..k], if k <= 3 then rl else f[3]), Continues(k))
  {
    if k > 0 {
      FramePrefix(f, rl, k - 1);
      assert f[..k][..k - 1] == f[..k - 1];
      assert f[..k - 1] + [f[k - 1]] == f[..k];
      assert Continues(k - 1) + [Continue] == Continues(k);
      StepBuffers(AccState(f[..k - 1], if k - 1 <= 3 then rl else f[3]), f[k - 1]);
    }
  }

  /** A byte other than 0x80 at positions 0-2 empties the buffer and is itself dropped, not re-examined. */
  lemma SyncMismatchDropped(s: AccState, b: byte)
    requires AccValid(s) && |s.pending| <= 2 && b != SYNC
    ensures Step(s, b) == (AccState([], s.responseLength), SyncDropped(|s.pending|, b))
  {
  }

  /** A length byte above MAXINVERTERS empties the buffer. */
  lemma LengthAboveMaxRejected(s: AccState, b: byte)
    requires AccValid(s) && |s.pending| == 3 && b as int > MAXINVERTERS
    ensures Step(s, b) == (AccState([], b), LengthRejected(b))
  {
  }

  /** Whenever a byte is simply buffered the buffer grows by exactly that byte. */
  lemma ContinueAppendsOne(s: AccState, b: byte)
    requires AccValid(s) && Step(s, b).1 == Continue
    ensures Step(s, b).0.pending == s.pending + [b]
  {
  }

  /**
   * The byte that brings the buffer to LEN + 8 ends the frame either way:
   * the buffer is emptied, and the frame is handed on exactly when its
   * checksum over bytes [3, LEN + 7) is right.
   */
  lemma LastByteEndsFrame(s: AccState, b: byte)
    requires AccValid(s) && |s.pending| >= 4 && |s.pending| + 1 == s.responseLength as int + 8
    ensures Step(s, b).0.pending == []
    ensures Step(s, b).1 == Complete(s.pending + [b]) || Step(s, b).1 == ChecksumFailed
    ensures Step(s, b).1.Complete? <==> ChecksumOk(s.pending + [b])
  {
    var p := s.pending + [b];
    assert p[3] == s.responseLength;
  }

  /** A byte that is neither a bad sync byte, a bad length byte nor the last of its frame is buffered. */
  lemma StepBuffers(s: AccState, b: byte)
    requires |s.pending| + 1 < BUFSIZE
    requires |s.pending| <= 2 ==> b == SYNC
    requires |s.pending| == 3 ==> b as int <= MAXINVERTERS
    requires |s.pending| + 1 != (if |s.pending| == 3 then b else s.responseLength) as int + 8
    ensures Step(s, b) == (AccState(s.pending + [b], if |s.pending| == 3 then b else s.responseLength), Continue)
  {
  }

  /** The same code over the global buffer serialbuf and its index serbufindex. */
  class SerialAccumulator {
    var serialbuf: array<byte>
    var serbufindex: nat
    var responseLength: byte

    ghost predicate Valid()
      reads this
    {
      serialbuf.Length == BUFSIZE && serbufindex < BUFSIZE
    }

    ghost function State(): AccState
      reads this, serialbuf
      requires Valid()
    {
      AccState(serialbuf[..serbufindex], responseLength)
    }

    constructor ()
      ensures Valid() && fresh(serialbuf) && State() == Idle
    {
      serialbuf := new byte[BUFSIZE];
      serbufindex := 0;
      responseLength := 0;
    }

    /** processComm with the byte that read() returned passed in. */
    method Ingest(b: byte) returns (ev: AccEvent)
      requires Valid()
      modifies this, serialbuf
      ensures Valid() && serialbuf == old(serialbuf)
      ensures (State(), ev) == Step(old(State()), b)
    {
      if serbufindex + 1 == BUFSIZE {
        serbufindex := 0;
        return Overflow;
      }
      ev := BufferByte(b);
      ev := EndOfFrameCheck(ev);
    }

    /** The byte is stored at serbufindex and checked against its position (fronius.c:664-701). */
    method BufferByte(b: byte) returns (ev: AccEvent)
      requires Valid() && serbufindex + 1 < BUFSIZE
      modifies this, serialbuf
      ensures Valid() && serialbuf == old(serialbuf)
      ensures (State(), ev) == Buffer(old(State()), b)
    {
      ghost var before := serialbuf[..serbufindex];
      serialbuf[serbufindex] := b;
      assert serialbuf[..serbufindex + 1] == before + [b];
      var thischar := serialbuf[serbufindex];
      ev := Continue;
      if serbufindex <= 2 {
        if thischar != SYNC {
          ev := SyncDropped(serbufindex, thischar);
          serbufindex := 0;
        } else {
          serbufindex := serbufindex + 1;
        }
      } else if serbufindex == 3 {
        responseLength := thischar;
        if thischar as int > MAXINVERTERS {
          ev := LengthRejected(thischar);
          serbufindex := 0;
        } else {
          serbufindex := serbufindex + 1;
        }
      } else {
        serbufindex := serbufindex + 1;
      }
    }

    /** At LEN + 8 bytes the frame is checked and the index returns to 0 (fronius.c:703-717). */
    method EndOfFrameCheck(ev0: AccEvent) returns (ev: AccEvent)
      requires Valid()
      modifies this
      ensures Valid() && serialbuf == old(serialbuf)
      ensures (State(), ev) == EndOfFrame((old(State()), ev0))
    {
      ev := ev0;
      if serbufindex == responseLength as int + 8 {
        ghost var p := serialbuf[..serbufindex];
        var checksum := SumRange(serialbuf, 3, responseLength as int + 7);
        assert p[3..responseLength as int + 7] == serialbuf[3..responseLength as int + 7];
        if LowByte(checksum) != serialbuf[serbufindex - 1] {
          ev := ChecksumFailed;
          serbufindex := 0;
          return;
        }
        ev := Complete(serialbuf[..serbufindex]);
        serbufindex := 0;
      }
    }
  }

  /** The checksum-summing loop of fronius.c:706-707 and 789-790. */
  method SumRange(buf: array<byte>, from: nat, to: nat) returns (sum: int)
    requires from <= to <= buf.Length
    ensures sum == Sum(buf[from..to])
  {
    sum := 0;
    var i := from;
    while i < to
      invariant from <= i <= to
      invariant sum == Sum(buf[from..i])
    {
      assert buf[from..i + 1] == buf[from..i] + [buf[i]];
      SumSnoc(buf[from..i], buf[i]);
      sum := sum + buf[i] as int;
      i := i + 1;
    }
  }
}
