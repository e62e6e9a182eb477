/**
 * The command queue of fronius.c (struct queue, fronius.c:143-149): a
 * circular buffer of QUEUESIZE command types with a top index (last
 * entry written) and a bottom index (last entry taken). processSocket
 * pushes (fronius.c:1121-1166) and main pops (fronius.c:352-358).
 *
 * QueueState and its functions are the queue as a value; CommandQueue is
 * the same code over the struct's fields, proved to follow them.
 */
module Queue {

  const QUEUESIZE: nat := 10

  /** enum CommandType (fronius.c:114-115); INVALID is the zero the global is initialised to. */
  datatype CommandType = Invalid | GetVersion | GetDevType | GetActiveInverters | GetVals | ActivateError

  /** The enum's integer values. */
  function CommandCode(c: CommandType): (n: int)
    ensures 0 <= n <= 6 && n != 3
    ensures n == 0 <==> c == Invalid
  {
    match c
    case Invalid => 0
    case GetVersion => 1
    case GetDevType => 2
    case GetActiveInverters => 4
    case GetVals => 5
    case ActivateError => 6
  }

  datatype QueueState = QueueState(top: int, bottom: int, types: seq<CommandType>)

  /** Both indices inside the buffer. */
  predicate QValid(q: QueueState)
  {
    |q.types| == QUEUESIZE && 0 <= q.top < QUEUESIZE && 0 <= q.bottom < QUEUESIZE
  }

  const EmptyQueue: QueueState := QueueState(0, 0, seq(QUEUESIZE, _ => Invalid))

  /** An index incremented and wrapped at QUEUESIZE. */
  function Advance(i: int): (j: int)
    requires 0 <= i < QUEUESIZE
    ensures 0 <= j < QUEUESIZE && j == (i + 1) % QUEUESIZE
  {
    if i + 1 == QUEUESIZE then 0 else i + 1
  }

  /** main's test for a queued command: top != bottom. */
  predicate Empty(q: QueueState)
  {
    q.top == q.bottom
  }

  /** Number of entries between bottom (exclusive) and top (inclusive). */
  function Length(q: QueueState): (n: nat)
    requires QValid(q)
    ensures n < QUEUESIZE
    ensures n == 0 <==> Empty(q)
  {
    (q.top - q.bottom) % QUEUESIZE
  }

  /** The queued commands, oldest first. */
  function Contents(q: QueueState): (c: seq<CommandType>)
    requires QValid(q)
    ensures |c| == Length(q)
  {
    seq(Length(q), k requires 0 <= k < Length(q) => q.types[(q.bottom + 1 + k) % QUEUESIZE])
  }

  /** What processSocket's push did with a command. */
  datatype PushResult = Queued | Full | UnknownUndone

  /**
   * processSocket's push: top is incremented and wrapped first; if it then
   * equals bottom the command is dropped and top is NOT restored; otherwise
   * a known command is written at top, and an unknown one (None) undoes
   * the increment, clamping at 0 instead of wrapping back.
   */
  function Push(q: QueueState, c: Option<CommandType>): (r: (QueueState, PushResult))
    requires QValid(q)
    ensures QValid(r.0) && r.0.bottom == q.bottom
  {
    var t := Advance(q.top);
    if t == q.bottom then (q.(top := t), Full)
    else match c
      case Some(x) => (q.(top := t, types := q.types[t := x]), Queued)
      case None => (q.(top := if t - 1 < 0 then 0 else t - 1), UnknownUndone)
  }

  /** main's pop: bottom is incremented and wrapped, then the entry there is taken. */
  function Pop(q: QueueState): (r: (QueueState, CommandType))
    requires QValid(q) && !Empty(q)
    ensures QValid(r.0) && r.0.top == q.top && r.0.types == q.types
  {
    var b := Advance(q.bottom);
    (q.(bottom := b), q.types[b])
  }

  datatype Option<T> = None | Some(value: T)

  /** Pushing a known command onto a queue of fewer than nine entries appends it. */
  lemma PushAppends(q: QueueState, c: CommandType)
    requires QValid(q) && Length(q) < QUEUESIZE - 1
    ensures Push(q, Some(c)).1 == Queued
    ensures Contents(Push(q, Some(c)).0) == Contents(q) + [c]
  {
    var r := Push(q, Some(c)).0;
    var t := Advance(q.top);
    assert Length(r) == Length(q) + 1;
    forall k | 0 <= k < Length(q)
      ensures Contents(r)[k] == Contents(q)[k]
    {
      PositionBeforeTop(q, k);
    }
    assert (q.bottom + 1 + Length(q)) % QUEUESIZE == t;
  }

  /** An entry that is already queued does not sit at the slot after top. */
  lemma PositionBeforeTop(q: QueueState, k: nat)
    requires QValid(q) && k < Length(q) && Length(q) < QUEUESIZE - 1
    ensures (q.bottom + 1 + k) % QUEUESIZE != Advance(q.top)
  {
  }

  /**
   * Pushing anything onto a queue holding nine entries drops the command
   * and leaves top equal to bottom: afterwards the queue reads as empty,
   * so the nine queued commands are lost as well.
   */
  lemma PushOnFullQueueEmptiesIt(q: QueueState, c: Option<CommandType>)
    requires QValid(q) && Length(q) == QUEUESIZE - 1
    ensures Push(q, c).1 == Full
    ensures Empty(Push(q, c).0) && Contents(Push(q, c).0) == []
  {
  }

  /** Under nine entries the push never reports Full. */
  lemma PushFullOnlyWhenNineQueued(q: QueueState, c: Option<CommandType>)
    requires QValid(q)
    ensures Push(q, c).1 == Full <==> Length(q) == QUEUESIZE - 1
  {
  }

  /** An unknown command leaves the queue as it was, unless top was 9. */
  lemma PushUnknownUndone(q: QueueState)
    requires QValid(q) && Length(q) < QUEUESIZE - 1 && q.top < QUEUESIZE - 1
    ensures Push(q, None) == (q, UnknownUndone)
  {
  }

  /**
   * With top at 9 the increment wraps to 0 and the undo clamps at 0, so an
   * unknown command leaves a phantom entry: whatever type was stored in
   * slot 0 is queued.
   */
  lemma PushUnknownAfterWrapQueuesSlotZero(q: QueueState)
    requires QValid(q) && Length(q) < QUEUESIZE - 1 && q.top == QUEUESIZE - 1
    ensures Push(q, None).1 == UnknownUndone
    ensures Contents(Push(q, None).0) == Contents(q) + [q.types[0]]
  {
    var r := Push(q, None).0;
    assert r.top == 0 && r.types == q.types;
    assert Length(r) == Length(q) + 1;
    forall k | 0 <= k < Length(q)
      ensures Contents(r)[k] == Contents(q)[k]
    {
    }
    assert (q.bottom + 1 + Length(q)) % QUEUESIZE == 0;
  }

  /** Popping takes the oldest entry and leaves the rest in order. */
  lemma PopTakesOldest(q: QueueState)
    requires QValid(q) && !Empty(q)
    ensures Pop(q).1 == Contents(q)[0]
    ensures Contents(Pop(q).0) == Contents(q)[1..]
  {
    var r := Pop(q).0;
    assert Length(r) == Length(q) - 1;
    forall k | 0 <= k < Length(r)
      ensures Contents(r)[k] == Contents(q)[1..][k]
    {
      assert (r.bottom + 1 + k) % QUEUESIZE == (q.bottom + 1 + (k + 1)) % QUEUESIZE;
    }
  }

  /** The struct queue and its two index updates, over a fixed array of types. */
  class CommandQueue {
    var top: int
    var bottom: int
    const types: array<CommandType>

    ghost predicate Valid()
      reads this
    {
      types.Length == QUEUESIZE && 0 <= top < QUEUESIZE && 0 <= bottom < QUEUESIZE
    }

    ghost function State(): QueueState
      reads this, types
    {
      QueueState(top, bottom, types[..])
    }

    /** queue.top = queue.bottom = 0 over the zero-initialised global (fronius.c:283). */
    constructor ()
      ensures Valid() && fresh(types) && State() == EmptyQueue
    {
      top := 0;
      bottom := 0;
      types := new CommandType[QUEUESIZE](_ => Invalid);
      new;
      assert types[..] == seq(QUEUESIZE, _ => Invalid);
    }

    method IsEmpty() returns (e: bool)
      requires Valid()
      ensures e == Empty(State())
    {
      e := top == bottom;
    }

    /** The push of processSocket (fronius.c:1121-1166). */
    method Enqueue(c: Option<CommandType>) returns (res: PushResult)
      requires Valid()
      modifies this, types
      ensures Valid()
      ensures (State(), res) == Push(old(State()), c)
    {
      top := top + 1;
      if top == QUEUESIZE {
        top := 0;
      }
      if top == bottom {
        return Full;
      }
      match c
      case Some(x) =>
        types[top] := x;
        res := Queued;
      case None =>
        top := top - 1;
        if top < 0 {
          top := 0;
        }
        res := UnknownUndone;
    }

    /** The pop of main (fronius.c:352-358); main only pops when top != bottom. */
    method Dequeue() returns (c: CommandType)
      requires Valid() && !Empty(State())
      modifies this
      ensures Valid()
      ensures (State(), c) == Pop(old(State()))
    {
      bottom := bottom + 1;
      if bottom == QUEUESIZE {
        bottom := 0;
      }
      c := types[bottom];
    }
  }
}
