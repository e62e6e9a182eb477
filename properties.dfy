/**
 * Properties of the bridge's operations that relate several calls or
 * several functions: outbound frames against the inbound check, what the
 * validation ignores, the GetVals sweep, the idle alternation and the
 * round robin, discovery, the error-activation machine and the queue as
 * the control channel sees it.
 */
module Properties {
  import opened Wire
  import opened Frames
  import opened Decoding
  import opened Sanity
  import opened Queue
  import opened Bridge
  import opened Findings

  // ---------------------------------------------------------------
  // Framing: outbound against inbound
  // ---------------------------------------------------------------

  /** A well-formed frame passes processPacket's validation with a good header. */
  lemma WellFormedAccepted(f: seq<byte>)
    requires WellFormed(f)
    ensures Validate(f) == Accepted(true)
  {
    assert At(f, 3) == f[3];
  }

  /** Every frame main sends would pass the inbound validation. */
  lemma SentFramesPassInboundCheck(s: BridgeState, servers: int)
    requires Consistent(s) && 1 <= servers <= MAXINVERTERS
    ensures PrepareNext(s, servers).1.Frame? ==>
      WellFormed(PrepareNext(s, servers).1.bytes) && Validate(PrepareNext(s, servers).1.bytes) == Accepted(true)
  {
    var sent := PrepareNext(s, servers).1;
    if sent.Frame? {
      WellFormedAccepted(sent.bytes);
    }
  }

  /**
   * For a buffer long enough for its length byte, validation accepts it
   * exactly when its first LEN + 8 bytes carry a correct checksum: bytes
   * after the frame are never looked at.
   */
  lemma AcceptedIffFrameChecksumOk(msg: seq<byte>)
    requires |msg| >= At(msg, 3) as int + 8
    ensures Validate(msg).Accepted? <==> ChecksumOk(msg[..At(msg, 3) as int + 8])
  {
    var n := At(msg, 3) as int + 8;
    var f := msg[..n];
    assert f[3] == msg[3];
    assert f[3..n - 1] == msg[3..n - 1];
  }

  /** Changing a data or checksum byte of a well-formed frame gets it dropped, leaving the state alone. */
  lemma CorruptedFrameDropped(s: BridgeState, servers: int, f: seq<byte>, j: nat, x: byte)
    requires Consistent(s) && WellFormed(f)
    requires 4 <= j < |f| && x != f[j]
    ensures Packet(s, servers, f[j := x]) == (s, ChecksumFailed)
  {
    var m := f[j := x];
    SingleByteCorruptionDetected(f, j, x);
    assert At(m, 3) == f[3];
    assert m[..|m|] == m;
  }

  /** A buffer that fails validation changes nothing but the short-packet count. */
  lemma RejectedPacketChangesNothing(s: BridgeState, servers: int, msg: seq<byte>)
    requires Consistent(s) && !Validate(msg).Accepted?
    ensures Packet(s, servers, msg).0 == s.(shortPackets := Packet(s, servers, msg).0.shortPackets)
    ensures Packet(s, servers, msg).1.ShortPacket? || Packet(s, servers, msg).1.ChecksumFailed?
  {
  }

  /**
   * A short buffer only increments the short-packet counter. Its outcome
   * carries the intended report test, which the code as written never
   * passes.
   */
  lemma ShortPacketCounted(s: BridgeState, servers: int, msg: seq<byte>)
    requires Consistent(s) && Validate(msg).Short?
    ensures var n := s.shortPackets + 1;
      Packet(s, servers, msg) == (s.(shortPackets := n), ShortPacket(ShortPacketLogDue(n))) &&
      !ShortPacketLogDueAsWritten(n)
  {
  }

  /**
   * The header test only logs: changing any of the three sync bytes of a
   * buffer changes nothing about what processPacket does with it.
   */
  lemma HeaderOnlyLogged(s: BridgeState, servers: int, msg: seq<byte>, i: nat, x: byte)
    requires Consistent(s) && i < 3 && i < |msg|
    ensures Packet(s, servers, msg[i := x]) == Packet(s, servers, msg)
  {
    var m := msg[i := x];
    assert forall j | 3 <= j :: At(m, j) == At(msg, j);
    assert Addresses(m) == Addresses(msg);
    assert ErrorSendingAcks(m) == ErrorSendingAcks(msg);
    if |msg| >= At(msg, 3) as int + 8 {
      assert m[3..At(msg, 3) as int + 7] == msg[3..At(msg, 3) as int + 7];
    }
    assert Validate(m).Accepted? == Validate(msg).Accepted?;
    assert Validate(m).Short? == Validate(msg).Short?;
  }

  // ---------------------------------------------------------------
  // Measurement replies and the GetVals sweep
  // ---------------------------------------------------------------

  /** An accepted buffer whose command byte is a measurement index. */
  predicate IsDataReply(msg: seq<byte>)
  {
    Validate(msg).Accepted? && VARSTART <= At(msg, 6) as int <= LASTDATAINDEX
  }

  /**
   * A measurement reply for one of the nine polled indices stores the
   * filtered value in the replying inverter's slot, counts the rejection in
   * the same slot's count, leaves every other slot alone and advances the
   * sweep index by one.
   */
  lemma MeasurementStored(s: BridgeState, servers: int, msg: seq<byte>)
    requires Consistent(s) && IsDataReply(msg) && At(msg, 6) as int <= VAREND
    requires 1 <= s.inverter[s.currentInverter] as int <= MAXINVERTERS
    ensures var row, k := s.inverter[s.currentInverter] as int - 1, At(msg, 6) as int - VARSTART;
      var f := SanityCheck(ReplyValue(At(msg, 7), At(msg, 8), At(msg, 9), At(msg, 6) as int), At(msg, 6) as int,
                           s.responseVal[row][k], s.count[row][k], s.responseVal[s.currentInverter][DC_VOLTAGE - VARSTART]);
      var t := Packet(s, servers, msg).0;
      t.responseVal[row][k] == f.value && t.count[row][k] == f.count &&
      (forall i, j | 0 <= i < MAXINVERTERS && 0 <= j < NUMVALS && (i, j) != (row, k) ::
         t.responseVal[i][j] == s.responseVal[i][j] && t.count[i][j] == s.count[i][j]) &&
      t.info.commandIndex == s.info.commandIndex + 1 &&
      t.info.commandComplete && !t.info.awaitReply
  {
  }

  /** A reply whose index lies past the polled nine still advances the sweep but stores nothing. */
  lemma UnpolledIndexStoresNothing(s: BridgeState, servers: int, msg: seq<byte>)
    requires Consistent(s) && IsDataReply(msg) && At(msg, 6) as int > VAREND
    requires 1 <= s.inverter[s.currentInverter] as int <= MAXINVERTERS
    ensures Packet(s, servers, msg).0.responseVal == s.responseVal
    ensures Packet(s, servers, msg).0.count == s.count
    ensures Packet(s, servers, msg).0.info.commandIndex == s.info.commandIndex + 1
  {
  }

  /** processPacket applied to a run of buffers, oldest first. */
  function Packets(s: BridgeState, servers: int, msgs: seq<seq<byte>>): (r: (BridgeState, seq<PacketOutcome>))
    requires Consistent(s)
    ensures Consistent(r.0) && |r.1| == |msgs|
    decreases |msgs|
  {
    if msgs == [] then (s, [])
    else
      var before := Packets(s, servers, msgs[..|msgs| - 1]);
      var after := Packet(before.0, servers, msgs[|msgs| - 1]);
      (after.0, before.1 + [after.1])
  }

  /** main's GetVals set-up: the sweep runs from VARSTART to VAREND. */
  predicate SweepStart(s: BridgeState)
  {
    s.info.commandIndex == VARSTART && s.info.commandLimit == VAREND && !s.info.sequenceComplete
  }

  /**
   * A GetVals sweep for an inverter addressed in 1..servers: each of the
   * first eight measurement replies is stored and advances the index; the
   * ninth completes the sequence, reports the inverter's row and moves
   * currentInverter on by the round robin.
   */
  lemma {:induction false} SweepOfNineReplies(s: BridgeState, servers: int, msgs: seq<seq<byte>>)
    requires Consistent(s) && SweepStart(s) && servers <= MAXINVERTERS
    requires 1 <= s.inverter[s.currentInverter] as int <= servers
    requires |msgs| <= NUMVALS && forall i | 0 <= i < |msgs| :: IsDataReply(msgs[i])
    ensures var r := Packets(s, servers, msgs);
      r.0.info.commandIndex == VARSTART + |msgs| && r.0.info.commandLimit == VAREND &&
      r.0.inverter == s.inverter && r.0.numInverters == s.numInverters &&
      (r.0.info.sequenceComplete <==> |msgs| == NUMVALS) &&
      r.0.currentInverter == (if |msgs| == NUMVALS then RoundRobin(s.currentInverter, s.numInverters) else s.currentInverter) &&
      (forall i | 0 <= i < |msgs| && i < NUMVALS - 1 :: r.1[i] == Stored) &&
      (|msgs| == NUMVALS ==> r.1[NUMVALS - 1] == Report(s.inverter[s.currentInverter], r.0.responseVal[s.inverter[s.currentInverter] - 1]))
    decreases |msgs|
  {
    if msgs != [] {
      var prefix := msgs[..|msgs| - 1];
      assert forall i | 0 <= i < |prefix| :: prefix[i] == msgs[i];
      SweepOfNineReplies(s, servers, prefix);
    }
  }

  /** The round robin applied k times. */
  function RoundRobinN(current: nat, numInverters: int, k: nat): (c: nat)
  {
    if k == 0 then current else RoundRobin(RoundRobinN(current, numInverters, k - 1), numInverters)
  }

  /** Inside the active range the round robin is the successor modulo numInverters. */
  lemma RoundRobinIsSuccessorModulo(current: int, numInverters: int)
    requires 0 <= current < numInverters
    ensures RoundRobin(current, numInverters) == (current + 1) % numInverters
  {
  }

  /** Starting from inverter 0, the k-th completed sweep is for inverter k mod numInverters. */
  lemma {:induction false} RoundRobinVisitsInOrder(numInverters: int, k: nat)
    requires numInverters > 0
    ensures RoundRobinN(0, numInverters, k) == k % numInverters
  {
    if k > 0 {
      RoundRobinVisitsInOrder(numInverters, k - 1);
      SuccessorModulo(k - 1, numInverters);
    }
  }

  /** Euclidean remainder of a successor. */
  lemma SuccessorModulo(a: nat, n: int)
    requires n > 0
    ensures (a + 1) % n == if a % n + 1 == n then 0 else a % n + 1
  {
    var q, r := a / n, a % n;
    if r + 1 == n {
      ModUnique(a + 1, n, q + 1, 0);
    } else {
      ModUnique(a + 1, n, q, r + 1);
    }
  }

  /** The remainder is the only r in 0..n-1 with x == q * n + r. */
  lemma ModUnique(x: int, n: int, q: int, r: int)
    requires n > 0 && 0 <= r < n && x == q * n + r
    ensures x % n == r
  {
    var q', r' := x / n, x % n;
    assert x == q' * n + r';
    assert (q - q') * n == r' - r;
    if q > q' {
      MultipleAtLeast(q - q', n);
    } else if q < q' {
      MultipleAtLeast(q' - q, n);
    }
  }

  lemma {:induction false} MultipleAtLeast(d: nat, n: int)
    requires d >= 1 && n > 0
    ensures d * n >= n
    decreases d
  {
    if d > 1 {
      MultipleAtLeast(d - 1, n);
      assert d * n == (d - 1) * n + n;
    }
  }

  // ---------------------------------------------------------------
  // Sequencing
  // ---------------------------------------------------------------

  /** The current sequences chosen by k idle steps with numInverters fixed. */
  function IdleRun(next: CommandType, numInverters: int, k: nat): (run: seq<CommandType>)
    ensures |run| == k
    decreases k
  {
    if k == 0 then [] else
      var step := IdleStep(next, numInverters);
      [step.0] + IdleRun(step.1, numInverters, k - 1)
  }

  /**
   * With active inverters the idle steps alternate: from GetActiveInverters
   * every even step is GetActiveInverters and every odd one GetVals; from
   * GetVals the other way round.
   */
  lemma {:induction false} IdleAlternates(next: CommandType, numInverters: int, k: nat)
    requires numInverters > 0 && (next == GetActiveInverters || next == GetVals)
    ensures forall i | 0 <= i < k ::
      IdleRun(next, numInverters, k)[i] == if (i % 2 == 0) == (next == GetActiveInverters) then GetActiveInverters else GetVals
    decreases k
  {
    if k > 0 {
      var other := if next == GetActiveInverters then GetVals else GetActiveInverters;
      IdleAlternates(other, numInverters, k - 1);
      var run := IdleRun(next, numInverters, k);
      assert run == [next] + IdleRun(other, numInverters, k - 1);
      forall i | 1 <= i < k
        ensures run[i] == if (i % 2 == 0) == (next == GetActiveInverters) then GetActiveInverters else GetVals
      {
        assert run[i] == IdleRun(other, numInverters, k - 1)[i - 1];
      }
    }
  }

  /** Without active inverters every idle step after the first asks for the active inverters again. */
  lemma {:induction false} NoInvertersKeepsAsking(next: CommandType, k: nat)
    ensures forall i | 1 <= i < k :: IdleRun(next, 0, k)[i] == GetActiveInverters
    decreases k
  {
    if k > 1 {
      NoInvertersKeepsAsking(GetActiveInverters, k - 1);
      assert IdleRun(next, 0, k) == [next] + IdleRun(GetActiveInverters, 0, k - 1);
    }
  }

  /**
   * Start-up when GetVersion is answered: the reply ends the sequence and
   * ActivateError is sent next, as ErrorSending with 0x55 and 1..servers
   * when a broadcast reply named RS422, and as ErrorForwarding otherwise.
   */
  lemma StartupAfterVersionReply(servers: int, dayOfMonth: int, msg: seq<byte>)
    requires 1 <= servers <= MAXINVERTERS
    requires Validate(msg).Accepted? && At(msg, 6) == GETVERSION
    ensures var s0 := Initial(servers, dayOfMonth);
      var p1 := PrepareNext(s0, servers);
      var q := Packet(p1.0, servers, msg);
      var p2 := PrepareNext(q.0, servers);
      q.1 == Acknowledged &&
      p2.0.info.currentSequence == ActivateError &&
      p2.1 == (if At(msg, 3) == 4 && At(msg, 7) == 3
               then Frame(CommandNFrame(0, 0, SETERRORSENDING, servers + 1, ErrorSendingList(servers)))
               else Frame(CommandFrame2(0, 0, SETERRORFORWARDING, LowByte(s0.errorParam1), ERRORMAGIC)))
  {
    VersionReplySetsSystemType(PrepareNext(Initial(servers, dayOfMonth), servers).0, servers, msg);
  }

  /**
   * Start-up: the first command is GetVersion; once that sequence ends
   * (here by a timeout) the idle alternation runs ActivateError and then
   * GetActiveInverters, sent as ErrorForwarding since no system type is
   * known yet.
   */
  lemma StartupOrder(servers: int, dayOfMonth: int)
    requires 1 <= servers <= MAXINVERTERS
    ensures var s0 := Initial(servers, dayOfMonth);
      var p1 := PrepareNext(s0, servers);
      var p2 := PrepareNext(TimedOut(p1.0), servers);
      var p3 := PrepareNext(TimedOut(p2.0), servers);
      p1.1 == Frame(CommandFrame(0, 0, GETVERSION)) &&
      p2.0.info.currentSequence == ActivateError &&
      p2.1 == Frame(CommandFrame2(0, 0, SETERRORFORWARDING, LowByte(s0.errorParam1), ERRORMAGIC)) &&
      p3.0.info.currentSequence == GetActiveInverters &&
      p3.1 == Frame(CommandFrame(0, 0, GETACTIVEINVERTERS))
  {
  }

  /** main never clears commandComplete: once set, every live operation leaves it set. */
  lemma CommandCompleteStaysSet(s: BridgeState, servers: int, msg: seq<byte>, cmd: ServerCommand)
    requires Consistent(s) && s.info.commandComplete && 1 <= servers <= MAXINVERTERS
    ensures Packet(s, servers, msg).0.info.commandComplete
    ensures PrepareNext(s, servers).0.info.commandComplete
    ensures TimedOut(s).info.commandComplete
    ensures ServerMessage(s, cmd).0.info.commandComplete
  {
  }

  /**
   * A queued command takes precedence over the idle alternation, which it
   * leaves where it was: the next sequence is still the one it would have
   * been.
   */
  lemma QueuedCommandRunsFirst(s: BridgeState, servers: int)
    requires Consistent(s) && 1 <= servers <= MAXINVERTERS
    requires s.info.commandComplete && s.info.sequenceComplete && !Empty(s.queue)
    ensures var r := PrepareNext(s, servers).0;
      r.info.currentSequence == Contents(s.queue)[0] &&
      Contents(r.queue) == Contents(s.queue)[1..] &&
      r.info.nextSequence == s.info.nextSequence && !r.info.sequenceComplete
  {
    PopTakesOldest(s.queue);
  }

  /** A GetVals sequence starts at VARSTART with the limit VAREND and polls the current inverter. */
  lemma GetValsStartsSweep(s: BridgeState, servers: int)
    requires Consistent(s) && 1 <= servers <= MAXINVERTERS
    requires s.info.commandComplete && s.info.sequenceComplete && Empty(s.queue)
    requires s.info.nextSequence == GetVals
    ensures var r := PrepareNext(s, servers);
      SweepStart(r.0) && r.0.info.nextSequence == GetActiveInverters &&
      r.1 == Frame(CommandFrame(1, s.inverter[s.currentInverter], VARSTART))
  {
  }

  /**
   * A GETVERSION reply completes the sequence; only a broadcast reply
   * (LEN 4) sets the system type, from byte 7, and nothing else changes.
   */
  lemma VersionReplySetsSystemType(s: BridgeState, servers: int, msg: seq<byte>)
    requires Consistent(s) && Validate(msg).Accepted? && At(msg, 6) == GETVERSION
    ensures var r := Packet(s, servers, msg);
      r.1 == Acknowledged && r.0.info.sequenceComplete && r.0.info.commandComplete &&
      r.0.systemType == (if At(msg, 3) == 4 then SystemTypeOf(At(msg, 7)) else s.systemType) &&
      r.0 == s.(info := r.0.info, systemType := r.0.systemType)
  {
  }

  // ---------------------------------------------------------------
  // Discovery
  // ---------------------------------------------------------------

  /** An accepted Active Inverters reply. */
  predicate IsDiscoveryReply(msg: seq<byte>)
  {
    Validate(msg).Accepted? && At(msg, 6) == GETACTIVEINVERTERS
  }

  /**
   * A discovery reply of 1..12 addresses, none of them the glitch value or
   * above servers, makes them (with 0 read as 1) the active inverters, and
   * the status bitmask their set.
   */
  lemma DiscoveryTakesAddresses(s: BridgeState, servers: int, msg: seq<byte>)
    requires Consistent(s) && IsDiscoveryReply(msg)
    requires 1 <= At(msg, 3) as int <= MAXINVERTERS && servers < 32
    requires forall i | 0 <= i < |Addresses(msg)| :: !Aborts(Addresses(msg)[i], servers)
    ensures var r := Packet(s, servers, msg);
      var len := At(msg, 3) as int;
      r.1 == Discovered(len) && r.0.numInverters == len &&
      (forall i | 0 <= i < len :: r.0.inverter[i] == Corrected(At(msg, 7 + i)) && 1 <= r.0.inverter[i] as int <= servers) &&
      (forall i | len <= i < MAXINVERTERS :: r.0.inverter[i] == s.inverter[i]) &&
      (forall a :: a in r.0.inverterStatus <==> exists i | 0 <= i < len :: r.0.inverter[i] as int == a) &&
      r.0.prevInverterStatus == r.0.inverterStatus && r.0.info.sequenceComplete
  {
    var addrs := Addresses(msg);
    assert addrs[..|addrs|] == addrs;
  }

  /**
   * An address that ends the loop leaves numInverters at the reply's
   * length, the offending address stored in its slot, and
   * prevInverterStatus as it was.
   */
  lemma DiscoveryAbortKeepsLength(s: BridgeState, servers: int, msg: seq<byte>, k: nat)
    requires Consistent(s) && IsDiscoveryReply(msg)
    requires 1 <= At(msg, 3) as int <= MAXINVERTERS
    requires k < At(msg, 3) as int && Aborts(At(msg, 7 + k), servers)
    requires forall i | 0 <= i < k :: !Aborts(Addresses(msg)[i], servers)
    ensures var r := Packet(s, servers, msg);
      r.0.numInverters == At(msg, 3) as int &&
      r.0.inverter[k] == Corrected(At(msg, 7 + k)) &&
      r.0.prevInverterStatus == s.prevInverterStatus &&
      (r.1 == DiscoveryGlitch(k) || r.1 == DiscoveryBeyondServers(k, Corrected(At(msg, 7 + k))))
  {
    FirstAbortIs(Addresses(msg), servers, k);
  }

  /** The first aborting position is the one before which nothing aborts. */
  lemma FirstAbortIs(addrs: seq<byte>, servers: int, k: nat)
    requires k < |addrs| && Aborts(addrs[k], servers)
    requires forall i | 0 <= i < k :: !Aborts(addrs[i], servers)
    ensures FirstAbort(addrs, servers) == k
  {
  }

  /**
   * The glitch address stays in an active slot: when discovery stops at
   * the current inverter's slot, the next measurement reply finds the
   * address 34 outside 1..12.
   */
  lemma GlitchSlotOutOfRange(s: BridgeState, servers: int, msg: seq<byte>, reply: seq<byte>)
    requires Consistent(s) && IsDiscoveryReply(msg) && IsDataReply(reply)
    requires 1 <= At(msg, 3) as int <= MAXINVERTERS
    requires s.currentInverter < At(msg, 3) as int && At(msg, 7 + s.currentInverter) == GLITCHADDRESS
    requires forall i | 0 <= i < s.currentInverter :: !Aborts(Addresses(msg)[i], servers)
    ensures var t := Packet(s, servers, msg).0;
      t.currentInverter < t.numInverters &&
      Packet(t, servers, reply).1 == AddressOutOfRange(GLITCHADDRESS)
  {
    DiscoveryAbortKeepsLength(s, servers, msg, s.currentInverter);
  }

  // ---------------------------------------------------------------
  // Error activation
  // ---------------------------------------------------------------

  /** Once complete, error activation never returns to easInit. */
  lemma ErrorActivationCompleteIsFinal(s: BridgeState, servers: int, msg: seq<byte>, cmd: ServerCommand)
    requires Consistent(s) && s.errorActivateState == EasComplete && 1 <= servers <= MAXINVERTERS
    ensures Packet(s, servers, msg).0.errorActivateState == EasComplete
    ensures PrepareNext(s, servers).0.errorActivateState == EasComplete
    ensures TimedOut(s).errorActivateState == EasComplete
    ensures ServerMessage(s, cmd).0.errorActivateState == EasComplete
  {
  }

  /**
   * The ErrorForwarding reply ends the start-up attempt whether or not the
   * device confirmed with 0x55; the outcome reports which.
   */
  lemma ErrorForwardingEndsActivation(s: BridgeState, servers: int, msg: seq<byte>)
    requires Consistent(s) && Validate(msg).Accepted? && At(msg, 6) == SETERRORFORWARDING
    ensures var r := Packet(s, servers, msg);
      r.0.errorActivateState == EasComplete && r.0.info.sequenceComplete &&
      r.1 == ErrorForwarding(s.errorActivateState == EasInit, At(msg, 7) == ERRORMAGIC)
  {
  }

  /**
   * The ErrorSending reply ends activation exactly when it carries no more
   * answers than MAXINVERTERS and than servers.
   */
  lemma ErrorSendingEndsActivation(s: BridgeState, servers: int, msg: seq<byte>)
    requires Consistent(s) && Validate(msg).Accepted? && At(msg, 6) == SETERRORSENDING
    requires s.errorActivateState == EasInit
    ensures var r := Packet(s, servers, msg);
      r.0.info.sequenceComplete &&
      (r.0.errorActivateState == EasComplete <==> At(msg, 3) as int <= MAXINVERTERS + 1 && At(msg, 3) as int <= servers + 1)
  {
  }

  /** With RS422 the activation command lists servers + 1 parameters: 0x55 and the addresses 1..servers. */
  lemma ErrorSendingFrameListsInverters(s: BridgeState, servers: int)
    requires Consistent(s) && 1 <= servers <= MAXINVERTERS
    requires s.info.currentSequence == ActivateError && s.systemType == RS422
    ensures var f := CommandFor(s, servers).bytes;
      WellFormed(f) && f[3] as int == servers + 1 && f[6] == SETERRORSENDING &&
      f[7..|f| - 1] == ErrorSendingList(servers)
  {
  }

  // ---------------------------------------------------------------
  // The control channel and the queue
  // ---------------------------------------------------------------

  /** A recognised command on a queue with room is appended; ActivateError also takes its parameters. */
  lemma ServerCommandQueued(s: BridgeState, cmd: ServerCommand)
    requires Consistent(s) && QueuedType(cmd).Some? && Length(s.queue) < QUEUESIZE - 1
    ensures var r := ServerMessage(s, cmd).0;
      Contents(r.queue) == Contents(s.queue) + [QueuedType(cmd).value] && r.info.sequenceComplete &&
      (cmd.RequestActivateError? ==> r == ApplyErrorArgs(r, cmd.args))
  {
    PushAppends(s.queue, QueuedType(cmd).value);
  }

  /**
   * On a queue holding nine commands any queued message is dropped, the
   * queue then reads as empty, and ActivateError's parameters are not
   * parsed.
   */
  lemma ServerCommandOnFullQueue(s: BridgeState, cmd: ServerCommand)
    requires Consistent(s) && !Immediate(cmd) && Length(s.queue) == QUEUESIZE - 1
    ensures var r := ServerMessage(s, cmd).0;
      Contents(r.queue) == [] && r.errorParam1 == s.errorParam1 && r.errorParam2 == s.errorParam2 &&
      r.info.sequenceComplete
  {
    PushOnFullQueueEmptiesIt(s.queue, QueuedType(cmd));
  }

  /**
   * An unrecognised message still sets sequenceComplete, and its undone
   * push leaves the queue as it was while top is below 9.
   */
  lemma UnrecognisedMessageLeavesQueue(s: BridgeState)
    requires Consistent(s) && Length(s.queue) < QUEUESIZE - 1 && s.queue.top < QUEUESIZE - 1
    ensures ServerMessage(s, Unrecognised) == (Completed(s), true)
  {
    PushUnknownUndone(s.queue);
  }

  /**
   * With top at 9 the undo of an unrecognised message clamps at 0, so the
   * stale type in slot 0 becomes the newest queued command.
   */
  lemma UnrecognisedMessageAfterWrapQueuesSlotZero(s: BridgeState)
    requires Consistent(s) && Length(s.queue) < QUEUESIZE - 1 && s.queue.top == QUEUESIZE - 1
    ensures var r := ServerMessage(s, Unrecognised).0;
      Contents(r.queue) == Contents(s.queue) + [s.queue.types[0]] && r.info.sequenceComplete
  {
    PushUnknownAfterWrapQueuesSlotZero(s.queue);
  }

  /** Exit stops the loop and changes nothing; the other immediate messages change nothing either. */
  lemma ImmediateMessagesChangeNothing(s: BridgeState, cmd: ServerCommand)
    requires Consistent(s) && Immediate(cmd)
    ensures ServerMessage(s, cmd) == (s, !cmd.Exit?)
  {
  }

  // ---------------------------------------------------------------
  // The count cells
  // ---------------------------------------------------------------

  /** Every count cell is between 0 and 3. */
  ghost predicate CountsBounded(s: BridgeState)
    requires Consistent(s)
  {
    forall i, j | 0 <= i < MAXINVERTERS && 0 <= j < NUMVALS :: 0 <= s.count[i][j] <= 3
  }

  /** The sanity filter keeps every count cell between 0 and 3. */
  lemma CountsStayBounded(s: BridgeState, servers: int, msg: seq<byte>)
    requires Consistent(s) && CountsBounded(s)
    ensures CountsBounded(Packet(s, servers, msg).0)
  {
    var t := Packet(s, servers, msg).0;
    if IsDataReply(msg) && 1 <= s.inverter[s.currentInverter] as int <= MAXINVERTERS && At(msg, 6) as int <= VAREND {
      MeasurementStored(s.(info := s.info.(commandComplete := true, awaitReply := false)), servers, msg);
    }
  }
}
