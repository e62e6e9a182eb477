/**
 * The bridge's state as a value and its four live operations as
 * functions of it:
 *
 *   Packet        processPacket on one received buffer (fronius.c:734-1060)
 *   PrepareNext   main's "prepare to send next command" block (fronius.c:347-413)
 *   TimedOut      main's select timeout (fronius.c:421-424)
 *   ServerMessage processSocket on one parsed control command (fronius.c:1095-1169)
 *
 * The class Engine.Fronius runs the same code over the globals and is
 * proved to follow these functions.
 */
module Bridge {
  import opened Wire
  import opened Frames
  import opened Decoding
  import opened Sanity
  import opened Queue
  import opened Findings

  /** enum Commands (fronius.c:98-99): the command bytes and reply types. */
  const GETVERSION: byte := 1
  const GETDEVICETYPE: byte := 2
  const GETACTIVEINVERTERS: byte := 4
  const SETERRORSENDING: byte := 7
  const SETERRORFORWARDING: byte := 13
  const PROTOCOLERROR: byte := 14

  /** Last reply index treated as a measurement (fronius.c:821). */
  const LASTDATAINDEX: int := 0x2A

  /** The magic first parameter of ErrorSending and the success reply of ErrorForwarding. */
  const ERRORMAGIC: byte := 0x55

  /** systemType (fronius.c:102): rs485 is the RS422 interface. */
  datatype SystemType = Unset | Datalogger | IfcEasy | RS422

  /** systemType = msg[7], replaced by datalogger when not below lastType (fronius.c:891-901). */
  function SystemTypeOf(b: byte): (t: SystemType)
    ensures b == 0 <==> t == Unset
    ensures b == 2 <==> t == IfcEasy
    ensures b == 3 <==> t == RS422
    ensures b == 1 || b >= 4 <==> t == Datalogger
  {
    if b == 0 then Unset else if b == 2 then IfcEasy else if b == 3 then RS422 else Datalogger
  }

  /** errorActivateState (fronius.c:121). */
  datatype ErrorActivateState = EasInit | EasComplete

  /** struct staticInfo (fronius.c:126-141) without varID and varValue, which nothing reads. */
  datatype StaticInfo = StaticInfo(
    commandIndex: int,
    commandLimit: int,
    commandComplete: bool,
    awaitReply: bool,
    currentSequence: CommandType,
    nextSequence: CommandType,
    sequenceComplete: bool)

  /**
   * The globals the core reads and writes. The two inverter bitmasks are
   * the sets of their bit positions; shortPackets is processPacket's static
   * count of dropped short packets.
   */
  datatype BridgeState = BridgeState(
    info: StaticInfo,
    queue: QueueState,
    systemType: SystemType,
    numInverters: int,
    currentInverter: int,
    inverter: seq<byte>,
    responseVal: seq<seq<real>>,
    count: seq<seq<int>>,
    inverterStatus: set<int>,
    prevInverterStatus: set<int>,
    errorActivateState: ErrorActivateState,
    errorParam1: int,
    errorParam2: int,
    shortPackets: nat)

  /** The shape of responseVal and count: MAXINVERTERS rows of NUMVALS slots. */
  ghost predicate IsTable<T>(t: seq<seq<T>>)
  {
    |t| == MAXINVERTERS && forall i | 0 <= i < |t| :: |t[i]| == NUMVALS
  }

  /** What the globals' declarations and the code's assignments keep true. */
  ghost predicate Consistent(s: BridgeState)
  {
    QValid(s.queue) && |s.inverter| == MAXINVERTERS && IsTable(s.responseVal) && IsTable(s.count) &&
    0 <= s.currentInverter < MAXINVERTERS && 0 <= s.numInverters <= MAXINVERTERS
  }

  /** The bit positions 0..n-1. */
  function BitsBelow(n: nat): (b: set<int>)
    ensures forall i :: i in b <==> 0 <= i < n
  {
    if n == 0 then {} else BitsBelow(n - 1) + {n - 1}
  }

  /** The bits 0..31: prevInverterStatus = -1 (fronius.c:162). */
  function AllBits(): set<int>
  {
    BitsBelow(32)
  }

  /**
   * The state main starts the loop in (fronius.c:101-110, 162, 207, 283,
   * 296-303, 333-338). dayOfMonth is localtime's tm_mday, used for
   * errorParam1 when more than one inverter is configured.
   */
  function Initial(servers: int, dayOfMonth: int): (s: BridgeState)
    ensures Consistent(s)
    ensures s.inverter[0] == 1 && forall i | 1 <= i < MAXINVERTERS :: s.inverter[i] == 0
    ensures s.errorParam1 == (if servers > 1 then dayOfMonth else 2)
  {
    BridgeState(
      StaticInfo(0, 0, true, false, GetVersion, ActivateError, false),
      EmptyQueue, Unset, 0, 0,
      seq(MAXINVERTERS, i => if i == 0 then 1 else 0),
      seq(MAXINVERTERS, _ => seq(NUMVALS, _ => 0.0)),
      seq(MAXINVERTERS, _ => seq(NUMVALS, _ => 0)),
      {}, AllBits(), EasInit,
      if servers > 1 then dayOfMonth else 2, ERRORMAGIC as int, 0)
  }

  // ---------------------------------------------------------------
  // processPacket
  // ---------------------------------------------------------------

  /**
   * msg[i] of the received buffer: bytes past the received count read as
   * 0, because main zeroes data.buf before every wait (fronius.c:417).
   */
  function At(msg: seq<byte>, i: int): (b: byte)
    ensures 0 <= i < |msg| ==> b == msg[i]
    ensures !(0 <= i < |msg|) ==> b == 0
  {
    if 0 <= i < |msg| then msg[i] else 0
  }

  /** The three tests of processPacket's validation (fronius.c:751-795). */
  datatype Validity = Short | BadChecksum | Accepted(headerOk: bool)

  /**
   * A buffer shorter than msg[3] + 8 is short; otherwise the checksum of
   * bytes [3, LEN + 7) must equal byte LEN + 7. The header test only
   * produces a log line, so its result rides along in Accepted.
   */
  function Validate(msg: seq<byte>): (v: Validity)
    ensures v.Short? <==> |msg| < At(msg, 3) as int + 8
    ensures v.Accepted? ==> v.headerOk == HasSync(msg)
  {
    var len := At(msg, 3) as int;
    if |msg| < len + 8 then Short
    else if Checksum(msg[3..len + 7]) != msg[len + 7] then BadChecksum
    else Accepted(HasSync(msg))
  }

  /** What one call of processPacket did. */
  datatype PacketOutcome =
    | ShortPacket(logged: bool)                   // dropped; logged says whether a report line is due
    | ChecksumFailed                              // dropped
    | AddressOutOfRange(invnum: byte)             // inverter[currentInverter] outside 1..12
    | Stored                                      // measurement reply, sweep not yet complete
    | Report(invnum: byte, row: seq<real>)         // sweep complete: row sent on the socket of invnum
    | ReportBeyondServers(invnum: byte)           // sweep complete for an address above servers
    | Discovered(active: nat)                     // Active Inverters reply taken
    | DiscoveryGlitch(position: nat)              // address 34 at this position: rest discarded
    | DiscoveryBeyondServers(position: nat, address: byte)  // address above servers: rest discarded
    | DiscoveryLengthInvalid(length: byte)        // more than MAXINVERTERS addresses: warned only
    | ErrorForwarding(initial: bool, success: bool)
    | ErrorSending(succeeded: set<int>)           // inverters that acknowledged with 0xFF
    | ErrorSendingRejected(length: byte)
    | Acknowledged                                // reply that only completes the sequence
    | Ignored                                     // reply that is only logged

  /** processPacket on the buffer msg, whose length is data.count. */
  function Packet(s: BridgeState, servers: int, msg: seq<byte>): (r: (BridgeState, PacketOutcome))
    requires Consistent(s)
    ensures Consistent(r.0)
  {
    match Validate(msg)
    case Short =>
      var n := s.shortPackets + 1;
      (s.(shortPackets := n), ShortPacket(ShortPacketLogDue(n)))
    case BadChecksum => (s, ChecksumFailed)
    case Accepted(_) =>
      var s1 := s.(info := s.info.(commandComplete := true, awaitReply := false));
      var index := At(msg, 6) as int;
      if VARSTART <= index <= LASTDATAINDEX then DataReply(s1, servers, msg)
      else if index == GETVERSION as int then VersionReply(s1, msg)
      else if index == GETDEVICETYPE as int then (Completed(s1), Acknowledged)
      else if index == GETACTIVEINVERTERS as int then ActiveInvertersReply(s1, servers, msg)
      else if index == SETERRORFORWARDING as int then ErrorForwardingReply(s1, msg)
      else if index == SETERRORSENDING as int then ErrorSendingReply(s1, servers, msg)
      else if index == PROTOCOLERROR as int then (Completed(s1), Acknowledged)
      else (s1, Ignored)
  }

  /** staticInfo.sequenceComplete = 1. */
  function Completed(s: BridgeState): (r: BridgeState)
    ensures r.info.sequenceComplete && r == s.(info := r.info)
    ensures r.info == s.info.(sequenceComplete := true)
  {
    s.(info := s.info.(sequenceComplete := true))
  }

  /**
   * A measurement reply (fronius.c:821-879): the slot of inverter
   * inverter[currentInverter] is filtered and stored when the index is one
   * of the nine polled, the sweep index advances, and the reply that passes
   * commandLimit completes the sequence and moves to the next inverter.
   */
  function DataReply(s: BridgeState, servers: int, msg: seq<byte>): (r: (BridgeState, PacketOutcome))
    requires Consistent(s) && VARSTART <= At(msg, 6) as int <= LASTDATAINDEX
    ensures Consistent(r.0)
  {
    var invnum := s.inverter[s.currentInverter];
    if invnum < 1 || invnum as int > MAXINVERTERS then (s, AddressOutOfRange(invnum))
    else
      var index := At(msg, 6) as int;
      var s2 := if index <= VAREND
                then StoreValue(s, invnum - 1, index - VARSTART, ReplyValue(At(msg, 7), At(msg, 8), At(msg, 9), index))
                else s;
      SweepReply(s2, servers, invnum)
  }

  /**
   * The sweep's bookkeeping after a measurement reply (fronius.c:847-877):
   * ++commandIndex, and past commandLimit the sequence is complete, the
   * row of invnum is reported and the next inverter becomes current,
   * unless invnum is above servers.
   */
  function SweepReply(s: BridgeState, servers: int, invnum: byte): (r: (BridgeState, PacketOutcome))
    requires Consistent(s) && 1 <= invnum as int <= MAXINVERTERS
    ensures Consistent(r.0)
  {
    var info := s.info.(commandIndex := s.info.commandIndex + 1);
    if info.commandIndex > info.commandLimit then
      var s3 := s.(info := info.(sequenceComplete := true));
      if invnum as int > servers then (s3, ReportBeyondServers(invnum))
      else (s3.(currentInverter := RoundRobin(s3.currentInverter, s3.numInverters)),
            Report(invnum, s3.responseVal[invnum - 1]))
    else (s.(info := info), Stored)
  }

  /**
   * valp[k] = sanitycheck(value, VARSTART + k, valp[k], &count[row][k])
   * with valp the row of the replying inverter; the DC voltage the filter
   * reads comes from the row of currentInverter (fronius.c:842, 1351-1352).
   */
  function StoreValue(s: BridgeState, row: int, k: int, value: real): (r: BridgeState)
    requires Consistent(s) && 0 <= row < MAXINVERTERS && 0 <= k < NUMVALS
    ensures Consistent(r)
  {
    var vdc := s.responseVal[s.currentInverter][DC_VOLTAGE - VARSTART];
    var f := SanityCheck(value, VARSTART + k, s.responseVal[row][k], s.count[row][k], vdc);
    s.(responseVal := s.responseVal[row := s.responseVal[row][k := f.value]],
       count := s.count[row := s.count[row][k := f.count]])
  }

  /** currentInverter++, back to 0 once it reaches numInverters (fronius.c:875-877). */
  function RoundRobin(current: int, numInverters: int): (next: int)
    requires 0 <= current
    ensures 0 <= next
    ensures 0 <= next < numInverters || next == 0
    ensures current + 1 < numInverters ==> next == current + 1
    ensures current + 1 >= numInverters ==> next == 0
  {
    if current + 1 >= numInverters then 0 else current + 1
  }

  /** GETVERSION reply (fronius.c:882-902): a broadcast reply (LEN 4) sets systemType. */
  function VersionReply(s: BridgeState, msg: seq<byte>): (r: (BridgeState, PacketOutcome))
    requires Consistent(s)
    ensures Consistent(r.0)
  {
    var len := At(msg, 3);
    var s1 := Completed(s);
    if len == 4 then (s1.(systemType := SystemTypeOf(At(msg, 7))), Acknowledged)
    else (s1, Acknowledged)
  }

  /** The address an Active Inverters reply gives, with 0 read as 1 (fronius.c:930-936). */
  function Corrected(a: byte): (c: byte)
    ensures c != 0 && (a != 0 ==> c == a)
  {
    if a == 0 then 1 else a
  }

  /** The glitch value discarded at fronius.c:937. */
  const GLITCHADDRESS: byte := 34

  /** An address that ends the discovery loop: the glitch value, or one above servers. */
  predicate Aborts(a: byte, servers: int)
  {
    Corrected(a) == GLITCHADDRESS || Corrected(a) as int > servers
  }

  /** Position of the first address that ends the loop, |addrs| if none does. */
  function FirstAbort(addrs: seq<byte>, servers: int): (k: nat)
    ensures k <= |addrs|
    ensures forall i | 0 <= i < k :: !Aborts(addrs[i], servers)
    ensures k < |addrs| ==> Aborts(addrs[k], servers)
    decreases |addrs|
  {
    if addrs == [] then 0
    else if Aborts(addrs[0], servers) then 0
    else 1 + FirstAbort(addrs[1..], servers)
  }

  /** Number of inverter[] entries the loop writes: through the aborting one. */
  function WrittenCount(addrs: seq<byte>, servers: int): (n: nat)
    ensures n <= |addrs|
    ensures FirstAbort(addrs, servers) < |addrs| ==> n == FirstAbort(addrs, servers) + 1
    ensures FirstAbort(addrs, servers) == |addrs| ==> n == |addrs|
  {
    var k := FirstAbort(addrs, servers);
    if k < |addrs| then k + 1 else k
  }

  /** inverter[] after the loop: the first n entries replaced by the corrected addresses. */
  function WriteAddresses(inverter: seq<byte>, addrs: seq<byte>, n: nat): (r: seq<byte>)
    requires n <= |addrs| && n <= |inverter|
    ensures |r| == |inverter|
    ensures forall i | 0 <= i < |r| :: r[i] == if i < n then Corrected(addrs[i]) else inverter[i]
  {
    seq(|inverter|, i requires 0 <= i < |inverter| => if i < n then Corrected(addrs[i]) else inverter[i])
  }

  /** The bits inverterStatus gets: every corrected address below 32 (fronius.c:949). */
  function StatusBits(addrs: seq<byte>): (b: set<int>)
    ensures forall a :: a in b <==> exists i | 0 <= i < |addrs| :: Corrected(addrs[i]) as int == a && a < 32
  {
    set i | 0 <= i < |addrs| && Corrected(addrs[i]) < 32 :: Corrected(addrs[i]) as int
  }

  /** The loop's status after one more address below the abort. */
  lemma StatusBitsSnoc(addrs: seq<byte>, i: nat)
    requires i < |addrs|
    ensures StatusBits(addrs[..i + 1]) ==
      StatusBits(addrs[..i]) + (if Corrected(addrs[i]) < 32 then {Corrected(addrs[i]) as int} else {})
  {
    var a, b := addrs[..i + 1], addrs[..i];
    assert forall j | 0 <= j < i :: a[j] == b[j];
    assert a[i] == addrs[i];
  }

  /** The LEN addresses of an Active Inverters reply, from byte 7 on. */
  function Addresses(msg: seq<byte>): (a: seq<byte>)
    ensures |a| == At(msg, 3) as int
    ensures forall i | 0 <= i < |a| :: a[i] == At(msg, 7 + i)
  {
    seq(At(msg, 3) as int, i => At(msg, 7 + i))
  }

  /**
   * GETACTIVEINVERTERS reply (fronius.c:912-961). LEN 0 clears the active
   * set; LEN up to MAXINVERTERS sets numInverters and inverterStatus before
   * the loop rewrites inverter[], so an address that ends the loop leaves
   * numInverters at LEN and prevInverterStatus unchanged; a longer LEN only
   * warns.
   */
  function ActiveInvertersReply(s: BridgeState, servers: int, msg: seq<byte>): (r: (BridgeState, PacketOutcome))
    requires Consistent(s)
    ensures Consistent(r.0)
  {
    var len := At(msg, 3);
    var s1 := Completed(s);
    if len == 0 then (s1.(inverterStatus := {}, numInverters := 0, prevInverterStatus := {}), Discovered(0))
    else if len as int > MAXINVERTERS then (s1.(prevInverterStatus := s1.inverterStatus), DiscoveryLengthInvalid(len))
    else
      var addrs := Addresses(msg);
      var k := FirstAbort(addrs, servers);
      var s2 := s1.(numInverters := len as int,
                    inverter := WriteAddresses(s1.inverter, addrs, WrittenCount(addrs, servers)),
                    inverterStatus := StatusBits(addrs[..k]));
      if k < |addrs| then
        (s2, if Corrected(addrs[k]) == GLITCHADDRESS then DiscoveryGlitch(k)
             else DiscoveryBeyondServers(k, Corrected(addrs[k])))
      else (s2.(prevInverterStatus := s2.inverterStatus), Discovered(len as nat))
  }

  /**
   * SETERRORFORWARDING reply (fronius.c:962-997): success is byte 7 equal
   * to 0x55; either way the machine ends in easComplete.
   */
  function ErrorForwardingReply(s: BridgeState, msg: seq<byte>): (r: (BridgeState, PacketOutcome))
    requires Consistent(s)
    ensures Consistent(r.0)
  {
    (Completed(s).(errorActivateState := EasComplete),
     ErrorForwarding(s.errorActivateState == EasInit, At(msg, 7) == ERRORMAGIC))
  }

  /** Inverters k in 1..LEN-1 whose byte 7 + k is 0xFF (fronius.c:1018-1024). */
  function ErrorSendingAcks(msg: seq<byte>): (acks: set<int>)
    ensures forall k :: k in acks <==> 1 <= k < At(msg, 3) as int && At(msg, 7 + k) == 0xFF
  {
    var answers := Addresses(msg);
    set k | 1 <= k < |answers| && answers[k] == 0xFF
  }

  /**
   * SETERRORSENDING reply (fronius.c:998-1038): more answers than
   * MAXINVERTERS or than servers are refused; otherwise the machine ends
   * in easComplete.
   */
  function ErrorSendingReply(s: BridgeState, servers: int, msg: seq<byte>): (r: (BridgeState, PacketOutcome))
    requires Consistent(s)
    ensures Consistent(r.0)
  {
    var len := At(msg, 3);
    var s1 := Completed(s);
    if len as int > MAXINVERTERS + 1 || len as int > servers + 1 then (s1, ErrorSendingRejected(len))
    else (s1.(errorActivateState := EasComplete), ErrorSending(ErrorSendingAcks(msg)))
  }

  // ---------------------------------------------------------------
  // main: choosing and sending the next command
  // ---------------------------------------------------------------

  /** What main sent after preparing the next command. */
  datatype Sent = NothingDue | NotCoded | Frame(bytes: seq<byte>)

  /**
   * Idle alternation (fronius.c:360-367): the next sequence becomes the
   * current one, and the one after it is GetVals only when the current one
   * is GetActiveInverters and some inverters are active.
   */
  function IdleStep(next: CommandType, numInverters: int): (r: (CommandType, CommandType))
    ensures r.0 == next
    ensures r.1 == GetVals <==> next == GetActiveInverters && numInverters > 0
    ensures r.1 == GetVals || r.1 == GetActiveInverters
  {
    if next == GetActiveInverters && numInverters > 0 then (next, GetVals) else (next, GetActiveInverters)
  }

  /**
   * A new sequence (fronius.c:350-376): a queued command if there is one,
   * otherwise the idle alternation; GetVals starts its sweep at VARSTART.
   */
  function NextSequence(s: BridgeState): (r: BridgeState)
    requires Consistent(s)
    ensures Consistent(r)
  {
    var info := s.info.(sequenceComplete := false);
    var s1 := if !Empty(s.queue) then
                var p := Pop(s.queue);
                s.(queue := p.0, info := info.(currentSequence := p.1))
              else
                var step := IdleStep(info.nextSequence, s.numInverters);
                s.(info := info.(currentSequence := step.0, nextSequence := step.1));
    if s1.info.currentSequence == GetVals
    then s1.(info := s1.info.(commandLimit := VAREND, commandIndex := VARSTART))
    else s1
  }

  /** invs[0] = 0x55 and invs[i] = i for i in 1..servers (fronius.c:394-401). */
  function ErrorSendingList(servers: nat): (invs: seq<byte>)
    requires servers < 256
    ensures |invs| == servers + 1 && invs[0] == ERRORMAGIC
    ensures forall i | 1 <= i <= servers :: invs[i] == i
  {
    [ERRORMAGIC] + seq(servers, i requires 0 <= i < servers => (i + 1) as byte)
  }

  /** The frame main sends for the current sequence (fronius.c:378-411). */
  function CommandFor(s: BridgeState, servers: int): (sent: Sent)
    requires Consistent(s) && 1 <= servers <= MAXINVERTERS
    ensures sent.NotCoded? <==> s.info.currentSequence == Invalid
  {
    var inv := s.inverter[s.currentInverter];
    match s.info.currentSequence
    case GetVersion => Frame(CommandFrame(0, 0, GETVERSION))
    case GetDevType => Frame(CommandFrame(1, inv, GETDEVICETYPE))
    case GetActiveInverters => Frame(CommandFrame(0, 0, GETACTIVEINVERTERS))
    case GetVals => Frame(CommandFrame(1, inv, LowByte(s.info.commandIndex)))
    case ActivateError =>
      if s.systemType == RS422
      then Frame(CommandNFrame(0, 0, SETERRORSENDING, servers + 1, ErrorSendingList(servers)))
      else Frame(CommandFrame2(0, 0, SETERRORFORWARDING, LowByte(s.errorParam1), LowByte(s.errorParam2)))
    case Invalid => NotCoded
  }

  /**
   * One pass of main's "prepare to send" block: nothing happens unless
   * commandComplete; a completed sequence is replaced by the next one; the
   * current command is sent and awaitReply set.
   */
  function PrepareNext(s: BridgeState, servers: int): (r: (BridgeState, Sent))
    requires Consistent(s) && 1 <= servers <= MAXINVERTERS
    ensures Consistent(r.0)
  {
    if !s.info.commandComplete then (s, NothingDue)
    else
      var s1 := if s.info.sequenceComplete then NextSequence(s) else s;
      (s1.(info := s1.info.(awaitReply := true)), CommandFor(s1, servers))
  }

  /** select timed out: move on to the next command (fronius.c:421-424). */
  function TimedOut(s: BridgeState): (r: BridgeState)
    ensures r.info.commandComplete && r.info.sequenceComplete
    ensures r == s.(info := r.info)
    ensures r.info == s.info.(commandComplete := true, sequenceComplete := true)
  {
    s.(info := s.info.(commandComplete := true, sequenceComplete := true))
  }

  // ---------------------------------------------------------------
  // processSocket
  // ---------------------------------------------------------------

  /** The result of sscanf(buffer + 13, "%d %x", ...) for ActivateError (fronius.c:1143). */
  datatype ErrorArgs =
    | NoInput                          // EOF: nothing after the keyword
    | NoConversion                     // 0: text that is not a number
    | OneArg(param1: int)
    | TwoArgs(param1: int, param2: int)

  /** The levels "debug 0", "debug 1" and "debug 2" set; any other level is an unknown message. */
  type DebugLevel = l: int | 0 <= l <= 2

  /** A control-channel message, already matched against the known commands. */
  datatype ServerCommand =
    | Exit
    | Acknowledge                      // "Ok"
    | Truncate
    | SetDebug(level: DebugLevel)      // "debug 0" .. "debug 2"
    | Help
    | RequestVersion                   // "GetSWVersion"
    | RequestDeviceType                // "GetDevType"
    | RequestActiveInverters           // "GetActiveInverters"
    | RequestActivateError(args: ErrorArgs)
    | Unrecognised

  /** The command type a message queues; None for an unrecognised one. */
  function QueuedType(cmd: ServerCommand): (c: Option<CommandType>)
    ensures c.Some? ==> c.value != Invalid
    ensures c.Some? <==> cmd.RequestVersion? || cmd.RequestDeviceType? || cmd.RequestActiveInverters? || cmd.RequestActivateError?
  {
    match cmd
    case RequestVersion => Some(GetVersion)
    case RequestDeviceType => Some(GetDevType)
    case RequestActiveInverters => Some(GetActiveInverters)
    case RequestActivateError(_) => Some(ActivateError)
    case _ => None
  }

  /** The messages processSocket answers without touching the sequencer. */
  predicate Immediate(cmd: ServerCommand)
  {
    cmd.Exit? || cmd.Acknowledge? || cmd.Truncate? || cmd.SetDebug? || cmd.Help?
  }

  /** The ActivateError parameters after sscanf (fronius.c:1143-1151). */
  function ApplyErrorArgs(s: BridgeState, args: ErrorArgs): (r: BridgeState)
    ensures r == s.(errorParam1 := r.errorParam1, errorParam2 := r.errorParam2)
  {
    match args
    case NoInput => s
    case NoConversion => s.(errorParam1 := 2)
    case OneArg(p1) => s.(errorParam1 := p1, errorParam2 := ERRORMAGIC as int)
    case TwoArgs(p1, p2) => s.(errorParam1 := p1, errorParam2 := p2)
  }

  /**
   * processSocket on one message; the result is the run flag. Every message
   * that is not answered at once sets sequenceComplete and goes through the
   * queue push, which parses ActivateError's parameters only once it knows
   * the queue is not full.
   */
  function ServerMessage(s: BridgeState, cmd: ServerCommand): (r: (BridgeState, bool))
    requires Consistent(s)
    ensures Consistent(r.0)
    ensures r.1 <==> !cmd.Exit?
  {
    if Immediate(cmd) then (s, !cmd.Exit?)
    else
      var s1 := Completed(s);
      var p := Push(s1.queue, QueuedType(cmd));
      var s2 := s1.(queue := p.0);
      if p.1 == Queued && cmd.RequestActivateError? then (ApplyErrorArgs(s2, cmd.args), true)
      else (s2, true)
  }
}
