/**
 * The bridge's globals as one object and the live code paths as its
 * methods, each proved to follow the matching function of Bridge:
 * ProcessPacket follows Packet, PrepareNextCommand follows PrepareNext,
 * SelectTimedOut follows TimedOut and HandleServerCommand follows
 * ServerMessage.
 */
module Engine {
  import opened Wire
  import opened Frames
  import opened Decoding
  import opened Sanity
  import opened Queue
  import opened Findings
  import opened Bridge

  /** A two-dimensional array as the sequence of its rows. */
  ghost function Rows<T>(a: array2<T>): (t: seq<seq<T>>)
    reads a
    ensures |t| == a.Length0 && forall i | 0 <= i < a.Length0 :: |t[i]| == a.Length1
    ensures forall i, j | 0 <= i < a.Length0 && 0 <= j < a.Length1 :: t[i][j] == a[i, j]
  {
    seq(a.Length0, i requires 0 <= i < a.Length0 reads a =>
      seq(a.Length1, j requires 0 <= j < a.Length1 reads a => a[i, j]))
  }

  /** Two tables with the same shape and the same cells are equal. */
  lemma TablesEqual<T>(x: seq<seq<T>>, y: seq<seq<T>>)
    requires |x| == |y|
    requires forall i | 0 <= i < |x| :: |x[i]| == |y[i]|
    requires forall i, j | 0 <= i < |x| && 0 <= j < |x[i]| :: x[i][j] == y[i][j]
    ensures x == y
  {
    forall i | 0 <= i < |x|
      ensures x[i] == y[i]
    {
      assert forall j | 0 <= j < |x[i]| :: x[i][j] == y[i][j];
    }
  }

  /** processPacket's validation (fronius.c:751-795), with its header and checksum loops. */
  method ValidatePacket(msg: seq<byte>) returns (v: Validity)
    ensures v == Validate(msg)
  {
    var len := At(msg, 3) as int;
    if |msg| < len + 8 {
      return Short;
    }
    var headerOk := true;
    for i := 0 to 3
      invariant headerOk <==> forall j | 0 <= j < i :: msg[j] == SYNC
    {
      if msg[i] != SYNC {
        headerOk := false;
      }
    }
    var checksum: int := 0;
    for i := 3 to len + 7
      invariant checksum == Sum(msg[3..i])
    {
      assert msg[3..i + 1] == msg[3..i] + [msg[i]];
      SumSnoc(msg[3..i], msg[i]);
      checksum := checksum + msg[i] as int;
    }
    if LowByte(checksum) != msg[len + 7] {
      return BadChecksum;
    }
    return Accepted(headerOk);
  }

  /** The invs[] loop of main's ActivateError case (fronius.c:394-401); howmany is the final i. */
  method ErrorSendingParams(servers: nat) returns (invs: seq<byte>, howmany: nat)
    requires servers < 256
    ensures invs == ErrorSendingList(servers) && howmany == servers + 1
  {
    invs := [ERRORMAGIC];
    var i := 1;
    while i <= servers
      invariant 1 <= i <= servers + 1
      invariant invs == ErrorSendingList(i - 1)
    {
      assert ErrorSendingList(i - 1) + [i as byte] == ErrorSendingList(i);
      invs := invs + [i as byte];
      i := i + 1;
    }
    howmany := i;
  }

  /** The globals of fronius.c that the core reads and writes. */
  class Fronius {
    const servers: int
    var staticInfo: StaticInfo
    const queue: CommandQueue
    var systemType: SystemType
    var numInverters: int
    var currentInverter: int
    const inverter: array<byte>
    const responseVal: array2<real>
    const count: array2<int>
    var inverterStatus: set<int>
    var prevInverterStatus: set<int>
    var errorActivateState: ErrorActivateState
    var errorParam1: int
    var errorParam2: int
    var shortPackets: nat

    ghost predicate Valid()
      reads this, queue
    {
      1 <= servers <= MAXINVERTERS && queue.Valid() &&
      inverter.Length == MAXINVERTERS &&
      responseVal.Length0 == MAXINVERTERS && responseVal.Length1 == NUMVALS &&
      count.Length0 == MAXINVERTERS && count.Length1 == NUMVALS &&
      0 <= currentInverter < MAXINVERTERS && 0 <= numInverters <= MAXINVERTERS
    }

    ghost function State(): (s: BridgeState)
      reads this, queue, queue.types, inverter, responseVal, count
      requires Valid()
      ensures Consistent(s)
    {
      BridgeState(staticInfo, queue.State(), systemType, numInverters, currentInverter,
                  inverter[..], Rows(responseVal), Rows(count), inverterStatus, prevInverterStatus,
                  errorActivateState, errorParam1, errorParam2, shortPackets)
    }

    /** The globals as main has them when it enters its loop; dayOfMonth stands for localtime's tm_mday. */
    constructor (servers: int, dayOfMonth: int)
      requires 1 <= servers <= MAXINVERTERS
      ensures Valid() && this.servers == servers
      ensures fresh(queue) && fresh(queue.types) && fresh(inverter) && fresh(responseVal) && fresh(count)
      ensures State() == Initial(servers, dayOfMonth)
    {
      this.servers := servers;
      staticInfo := StaticInfo(0, 0, true, false, GetVersion, ActivateError, false);
      queue := new CommandQueue();
      systemType := Unset;
      numInverters := 0;
      currentInverter := 0;
      inverter := new byte[MAXINVERTERS](i => if i == 0 then 1 else 0);
      responseVal := new real[MAXINVERTERS, NUMVALS]((_, _) => 0.0);
      count := new int[MAXINVERTERS, NUMVALS]((_, _) => 0);
      inverterStatus := {};
      prevInverterStatus := AllBits();
      errorActivateState := EasInit;
      errorParam1 := if servers > 1 then dayOfMonth else 2;
      errorParam2 := ERRORMAGIC as int;
      shortPackets := 0;
      new;
      assert inverter[..] == seq(MAXINVERTERS, i => if i == 0 then 1 else 0);
      TablesEqual(Rows(responseVal), seq(MAXINVERTERS, _ => seq(NUMVALS, _ => 0.0)));
      TablesEqual(Rows(count), seq(MAXINVERTERS, _ => seq(NUMVALS, _ => 0)));
    }

    /** processPacket(data.buf) with data.count == |msg|. */
    method ProcessPacket(msg: seq<byte>) returns (r: PacketOutcome)
      requires Valid()
      modifies this, inverter, responseVal, count
      ensures Valid()
      ensures (State(), r) == Packet(old(State()), servers, msg)
    {
      var v := ValidatePacket(msg);
      match v
      case Short =>
        shortPackets := shortPackets + 1;
        return ShortPacket(ShortPacketLogDue(shortPackets));
      case BadChecksum =>
        return ChecksumFailed;
      case Accepted(_) =>
        staticInfo := staticInfo.(commandComplete := true, awaitReply := false);
        var index := At(msg, 6) as int;
        if VARSTART <= index <= LASTDATAINDEX {
          r := HandleDataReply(msg);
        } else if index == GETVERSION as int {
          r := HandleVersion(msg);
        } else if index == GETDEVICETYPE as int {
          staticInfo := staticInfo.(sequenceComplete := true);
          r := Acknowledged;
        } else if index == GETACTIVEINVERTERS as int {
          r := HandleActiveInverters(msg);
        } else if index == SETERRORFORWARDING as int {
          r := HandleErrorForwarding(msg);
        } else if index == SETERRORSENDING as int {
          r := HandleErrorSending(msg);
        } else if index == PROTOCOLERROR as int {
          staticInfo := staticInfo.(sequenceComplete := true);
          r := Acknowledged;
        } else {
          r := Ignored;
        }
    }

    /** A measurement reply (fronius.c:821-879). */
    method HandleDataReply(msg: seq<byte>) returns (r: PacketOutcome)
      requires Valid() && VARSTART <= At(msg, 6) as int <= LASTDATAINDEX
      modifies this, responseVal, count
      ensures Valid()
      ensures (State(), r) == DataReply(old(State()), servers, msg)
    {
      ghost var s := State();
      var invnum := inverter[currentInverter];
      if invnum < 1 || invnum as int > MAXINVERTERS {
        return AddressOutOfRange(invnum);
      }
      var index := At(msg, 6) as int;
      if index <= VAREND {
        var value := ReplyValue(At(msg, 7), At(msg, 8), At(msg, 9), index);
        StoreSlot(invnum - 1, index - VARSTART, value);
      }
      assert State() == if index <= VAREND
        then StoreValue(s, invnum - 1, index - VARSTART, ReplyValue(At(msg, 7), At(msg, 8), At(msg, 9), index))
        else s;
      r := AdvanceSweep(invnum);
    }

    /** ++commandIndex and the end of the sweep (fronius.c:847-877). */
    method AdvanceSweep(invnum: byte) returns (r: PacketOutcome)
      requires Valid() && 1 <= invnum as int <= MAXINVERTERS
      modifies this
      ensures Valid()
      ensures (State(), r) == SweepReply(old(State()), servers, invnum)
    {
      staticInfo := staticInfo.(commandIndex := staticInfo.commandIndex + 1);
      if staticInfo.commandIndex > staticInfo.commandLimit {
        staticInfo := staticInfo.(sequenceComplete := true);
        if invnum as int > servers {
          return ReportBeyondServers(invnum);
        }
        var row := seq(NUMVALS, j requires 0 <= j < NUMVALS reads responseVal => responseVal[invnum - 1, j]);
        assert row == Rows(responseVal)[invnum - 1];
        currentInverter := currentInverter + 1;
        if currentInverter >= numInverters {
          currentInverter := 0;
        }
        return Report(invnum, row);
      }
      r := Stored;
    }

    /**
     * valp[k] = sanitycheck(value, VARSTART + k, valp[k], &count[row][k]):
     * the filter's count update goes straight into the count cell.
     */
    method StoreSlot(row: int, k: int, value: real)
      requires Valid() && 0 <= row < MAXINVERTERS && 0 <= k < NUMVALS
      modifies responseVal, count
      ensures Valid()
      ensures State() == StoreValue(old(State()), row, k, value)
    {
      ghost var vals, counts := Rows(responseVal), Rows(count);
      var vdc := responseVal[currentInverter, DC_VOLTAGE - VARSTART];
      var f := SanityCheck(value, VARSTART + k, responseVal[row, k], count[row, k], vdc);
      responseVal[row, k] := f.value;
      count[row, k] := f.count;
      TablesEqual(Rows(responseVal), vals[row := vals[row][k := f.value]]);
      TablesEqual(Rows(count), counts[row := counts[row][k := f.count]]);
    }

    /** GETVERSION reply (fronius.c:882-902). */
    method HandleVersion(msg: seq<byte>) returns (r: PacketOutcome)
      requires Valid()
      modifies this
      ensures Valid()
      ensures (State(), r) == VersionReply(old(State()), msg)
    {
      staticInfo := staticInfo.(sequenceComplete := true);
      if At(msg, 3) == 4 {
        var t := At(msg, 7);
        systemType := if t < 4 then SystemTypeOf(t) else Datalogger;
      }
      r := Acknowledged;
    }

    /** GETACTIVEINVERTERS reply (fronius.c:912-961). */
    method HandleActiveInverters(msg: seq<byte>) returns (r: PacketOutcome)
      requires Valid()
      modifies this, inverter
      ensures Valid()
      ensures (State(), r) == ActiveInvertersReply(old(State()), servers, msg)
    {
      var len := At(msg, 3);
      staticInfo := staticInfo.(sequenceComplete := true);
      if len == 0 {
        inverterStatus := {};
        numInverters := 0;
        prevInverterStatus := inverterStatus;
        return Discovered(0);
      }
      if len as int > MAXINVERTERS {
        prevInverterStatus := inverterStatus;
        return DiscoveryLengthInvalid(len);
      }
      numInverters := len as int;
      var status, stop := ScanAddresses(msg);
      inverterStatus := status;
      if stop.Some? {
        return stop.value;
      }
      prevInverterStatus := inverterStatus;
      r := Discovered(len as nat);
    }

    /**
     * The loop of fronius.c:928-950: each address is written into
     * inverter[i], 0 is corrected to 1, and the glitch value or an address
     * above servers ends the loop with the bits collected so far.
     */
    method ScanAddresses(msg: seq<byte>) returns (status: set<int>, stop: Option<PacketOutcome>)
      requires Valid() && 1 <= At(msg, 3) as int <= MAXINVERTERS
      modifies inverter
      ensures var addrs := Addresses(msg);
        var k := FirstAbort(addrs, servers);
        inverter[..] == WriteAddresses(old(inverter[..]), addrs, WrittenCount(addrs, servers)) &&
        status == StatusBits(addrs[..k]) &&
        stop == (if k == |addrs| then None
                 else if Corrected(addrs[k]) == GLITCHADDRESS then Some(DiscoveryGlitch(k))
                 else Some(DiscoveryBeyondServers(k, Corrected(addrs[k]))))
    {
      var len := At(msg, 3) as int;
      ghost var addrs := Addresses(msg);
      ghost var before := inverter[..];
      status := {};
      stop := None;
      var i := 0;
      while i < len && stop.None?
        invariant 0 <= i <= len && i <= FirstAbort(addrs, servers)
        invariant stop.None? ==> inverter[..] == WriteAddresses(before, addrs, i)
        invariant stop.Some? ==> (i == FirstAbort(addrs, servers) < len &&
          inverter[..] == WriteAddresses(before, addrs, i + 1) &&
          stop.value == (if Corrected(addrs[i]) == GLITCHADDRESS then DiscoveryGlitch(i)
                         else DiscoveryBeyondServers(i, Corrected(addrs[i]))))
        invariant status == StatusBits(addrs[..i])
        decreases len - i, if stop.None? then 1 else 0
      {
        inverter[i] := At(msg, 7 + i);
        if inverter[i] == 0 {
          inverter[i] := 1;
        }
        assert inverter[..] == WriteAddresses(before, addrs, i + 1);
        if inverter[i] == GLITCHADDRESS {
          stop := Some(DiscoveryGlitch(i));
        } else if inverter[i] as int > servers {
          stop := Some(DiscoveryBeyondServers(i, inverter[i]));
        } else {
          StatusBitsSnoc(addrs, i);
          if inverter[i] < 32 {
            status := status + {inverter[i] as int};
          }
          i := i + 1;
        }
      }
    }

    /** SETERRORFORWARDING reply (fronius.c:962-997). */
    method HandleErrorForwarding(msg: seq<byte>) returns (r: PacketOutcome)
      requires Valid()
      modifies this
      ensures Valid()
      ensures (State(), r) == ErrorForwardingReply(old(State()), msg)
    {
      staticInfo := staticInfo.(sequenceComplete := true);
      var success := At(msg, 7) == ERRORMAGIC;
      if errorActivateState == EasInit {
        errorActivateState := EasComplete;
        return ErrorForwarding(true, success);
      }
      r := ErrorForwarding(false, success);
    }

    /** SETERRORSENDING reply (fronius.c:998-1038). */
    method HandleErrorSending(msg: seq<byte>) returns (r: PacketOutcome)
      requires Valid()
      modifies this
      ensures Valid()
      ensures (State(), r) == ErrorSendingReply(old(State()), servers, msg)
    {
      staticInfo := staticInfo.(sequenceComplete := true);
      var len := At(msg, 3) as int;
      if len > MAXINVERTERS + 1 || len > servers + 1 {
        return ErrorSendingRejected(len as byte);
      }
      errorActivateState := EasComplete;
      r := ErrorSending(ErrorSendingAcks(msg));
    }

    /** main's "prepare to send next command" block (fronius.c:347-413). */
    method PrepareNextCommand() returns (sent: Sent)
      requires Valid()
      modifies this, queue
      ensures Valid()
      ensures (State(), sent) == PrepareNext(old(State()), servers)
    {
      if !staticInfo.commandComplete {
        return NothingDue;
      }
      if staticInfo.sequenceComplete {
        StartNextSequence();
      }
      sent := SendCurrent();
      staticInfo := staticInfo.(awaitReply := true);
    }

    /** A queued command or the idle alternation, and the GetVals range (fronius.c:350-376). */
    method StartNextSequence()
      requires Valid()
      modifies this, queue
      ensures Valid()
      ensures State() == NextSequence(old(State()))
    {
      staticInfo := staticInfo.(sequenceComplete := false);
      var empty := queue.IsEmpty();
      if !empty {
        var c := queue.Dequeue();
        staticInfo := staticInfo.(currentSequence := c);
      } else {
        staticInfo := staticInfo.(currentSequence := staticInfo.nextSequence);
        if staticInfo.currentSequence == GetActiveInverters && numInverters > 0 {
          staticInfo := staticInfo.(nextSequence := GetVals);
        } else {
          staticInfo := staticInfo.(nextSequence := GetActiveInverters);
        }
      }
      if staticInfo.currentSequence == GetVals {
        staticInfo := staticInfo.(commandLimit := VAREND, commandIndex := VARSTART);
      }
    }

    /** The switch on currentSequence that sends one command (fronius.c:378-411). */
    method SendCurrent() returns (sent: Sent)
      requires Valid()
      ensures sent == CommandFor(State(), servers)
    {
      var inv := inverter[currentInverter];
      match staticInfo.currentSequence
      case GetVersion =>
        sent := Frame(CommandFrame(0, 0, GETVERSION));
      case GetDevType =>
        sent := Frame(CommandFrame(1, inv, GETDEVICETYPE));
      case GetActiveInverters =>
        sent := Frame(CommandFrame(0, 0, GETACTIVEINVERTERS));
      case GetVals =>
        sent := Frame(CommandFrame(1, inv, LowByte(staticInfo.commandIndex)));
      case ActivateError =>
        if systemType == RS422 {
          var invs, howmany := ErrorSendingParams(servers);
          var frame := BuildCommandN(0, 0, SETERRORSENDING, howmany, invs);
          sent := Frame(frame);
        } else {
          sent := Frame(CommandFrame2(0, 0, SETERRORFORWARDING, LowByte(errorParam1), LowByte(errorParam2)));
        }
      case Invalid =>
        sent := NotCoded;
    }

    /** select returned 0: the current command is treated as done (fronius.c:421-424). */
    method SelectTimedOut()
      requires Valid()
      modifies this
      ensures Valid()
      ensures State() == TimedOut(old(State()))
    {
      staticInfo := staticInfo.(commandComplete := true, sequenceComplete := true);
    }

    /** processSocket after the message text has been read and matched (fronius.c:1095-1169). */
    method HandleServerCommand(cmd: ServerCommand) returns (run: bool)
      requires Valid()
      modifies this, queue, queue.types
      ensures Valid()
      ensures (State(), run) == ServerMessage(old(State()), cmd)
    {
      if cmd.Exit? {
        return false;
      }
      if Immediate(cmd) {
        return true;
      }
      staticInfo := staticInfo.(sequenceComplete := true);
      var pushed := queue.Enqueue(QueuedType(cmd));
      if pushed == Queued && cmd.RequestActivateError? {
        match cmd.args
        case NoInput =>
        case NoConversion =>
          errorParam1 := 2;
        case OneArg(p1) =>
          errorParam1 := p1;
          errorParam2 := ERRORMAGIC as int;
        case TwoArgs(p1, p2) =>
          errorParam1 := p1;
          errorParam2 := p2;
      }
      run := true;
    }
  }
}
