/**
 * The three outbound command encodings of fronius.c: sendCommand (no data
 * bytes), sendCommand2 (two parameter bytes) and sendCommandN (howmany
 * parameter bytes). The bytes that sendSerial would write one at a time
 * are returned as a sequence.
 */
module Frames {
  import opened Wire

  /** Frame of sendCommand (fronius.c:533-550): length byte 0, checksum over dev, num, cmd. */
  function CommandFrame(dev: byte, num: byte, cmd: byte): (f: seq<byte>)
    ensures WellFormed(f) && |f| == 8
    ensures f[3] == 0 && f[4..7] == [dev, num, cmd]
  {
    var f := [SYNC, SYNC, SYNC, 0, dev, num, cmd, LowByte(dev as int + num as int + cmd as int)];
    assert f[3..7] == [0, dev, num, cmd];
    Sum4(0, dev, num, cmd);
    f
  }

  /** Frame of sendCommand2 (fronius.c:556-576): length byte 2, then the two parameters. */
  function CommandFrame2(dev: byte, num: byte, cmd: byte, param1: byte, param2: byte): (f: seq<byte>)
    ensures WellFormed(f) && |f| == 10
    ensures f[3] == 2 && f[4..7] == [dev, num, cmd] && f[7..9] == [param1, param2]
  {
    var f := [SYNC, SYNC, SYNC, 2, dev, num, cmd, param1, param2,
              LowByte(2 + dev as int + num as int + cmd as int + param1 as int + param2 as int)];
    assert f[3..9] == [2, dev, num, cmd] + [param1, param2];
    Sum4(2, dev, num, cmd);
    SumConcat([2, dev, num, cmd], [param1, param2]);
    Sum2(param1, param2);
    f
  }

  /**
   * Frame of sendCommandN (fronius.c:582-605). The length byte is howmany
   * stored into an unsigned char; the checksum is the low byte of the sum
   * of howmany, dev, num, cmd and the first howmany parameters.
   */
  function CommandNFrame(dev: byte, num: byte, cmd: byte, howmany: nat, params: seq<byte>): (f: seq<byte>)
    requires howmany <= |params|
    ensures |f| == howmany + 8 && HasSync(f)
    ensures f[3] == LowByte(howmany) && f[4..7] == [dev, num, cmd] && f[7..|f| - 1] == params[..howmany]
    ensures howmany < 256 ==> WellFormed(f)
  {
    var head := [LowByte(howmany), dev, num, cmd];
    var f := [SYNC, SYNC, SYNC] + head + params[..howmany]
             + [LowByte(howmany + dev as int + num as int + cmd as int + Sum(params[..howmany]))];
    assert f[3..|f| - 1] == head + params[..howmany];
    SumConcat(head, params[..howmany]);
    Sum4(LowByte(howmany), dev, num, cmd);
    LowByteAdd(howmany, dev as int + num as int + cmd as int + Sum(params[..howmany]));
    f
  }

  /**
   * sendCommandN's loop: each parameter is sent and added into the
   * unsigned-char checksum in turn.
   */
  method BuildCommandN(dev: byte, num: byte, cmd: byte, howmany: nat, params: seq<byte>) returns (frame: seq<byte>)
    requires howmany <= |params|
    ensures frame == CommandNFrame(dev, num, cmd, howmany, params)
  {
    frame := [SYNC, SYNC, SYNC, LowByte(howmany), dev, num, cmd];
    ghost var head := frame;
    ghost var base := howmany + dev as int + num as int + cmd as int;
    var checksum: byte := LowByte(howmany + dev as int + num as int + cmd as int);
    var i := 0;
    while i < howmany
      invariant 0 <= i <= howmany
      invariant frame == head + params[..i]
      invariant checksum == LowByte(base + Sum(params[..i]))
    {
      assert params[..i + 1] == params[..i] + [params[i]];
      SumSnoc(params[..i], params[i]);
      LowByteAdd(base + Sum(params[..i]), params[i]);
      frame := frame + [params[i]];
      checksum := LowByte(checksum as int + params[i] as int);
      i := i + 1;
    }
    assert params[..howmany] == params[..i];
    frame := frame + [checksum];
  }
}
