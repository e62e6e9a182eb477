/**
 * The report of dropped short packets (fronius.c:753-758). The test is
 * written `!shortpacket % 100`; in C `!` binds tighter than `%`, so it is
 * `(!shortpacket) % 100`, which is 0 for every count from 1 on: the
 * report line is never produced. The evident intent is a line at every
 * hundredth short packet. Both readings are here; the bridge uses the
 * intended one.
 */
module Findings {

  /** The test as written: (!n) % 100, with !n being 1 for n == 0 and 0 otherwise. */
  function ShortPacketLogDueAsWritten(n: int): (due: bool)
  {
    (if n == 0 then 1 else 0) % 100 != 0
  }

  /** The intended test: every hundredth short packet is reported. */
  function ShortPacketLogDue(n: int): (due: bool)
  {
    n % 100 == 0
  }

  /** How many of the counts 1..n produce a report under a test. */
  function ReportsUpTo(asWritten: bool, n: nat): (c: nat)
    ensures c <= n
  {
    if n == 0 then 0
    else
      ReportsUpTo(asWritten, n - 1) +
      (if (if asWritten then ShortPacketLogDueAsWritten(n) else ShortPacketLogDue(n)) then 1 else 0)
  }

  /** As written, the counter is incremented before the test, so no count ever reports. */
  lemma {:induction false} AsWrittenNeverReports(n: nat)
    ensures ReportsUpTo(true, n) == 0
  {
    if n > 0 {
      AsWrittenNeverReports(n - 1);
    }
  }

  /** The hundredth short packet shows it: it is not reported. */
  lemma HundredthShortPacketNotReported()
    ensures !ShortPacketLogDueAsWritten(100) && ShortPacketLogDue(100)
  {
  }

  /** The intended test reports exactly one in every hundred short packets. */
  lemma {:induction false} IntendedReportsEveryHundredth(n: nat)
    ensures ReportsUpTo(false, n) == n / 100
  {
    if n > 0 {
      IntendedReportsEveryHundredth(n - 1);
      if n % 100 == 0 {
        assert n / 100 == (n - 1) / 100 + 1;
      } else {
        assert n / 100 == (n - 1) / 100;
      }
    }
  }
}
