/**
 * sanitycheck (fronius.c:1303-1401): a per-slot filter that keeps the
 * previous value when a new one is implausible, counts the rejections in
 * the slot's count cell, and lets any value through once the count has
 * passed 2. The DC voltage used by the AC-voltage transient rule is a
 * parameter: the source reads it from responseVal[currentInverter]
 * (fronius.c:1351-1352) while the slot being filtered belongs to the
 * inverter addressed by inverter[currentInverter].
 */
module Sanity {

  /** Measurement indices of the nine polled slots (fronius.c:1317-1392). */
  const POWER: int := 16
  const ENERGY_TOTAL: int := 17
  const ENERGY_DAY: int := 18
  const ENERGY_YEAR: int := 19
  const AC_CURRENT: int := 20
  const AC_VOLTAGE: int := 21
  const AC_FREQUENCY: int := 22
  const DC_CURRENT: int := 23
  const DC_VOLTAGE: int := 24

  /** Largest rise of an energy reading accepted in one step. */
  const ENERGY_STEP: real := 10000.0

  /** The voltage whose crossing counts as an inverter shutdown or recovery. */
  const ACV_THRESHOLD: real := 200.0

  /** The filtered value and the slot's new rejection count. */
  datatype Filtered = Filtered(value: real, count: int)

  /** Slots with a fixed upper bound. */
  predicate HasLimit(index: int)
  {
    index == POWER || index == AC_CURRENT || index == AC_VOLTAGE ||
    index == AC_FREQUENCY || index == DC_CURRENT || index == DC_VOLTAGE
  }

  predicate IsEnergy(index: int)
  {
    ENERGY_TOTAL <= index <= ENERGY_YEAR
  }

  /** The upper bound of each bounded slot. */
  function Limit(index: int): real
    requires HasLimit(index)
  {
    if index == POWER then 10000.0
    else if index == AC_VOLTAGE then 550.0
    else if index == DC_VOLTAGE then 600.0
    else 100.0
  }

  /** The AC voltage crosses 200 V in either direction while the DC side is live. */
  predicate AcvTransient(value: real, prev: real, vdc: real)
  {
    vdc > 0.0 &&
    ((value < ACV_THRESHOLD && prev > ACV_THRESHOLD) || (value > ACV_THRESHOLD && prev < ACV_THRESHOLD))
  }

  /** sanitycheck(value, index, prev, &count) with *count passed in and returned. */
  function SanityCheck(value: real, index: int, prev: real, count: int, vdc: real): (r: Filtered)
    ensures r.value == value || r.value == prev
    ensures r.count == 0 || r.count == count + 1
    ensures 0 <= count <= 3 ==> 0 <= r.count <= 3
  {
    if count > 2 then Filtered(value, 0)
    else if index == POWER then
      (if value > 10000.0 then Filtered(prev, count + 1) else Filtered(value, 0))
    else if IsEnergy(index) then
      (if prev > 0.0 && value > prev + ENERGY_STEP then Filtered(prev, count + 1) else Filtered(value, 0))
    else if index == AC_CURRENT then
      (if value > 100.0 then Filtered(prev, count + 1) else Filtered(value, 0))
    else if index == AC_VOLTAGE then
      (if value > 550.0 then Filtered(prev, count + 1)
       else if value < ACV_THRESHOLD && prev > ACV_THRESHOLD && vdc > 0.0 then Filtered(value, count + 1)
       else if value > ACV_THRESHOLD && prev < ACV_THRESHOLD && vdc > 0.0 then Filtered(value, count + 1)
       else Filtered(value, 0))
    else if index == AC_FREQUENCY then
      (if value > 100.0 then Filtered(prev, count + 1) else Filtered(value, 0))
    else if index == DC_CURRENT then
      (if value > 100.0 then Filtered(prev, count + 1) else Filtered(value, 0))
    else if index == DC_VOLTAGE then
      (if value > 600.0 then Filtered(prev, count + 1) else Filtered(value, 0))
    else Filtered(prev, count + 1)
  }

  /** Past two rejections the new value is taken and the count cleared, whatever it is. */
  lemma OverrideAfterTwo(value: real, index: int, prev: real, count: int, vdc: real)
    requires count > 2
    ensures SanityCheck(value, index, prev, count, vdc) == Filtered(value, 0)
  {
  }

  /**
   * Below the override, a bounded slot keeps prev and counts the rejection
   * exactly when the value exceeds its bound; otherwise it takes the new
   * value, and clears the count unless it is an AC-voltage transient.
   */
  lemma BoundedSlot(value: real, index: int, prev: real, count: int, vdc: real)
    requires 0 <= count <= 2 && HasLimit(index)
    ensures var r := SanityCheck(value, index, prev, count, vdc);
      value > Limit(index) ==> r == Filtered(prev, count + 1)
    ensures var r := SanityCheck(value, index, prev, count, vdc);
      value <= Limit(index) ==> r.value == value
    ensures var r := SanityCheck(value, index, prev, count, vdc);
      value <= Limit(index) ==> (r.count == 0 <==> !(index == AC_VOLTAGE && AcvTransient(value, prev, vdc)))
  {
  }

  /**
   * Below the override, an energy slot is rejected exactly when the
   * previous reading is positive and the new one rises by more than 10000.
   */
  lemma EnergySlot(value: real, index: int, prev: real, count: int, vdc: real)
    requires count <= 2 && IsEnergy(index)
    ensures var r := SanityCheck(value, index, prev, count, vdc);
      r == (if prev > 0.0 && value > prev + ENERGY_STEP then Filtered(prev, count + 1) else Filtered(value, 0))
    ensures prev <= 0.0 ==> SanityCheck(value, index, prev, count, vdc) == Filtered(value, 0)
  {
  }

  /** Below the override an index outside 16..24 keeps prev and counts a rejection. */
  lemma UnknownIndex(value: real, index: int, prev: real, count: int, vdc: real)
    requires count <= 2 && !(POWER <= index <= DC_VOLTAGE)
    ensures SanityCheck(value, index, prev, count, vdc) == Filtered(prev, count + 1)
  {
  }

  /**
   * The AC-voltage transient: crossing 200 V either way with a live DC side
   * takes the NEW value and still counts it towards the override.
   */
  lemma AcvTransientAcceptedAndCounted(value: real, prev: real, count: int, vdc: real)
    requires count <= 2 && value <= 550.0 && AcvTransient(value, prev, vdc)
    ensures SanityCheck(value, AC_VOLTAGE, prev, count, vdc) == Filtered(value, count + 1)
  {
  }

  /** A count reset to 0 means the new value was taken. */
  lemma ResetMeansAccepted(value: real, index: int, prev: real, count: int, vdc: real)
    requires count >= 0
    ensures SanityCheck(value, index, prev, count, vdc).count == 0 ==> SanityCheck(value, index, prev, count, vdc).value == value
  {
  }

  /**
   * A reading equal to the previous one is taken and clears the count when
   * it is within its slot's limit, and for the energy slots always.
   */
  lemma SteadyReadingAccepted(value: real, index: int, count: int, vdc: real)
    requires (HasLimit(index) && value <= Limit(index)) || IsEnergy(index)
    ensures SanityCheck(value, index, value, count, vdc) == Filtered(value, 0)
  {
  }

  /**
   * The slot update of fronius.c:842 applied n times to the same reading:
   * the result is stored back as the next call's prev.
   */
  function Resubmit(value: real, index: int, prev: real, count: int, vdc: real, n: nat): (r: Filtered)
    decreases n
  {
    if n == 0 then Filtered(prev, count)
    else
      var r := Resubmit(value, index, prev, count, vdc, n - 1);
      SanityCheck(value, index, r.value, r.count, vdc)
  }

  /**
   * An out-of-bounds reading submitted again and again from a zero count is
   * rejected three times (the slot keeps prev, the count climbs to 3) and
   * taken on the fourth submission, which clears the count.
   */
  lemma {:induction false} RejectedThreeTimesThenTaken(value: real, index: int, prev: real, vdc: real, n: nat)
    requires HasLimit(index) && value > Limit(index)
    requires n <= 4
    ensures Resubmit(value, index, prev, 0, vdc, n) == if n <= 3 then Filtered(prev, n) else Filtered(value, 0)
  {
    if n > 0 {
      RejectedThreeTimesThenTaken(value, index, prev, vdc, n - 1);
    }
  }
}
