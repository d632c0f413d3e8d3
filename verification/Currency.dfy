/** Currency conversion over exact numbers: amounts of whole units and billionths, with a carry. */
module Currency {

  /** Billionths in a unit. */
  const FRACTION_SIZE := 1000000000.0

  /** JavaScript's remainder by one: what is left after cutting towards zero. */
  function Fraction(x: real): real {
    x - Cut(x) as real
  }

  /** The integer part, towards zero. */
  function Cut(x: real): int {
    if x >= 0.0 then x.Floor else -(-x).Floor
  }

  /** JavaScript's remainder by the number of billionths in a unit. */
  function NanosRest(x: real): real {
    x - FRACTION_SIZE * Cut(x / FRACTION_SIZE) as real
  }

  /** JavaScript's `Math.round`: halves go up. */
  function Round(x: real): int {
    (x + 0.5).Floor
  }

  predicate IsWhole(x: real) {
    x.Floor as real == x
  }

  function Total(units: real, nanos: real): real {
    units * FRACTION_SIZE + nanos
  }

  /** The nanos once the fraction of the units has been moved over. */
  function Moved(units: real, nanos: real): real {
    nanos + Fraction(units) * FRACTION_SIZE
  }

  function CarriedUnits(units: real, nanos: real): real {
    (units.Floor + (Moved(units, nanos) / FRACTION_SIZE).Floor) as real
  }

  function CarriedNanos(units: real, nanos: real): real {
    NanosRest(Moved(units, nanos))
  }

  class Amount {
    var units: real
    var nanos: real

    constructor (units: real, nanos: real)
      ensures this.units == units && this.nanos == nanos
    {
      this.units, this.nanos := units, nanos;
    }

    method Carry()
      modifies this
      ensures units == CarriedUnits(old(units), old(nanos)) && nanos == CarriedNanos(old(units), old(nanos))
    {
      nanos := nanos + Fraction(units) * FRACTION_SIZE;
      units := (units.Floor + (nanos / FRACTION_SIZE).Floor) as real;
      nanos := NanosRest(nanos);
    }
  }

  /** How far below zero with a fraction a number is: cutting such a number is one above its floor. */
  function Slip(x: real): int {
    if x >= 0.0 || IsWhole(x) then 0 else 1
  }

  lemma FloorUnique(x: real, k: int)
    requires k as real <= x < (k + 1) as real
    ensures x.Floor == k
  {
  }

  lemma FloorIsWhole(x: real)
    ensures IsWhole(x.Floor as real) && x.Floor as real <= x < x.Floor as real + 1.0
    ensures x >= 0.0 ==> x.Floor >= 0
  {
  }

  lemma CutAndFloor(x: real)
    ensures Cut(x) == x.Floor + Slip(x)
  {
    if x < 0.0 {
      FloorUnique(-x, if IsWhole(x) then -x.Floor else -x.Floor - 1);
    }
  }

  /** A carry loses a whole unit for each of the two cuts that goes up instead of down. */
  lemma CarryTotal(units: real, nanos: real)
    ensures Total(CarriedUnits(units, nanos), CarriedNanos(units, nanos)) ==
              Total(units, nanos)
              - FRACTION_SIZE * (Slip(units) + Slip(Moved(units, nanos) / FRACTION_SIZE)) as real
  {
    CutAndFloor(units);
    CutAndFloor(Moved(units, nanos) / FRACTION_SIZE);
  }

  /** The carry keeps the total exactly if neither number is negative with a fraction. */
  lemma CarryPreservesIff(units: real, nanos: real)
    ensures Total(CarriedUnits(units, nanos), CarriedNanos(units, nanos)) == Total(units, nanos) <==>
              && (units >= 0.0 || IsWhole(units))
              && (Moved(units, nanos) >= 0.0 || IsWhole(Moved(units, nanos) / FRACTION_SIZE))
  {
    CarryTotal(units, nanos);
  }

  /** Minus one and a half units become minus three and a half. */
  lemma CarryLosesNegative()
    ensures Total(CarriedUnits(-1.5, 0.0), CarriedNanos(-1.5, 0.0)) == Total(-3.5, 0.0)
  {
    assert (-1.5).Floor == -2 && (1.5).Floor == 1 && (-0.5).Floor == -1 && (0.5).Floor == 0;
    assert Moved(-1.5, 0.0) / FRACTION_SIZE == -0.5;
  }

  /** Without negative numbers the carry keeps the total and normalises both fields. */
  lemma CarryNormalises(units: real, nanos: real)
    requires units >= 0.0 && nanos >= 0.0
    ensures Total(CarriedUnits(units, nanos), CarriedNanos(units, nanos)) == Total(units, nanos)
    ensures IsWhole(CarriedUnits(units, nanos)) && CarriedUnits(units, nanos) >= 0.0
    ensures 0.0 <= CarriedNanos(units, nanos) < FRACTION_SIZE == 1000000000.0
    ensures CarriedUnits(units, nanos) * 1000000000.0 + CarriedNanos(units, nanos) == units * 1000000000.0 + nanos
  {
    assert Moved(units, nanos) >= 0.0;
    CarryPreservesIff(units, nanos);
    var q := Moved(units, nanos) / FRACTION_SIZE;
    assert q >= 0.0 && q.Floor >= 0 && units.Floor >= 0;
    assert CarriedNanos(units, nanos) == FRACTION_SIZE * (q - q.Floor as real);
  }

  // ---------- Conversion ----------

  /** An amount or a part of one at a rate. */
  function Times(x: real, rate: real): real {
    x * rate
  }

  function EuroUnits(units: real, nanos: real, rateFrom: real): real
    requires rateFrom > 0.0
  {
    CarriedUnits(units / rateFrom, nanos / rateFrom)
  }

  function EuroNanos(units: real, nanos: real, rateFrom: real): real
    requires rateFrom > 0.0
  {
    Round(CarriedNanos(units / rateFrom, nanos / rateFrom)) as real
  }

  /** From one currency to euros, rounded to a billionth, and from there to the other, rounded down. */
  method Convert(units: real, nanos: real, rateFrom: real, rateTo: real) returns (result: Amount)
    requires rateFrom > 0.0 && rateTo > 0.0
    ensures fresh(result)
    ensures result.units == ConvertedUnits(units, nanos, rateFrom, rateTo)
    ensures result.nanos == ConvertedNanos(units, nanos, rateFrom, rateTo)
  {
    hide CarriedUnits, CarriedNanos;
    var euros := new Amount(units / rateFrom, nanos / rateFrom);
    euros.Carry();
    euros.nanos := Round(euros.nanos) as real;
    assert euros.units == EuroUnits(units, nanos, rateFrom);
    assert euros.nanos == EuroNanos(units, nanos, rateFrom);
    var u, n := euros.units, euros.nanos;
    result := new Amount(Times(u, rateTo), Times(n, rateTo));
    result.Carry();
    result.units := result.units.Floor as real;
    result.nanos := result.nanos.Floor as real;
    assert result.units == UnitsAt(u, n, rateTo) && result.nanos == NanosAt(u, n, rateTo);
  }

  /** The carried amount in the other currency, its fields rounded down. */
  function UnitsAt(euroUnits: real, euroNanos: real, rateTo: real): real {
    CarriedUnits(Times(euroUnits, rateTo), Times(euroNanos, rateTo)).Floor as real
  }

  function NanosAt(euroUnits: real, euroNanos: real, rateTo: real): real {
    CarriedNanos(Times(euroUnits, rateTo), Times(euroNanos, rateTo)).Floor as real
  }

  function ConvertedUnits(units: real, nanos: real, rateFrom: real, rateTo: real): real
    requires rateFrom > 0.0
  {
    UnitsAt(EuroUnits(units, nanos, rateFrom), EuroNanos(units, nanos, rateFrom), rateTo)
  }

  function ConvertedNanos(units: real, nanos: real, rateFrom: real, rateTo: real): real
    requires rateFrom > 0.0
  {
    NanosAt(EuroUnits(units, nanos, rateFrom), EuroNanos(units, nanos, rateFrom), rateTo)
  }

  lemma TimesMonotone(a: real, b: real, rate: real)
    requires rate > 0.0
    ensures a <= b ==> Times(a, rate) <= Times(b, rate)
    ensures a < b ==> Times(a, rate) < Times(b, rate)
  {
  }

  lemma TimesMinus(a: real, b: real, rate: real)
    ensures Times(a - b, rate) == Times(a, rate) - Times(b, rate)
    ensures Times(0.5, rate) == rate / 2.0 && Times(-0.5, rate) == -rate / 2.0
  {
  }

  lemma Distribute(units: real, nanos: real, rate: real)
    ensures Total(Times(units, rate), Times(nanos, rate)) == Times(Total(units, nanos), rate)
  {
    assert (units * FRACTION_SIZE + nanos) * rate == units * FRACTION_SIZE * rate + nanos * rate;
    assert units * rate * FRACTION_SIZE == units * FRACTION_SIZE * rate;
  }

  lemma DistributeOver(units: real, nanos: real, rate: real)
    requires rate > 0.0
    ensures Total(units / rate, nanos / rate) == Total(units, nanos) / rate
  {
    Distribute(units / rate, nanos / rate, rate);
    assert units / rate * rate == units && nanos / rate * rate == nanos;
  }

  lemma NonNegativeProduct(a: real, rate: real)
    requires a >= 0.0 && rate > 0.0
    ensures Times(a, rate) >= 0.0 && a / rate >= 0.0
  {
  }

  /** The intermediate amount in euros is within half a billionth, also when rounding fills a whole unit. */
  lemma EurosWithinHalf(units: real, nanos: real, rateFrom: real)
    requires units >= 0.0 && nanos >= 0.0 && rateFrom > 0.0
    ensures var euros := Total(EuroUnits(units, nanos, rateFrom), EuroNanos(units, nanos, rateFrom));
            var error := euros - Total(units, nanos) / rateFrom;
            -0.5 < error <= 0.5
    ensures EuroUnits(units, nanos, rateFrom) >= 0.0
    ensures 0.0 <= EuroNanos(units, nanos, rateFrom) <= FRACTION_SIZE
  {
    hide CarriedUnits, CarriedNanos;
    NonNegativeProduct(units, rateFrom);
    NonNegativeProduct(nanos, rateFrom);
    CarryNormalises(units / rateFrom, nanos / rateFrom);
    DistributeOver(units, nanos, rateFrom);
  }

  /** The result is whole, normalised, and less than a billionth short of the scaled euros. */
  lemma ScaledDown(euroUnits: real, euroNanos: real, rateTo: real)
    requires euroUnits >= 0.0 && euroNanos >= 0.0 && rateTo > 0.0
    ensures var u, n := UnitsAt(euroUnits, euroNanos, rateTo), NanosAt(euroUnits, euroNanos, rateTo);
            && IsWhole(u) && u >= 0.0 && IsWhole(n) && 0.0 <= n < FRACTION_SIZE
            && var scaled := Times(Total(euroUnits, euroNanos), rateTo);
               scaled - 1.0 < Total(u, n) <= scaled
  {
    hide CarriedUnits, CarriedNanos, Times;
    var units, nanos := Times(euroUnits, rateTo), Times(euroNanos, rateTo);
    NonNegativeProduct(euroUnits, rateTo);
    NonNegativeProduct(euroNanos, rateTo);
    CarryNormalises(units, nanos);
    FloorIsWhole(CarriedUnits(units, nanos));
    FloorIsWhole(CarriedNanos(units, nanos));
    Distribute(euroUnits, euroNanos, rateTo);
  }

  /** An error within half a billionth, at a rate. */
  lemma ScaledError(total: real, exact: real, rate: real)
    requires rate > 0.0 && -0.5 < total - exact <= 0.5
    ensures -rate / 2.0 < Times(total, rate) - Times(exact, rate) <= rate / 2.0
  {
    hide Times;
    TimesMinus(total, exact, rate);
    TimesMonotone(-0.5, total - exact, rate);
    TimesMonotone(total - exact, 0.5, rate);
  }

  /** The result is whole and normalised, and its error in billionths lies in (-rateTo/2 - 1, rateTo/2]. */
  lemma ConvertWithinBounds(units: real, nanos: real, rateFrom: real, rateTo: real)
    requires units >= 0.0 && nanos >= 0.0 && rateFrom > 0.0 && rateTo > 0.0
    ensures var resultUnits := ConvertedUnits(units, nanos, rateFrom, rateTo);
            var resultNanos := ConvertedNanos(units, nanos, rateFrom, rateTo);
            && IsWhole(resultUnits) && resultUnits >= 0.0
            && IsWhole(resultNanos) && 0.0 <= resultNanos < FRACTION_SIZE == 1000000000.0
            && var error := Total(resultUnits, resultNanos) - Times(Total(units, nanos) / rateFrom, rateTo);
               -rateTo / 2.0 - 1.0 < error <= rateTo / 2.0
  {
    hide UnitsAt, NanosAt, EuroUnits, EuroNanos, Total, IsWhole, Times;
    var u, n := EuroUnits(units, nanos, rateFrom), EuroNanos(units, nanos, rateFrom);
    EurosWithinHalf(units, nanos, rateFrom);
    ScaledDown(u, n, rateTo);
    ScaledError(Total(u, n), Total(units, nanos) / rateFrom, rateTo);
  }

  /** The same without names: in billionths, what is paid out and what it should be. */
  lemma ConvertError(units: real, nanos: real, rateFrom: real, rateTo: real, paid: real, due: real)
    requires units >= 0.0 && nanos >= 0.0 && rateFrom > 0.0 && rateTo > 0.0
    requires paid == ConvertedUnits(units, nanos, rateFrom, rateTo) * 1000000000.0
                       + ConvertedNanos(units, nanos, rateFrom, rateTo)
    requires due == (units * 1000000000.0 + nanos) / rateFrom * rateTo
    ensures -rateTo / 2.0 - 1.0 < paid - due <= rateTo / 2.0
  {
    hide ConvertedUnits, ConvertedNanos;
    ConvertWithinBounds(units, nanos, rateFrom, rateTo);
  }

  /** The upper end of that range is reached: one billionth at rates of two and two becomes two. */
  lemma ConvertBoundReached()
    ensures ConvertedUnits(0.0, 1.0, 2.0, 2.0) == 0.0 && ConvertedNanos(0.0, 1.0, 2.0, 2.0) == 2.0
    ensures Times(Total(0.0, 1.0) / 2.0, 2.0) == 1.0
  {
    hide UnitsAt, NanosAt, EuroUnits, EuroNanos;
    OneNanoInEuros();
    OneNanoBack();
  }

  lemma OneNanoInEuros()
    ensures EuroUnits(0.0, 1.0, 2.0) == 0.0 && EuroNanos(0.0, 1.0, 2.0) == 1.0
  {
    hide CarriedUnits, CarriedNanos;
    CarrySmall(0.5);
    FloorUnique(1.0, 1);
  }

  lemma OneNanoBack()
    ensures UnitsAt(0.0, 1.0, 2.0) == 0.0 && NanosAt(0.0, 1.0, 2.0) == 2.0
  {
    hide CarriedUnits, CarriedNanos;
    CarrySmall(2.0);
    FloorUnique(0.0, 0);
    FloorUnique(2.0, 2);
  }

  lemma CarrySmall(nanos: real)
    requires 0.0 <= nanos < FRACTION_SIZE
    ensures CarriedUnits(0.0, nanos) == 0.0 && CarriedNanos(0.0, nanos) == nanos
  {
    FloorUnique(0.0, 0);
    FloorUnique(nanos / FRACTION_SIZE, 0);
  }
}
