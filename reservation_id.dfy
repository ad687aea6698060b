/**
 The reservation number of the attendee-info page: the last six digits of the Unix time in
 seconds followed by a random number zero-padded to four digits, read back as an integer.
 The clock (`Math.floor(Date.now() / 1000)`) and the random draw
 (`Math.floor(Math.random() * 10000)`) are passed in.
 */
module ReservationId {
  import opened JsText

  const TimestampDigits: nat := 6
  const RandomDigits: nat := 4

  /** `createReservationId()`: `String(seconds).slice(-6)` and
      `String(random).padStart(4, '0')` glued together and handed to `parseInt(…, 10)`. */
  function CreateReservationId(seconds: nat, random: nat): int
    requires random < 10000
  {
    var shortTimestamp := SliceLast(Decimal(seconds), TimestampDigits);
    var randomText := PadStart(Decimal(random), RandomDigits, '0');
    ReservationTextValue(seconds, random);
    ParseIntOfDigits(shortTimestamp + randomText);
    ParseInt(shortTimestamp + randomText).value
  }

  /** The number keeps the six low-order digits of the clock above four places of random
      digits. */
  lemma CreateReservationIdValue(seconds: nat, random: nat)
    requires random < 10000
    ensures CreateReservationId(seconds, random) == (seconds % 1000000) * 10000 + random
  {
    ReservationTextValue(seconds, random);
    ParseIntOfDigits(SliceLast(Decimal(seconds), TimestampDigits)
                     + PadStart(Decimal(random), RandomDigits, '0'));
  }

  /** The glued text is a string of digits whose value is the clock's low six digits shifted
      four places left plus the random number. */
  lemma ReservationTextValue(seconds: nat, random: nat)
    requires random < 10000
    ensures var text := SliceLast(Decimal(seconds), 6) + PadStart(Decimal(random), 4, '0');
            text != [] && AllDigits(text) && Value(text) == (seconds % 1000000) * 10000 + random
  {
    var st := SliceLast(Decimal(seconds), 6);
    var rt := PadStart(Decimal(random), 4, '0');
    ShortTimestampValue(seconds);
    PaddedRandomValue(random);
    ValueConcat(st, rt);
    assert Pow10(4) == 10000;
  }

  /** `String(seconds).slice(-6)` spells the clock modulo a million. */
  lemma ShortTimestampValue(seconds: nat)
    ensures var st := SliceLast(Decimal(seconds), 6);
            st != [] && AllDigits(st) && Value(st) == seconds % 1000000
  {
    var d := Decimal(seconds);
    ValueOfDecimal(seconds);
    if |d| <= 6 {
      FewDigitsValue(d);
    } else {
      LastSixDigitsValue(d);
    }
  }

  /** A text of at most six digits spells a number below a million. */
  lemma FewDigitsValue(d: string)
    requires AllDigits(d) && |d| <= 6
    ensures Value(d) < 1000000
  {
    ValueBelowPow10(d);
    PowMonotone(|d|, 6);
    assert Pow10(6) == 1000000;
  }

  /** The last six characters of a longer text of digits spell its value modulo a million. */
  lemma LastSixDigitsValue(d: string)
    requires AllDigits(d) && |d| > 6
    ensures AllDigits(d[|d| - 6..]) && Value(d[|d| - 6..]) == Value(d) % 1000000
  {
    ValueOfSuffix(d, 6);
    LowDigits(Value(d), Value(d[..|d| - 6]), Value(d[|d| - 6..]), Pow10(6));
  }

  /** `String(random).padStart(4, '0')` is four digits spelling the draw. */
  lemma PaddedRandomValue(random: nat)
    requires random < 10000
    ensures var rt := PadStart(Decimal(random), 4, '0');
            |rt| == 4 && AllDigits(rt) && Value(rt) == random
  {
    ValueOfDecimal(random);
    assert Pow10(4) == 10000;
    DecimalShort(random, 4);
    ValueOfZeroPadding(Decimal(random), 4);
  }

  lemma LowDigits(v: nat, q: nat, r: nat, p: nat)
    requires p == Pow10(6) && v == q * p + r && r < p
    ensures v % 1000000 == r
  {
    assert p == 1000000;
  }

  lemma {:induction false} PowMonotone(j: nat, k: nat)
    requires j <= k
    ensures Pow10(j) <= Pow10(k)
  {
    if j < k {
      PowMonotone(j, k - 1);
    }
  }

  /** The last four digits of the number are the random draw, the digits above them the low
      six digits of the clock, and the number never exceeds ten digits. */
  lemma ReservationIdFields(seconds: nat, random: nat)
    requires random < 10000
    ensures CreateReservationId(seconds, random) % 10000 == random
    ensures CreateReservationId(seconds, random) / 10000 == seconds % 1000000
    ensures 0 <= CreateReservationId(seconds, random) <= 9999999999
  {
    CreateReservationIdValue(seconds, random);
    Fields(CreateReservationId(seconds, random), seconds % 1000000, random);
  }

  lemma Fields(id: int, high: nat, low: nat)
    requires id == high * 10000 + low && high < 1000000 && low < 10000
    ensures id % 10000 == low && id / 10000 == high && 0 <= id <= 9999999999
  {
  }

  /** `parseInt` drops the leading zeros of the glued text, so the number is not always ten
      digits long (ten-digit numbers start at 1000000000): whenever the sixth-last digit of the
      clock is a zero (the clock 1700012345 glues to "0123450042", say) it has at most nine. */
  lemma ReservationIdCanBeShort(seconds: nat, random: nat)
    requires random < 10000 && seconds % 1000000 < 100000
    ensures CreateReservationId(seconds, random) < 1000000000
  {
    CreateReservationIdValue(seconds, random);
  }
}
