/**
 * Static helpers of the chat transport: the unit constants, the in-band
 * control protocol (an ESC byte followed by a command byte) and the
 * millisecond arithmetic used to split a Unix timestamp into clock parts.
 */
module GeneralUtils {

  /** A Java `byte`: a signed 8-bit value. */
  type Byte = b: int | -128 <= b < 128

  /** A Java `long`: a signed 64-bit value. */
  type Long = x: int | -0x8000_0000_0000_0000 <= x < 0x8000_0000_0000_0000

  /** The bounds of a `long`. */
  const LONG_MIN: int := -0x8000_0000_0000_0000
  const LONG_MAX: int := 0x7FFF_FFFF_FFFF_FFFF

  /** Number of distinct `long` values: Java's `long` arithmetic is exact modulo this. */
  const LONG_RANGE: int := 0x1_0000_0000_0000_0000

  /**
   * Two's-complement reduction of an exact result to a `long`: the value
   * Java's 64-bit `+` and `-` produce, wrapping around on overflow.
   */
  function WrapLong(x: int): (r: Long)
    ensures (x - r) % LONG_RANGE == 0
    ensures LONG_MIN <= x <= LONG_MAX ==> r == x
  {
    var m := x % LONG_RANGE;
    if m > LONG_MAX then m - LONG_RANGE else m
  }

  /** A result just past the top of the range wraps to a negative value. */
  lemma WrapLongAboveMax(x: int)
    requires LONG_MAX < x < LONG_RANGE
    ensures WrapLong(x) == x - LONG_RANGE < 0
  {
  }

  /** Milliseconds per second, minute and hour. */
  const SECONDS: Long := 1000
  const MINUTES: Long := 60 * SECONDS
  const HOURS: Long := 60 * MINUTES

  /** Milliseconds per day: the period after which the clock parts repeat. */
  const DAY: int := 24 * HOURS

  /** The byte that opens a control sequence (ASCII ESC). */
  const CONTROL_CHARACTER: Byte := 27
  /** Second byte of a disconnect sequence. */
  const DISCONNECT_CHARACTER: Byte := 2
  /** Second byte of a connect sequence. */
  const CONNECT_CHARACTER: Byte := 3

  const CONNECT_SEQUENCE: seq<Byte> := [CONTROL_CHARACTER, CONNECT_CHARACTER]
  const DISCONNECT_SEQUENCE: seq<Byte> := [CONTROL_CHARACTER, DISCONNECT_CHARACTER]

  /** Classification of a received byte array. */
  datatype CommandSequence = REGULAR | CONNECT | DISCONNECT | UNKNOWN

  /**
   * Classifies a payload: fewer than two bytes is UNKNOWN, a payload that does
   * not open with ESC is REGULAR, and ESC followed by the connect or disconnect
   * byte is a control frame; any other byte after ESC is UNKNOWN.
   */
  function CheckCommand(data: seq<Byte>): (r: CommandSequence)
    ensures r == REGULAR <==> |data| >= 2 && data[0] != CONTROL_CHARACTER
    ensures r == CONNECT <==> |data| >= 2 && data[0] == CONTROL_CHARACTER && data[1] == CONNECT_CHARACTER
    ensures r == DISCONNECT <==> |data| >= 2 && data[0] == CONTROL_CHARACTER && data[1] == DISCONNECT_CHARACTER
    ensures r == UNKNOWN <==>
      |data| < 2 || (data[0] == CONTROL_CHARACTER && data[1] != CONNECT_CHARACTER && data[1] != DISCONNECT_CHARACTER)
  {
    if |data| < 2 then UNKNOWN
    else if data[0] == CONTROL_CHARACTER then
      if data[1] == CONNECT_CHARACTER then CONNECT
      else if data[1] == DISCONNECT_CHARACTER then DISCONNECT
      else UNKNOWN
    else REGULAR
  }

  /** Only the first two bytes decide the classification of a payload. */
  lemma CheckCommandReadsTwoBytes(data: seq<Byte>, tail: seq<Byte>)
    requires |data| >= 2
    ensures CheckCommand(data + tail) == CheckCommand(data[..2])
  {
  }

  /** The two constant control sequences classify as what they are named. */
  lemma ControlSequencesClassify()
    ensures CheckCommand(CONNECT_SEQUENCE) == CONNECT
    ensures CheckCommand(DISCONNECT_SEQUENCE) == DISCONNECT
    ensures CheckCommand([]) == UNKNOWN && CheckCommand([CONTROL_CHARACTER]) == UNKNOWN
    ensures CheckCommand([CONTROL_CHARACTER, 9]) == UNKNOWN && CheckCommand([65, 66]) == REGULAR
  {
  }

  /** Java's `/` on `long`: the quotient is truncated toward zero. */
  function JavaDiv(a: int, b: int): (q: int)
    requires b > 0
    ensures a >= 0 ==> q == a / b
    ensures a < 0 ==> q == -((-a) / b)
  {
    if a >= 0 then a / b else -((-a) / b)
  }

  /** Java's `%` on `long`: the remainder takes the sign of the dividend. */
  function JavaRem(a: int, b: int): (r: int)
    requires b > 0
    ensures a >= 0 ==> r == a % b
    ensures a < 0 ==> r == -((-a) % b)
  {
    if a >= 0 then a % b else -((-a) % b)
  }

  /** Hour-of-day part of a Unix timestamp (UTC, no time zone). */
  function HoursFromUnixTimestamp(timestamp: Long): Long
  {
    JavaRem(JavaDiv(timestamp, 1000 * 60 * 60), 24)
  }

  /** Minute part of a Unix timestamp. */
  function MinutesFromUnixTimestamp(timestamp: Long): Long
  {
    JavaRem(JavaDiv(timestamp, 1000 * 60), 60)
  }

  /** Second part of a Unix timestamp. */
  function SecondsFromUnixTimestamp(timestamp: Long): Long
  {
    JavaRem(JavaDiv(timestamp, 1000), 60)
  }

  /** Millisecond part of a Unix timestamp. */
  function MillisecondsFromUnixTimestamp(timestamp: Long): Long
  {
    JavaRem(timestamp, 1000)
  }

  /** Inclusive range test `min <= number <= max`. */
  function IsNumberInRange(number: Long, min: Long, max: Long): bool
  {
    number >= min && number <= max
  }

  /** Both ends of a non-empty range are inside it and their neighbours outside; an inverted range is empty. */
  lemma RangeIsInclusive(number: Long, min: Long, max: Long)
    ensures min <= max ==> IsNumberInRange(min, min, max) && IsNumberInRange(max, min, max)
    ensures min - 1 >= -0x8000_0000_0000_0000 ==> !IsNumberInRange(min - 1, min, max)
    ensures max + 1 < 0x8000_0000_0000_0000 ==> !IsNumberInRange(max + 1, min, max)
    ensures min > max ==> !IsNumberInRange(number, min, max)
    ensures IsNumberInRange(number, min, max) <==> min <= number <= max
  {
  }

  /**
   * For a non-negative timestamp the four parts are clock readings (hours in
   * [0,24), minutes and seconds in [0,60), milliseconds in [0,1000)) and they
   * recompose the time of day.
   */
  lemma {:induction false} TimePartsRecompose(t: Long)
    requires t >= 0
    ensures 0 <= HoursFromUnixTimestamp(t) < 24
    ensures 0 <= MinutesFromUnixTimestamp(t) < 60
    ensures 0 <= SecondsFromUnixTimestamp(t) < 60
    ensures 0 <= MillisecondsFromUnixTimestamp(t) < 1000
    ensures HoursFromUnixTimestamp(t) * HOURS + MinutesFromUnixTimestamp(t) * MINUTES
          + SecondsFromUnixTimestamp(t) * SECONDS + MillisecondsFromUnixTimestamp(t) == t % DAY
  {
    var q1, ms := t / 1000, t % 1000;
    var q2, s := q1 / 60, q1 % 60;
    var q3, m := q2 / 60, q2 % 60;
    var q4, h := q3 / 24, q3 % 24;
    assert t == 60000 * q2 + (1000 * s + ms);
    assert t / 60000 == q2;
    assert t == 3600000 * q3 + (60000 * m + 1000 * s + ms);
    assert t / 3600000 == q3;
    assert t == 86400000 * q4 + (3600000 * h + 60000 * m + 1000 * s + ms);
    assert t % 86400000 == 3600000 * h + 60000 * m + 1000 * s + ms;
  }

  /** Java's truncating division keeps the sign: a negative timestamp yields parts that are zero or negative. */
  lemma TimePartsOfNegative(t: Long)
    requires t < 0
    ensures -24 < HoursFromUnixTimestamp(t) <= 0
    ensures -60 < MinutesFromUnixTimestamp(t) <= 0
    ensures -60 < SecondsFromUnixTimestamp(t) <= 0
    ensures -1000 < MillisecondsFromUnixTimestamp(t) <= 0
  {
  }

  /** One millisecond before the epoch reads as -1 ms, not the 999 ms a floor-based remainder would give. */
  lemma NegativeMillisecondsExample()
    ensures MillisecondsFromUnixTimestamp(-1) == -1
    ensures SecondsFromUnixTimestamp(-1500) == -1
  {
  }
}
