/**
 Quote records, the zero-padded `HH_MM` keys that index them (one per
 minute of the day) and the placeholder shown for a minute without a quote.
 */
module Corpus {

  datatype Option<T> = None | Some(value: T)

  /** One entry of a per-minute corpus file: the text before the time
      phrase, the time phrase, the text after it, and the attribution. */
  datatype QuoteRecord = QuoteRecord(
    quoteFirst: string,
    quoteTimeCase: string,
    quoteLast: string,
    title: string,
    author: string)

  const HoursPerDay := 24
  const MinutesPerHour := 60
  const MinutesPerDay := HoursPerDay * MinutesPerHour

  /** The decimal digit character for `d`. */
  function Digit(d: int): (c: char)
    requires 0 <= d < 10
    ensures '0' <= c <= '9' && c as int - '0' as int == d
  {
    (48 + d) as char
  }

  predicate IsDigit(c: char) {
    '0' <= c <= '9'
  }

  /** The number written by two decimal digits. */
  function TwoDigitValue(hi: char, lo: char): int {
    (hi as int - '0' as int) * 10 + (lo as int - '0' as int)
  }

  /** `"{:02d}".format(n)` for `n` below 100. */
  function Pad2(n: int): (s: string)
    requires 0 <= n < 100
    ensures |s| == 2 && IsDigit(s[0]) && IsDigit(s[1])
    ensures TwoDigitValue(s[0], s[1]) == n
  {
    [Digit(n / 10), Digit(n % 10)]
  }

  /** The corpus key of a clock time: `"{:02d}_{:02d}".format(hours, mins)`. */
  function TimeKey(hour: int, minute: int): string
    requires 0 <= hour < HoursPerDay && 0 <= minute < MinutesPerHour
  {
    Pad2(hour) + "_" + Pad2(minute)
  }

  /** The shape of a key that `TimeKey` can produce: two digits naming an
      hour below 24, an underscore, two digits naming a minute below 60. */
  predicate IsTimeKey(k: string) {
    && |k| == 5
    && IsDigit(k[0]) && IsDigit(k[1]) && k[2] == '_' && IsDigit(k[3]) && IsDigit(k[4])
    && TwoDigitValue(k[0], k[1]) < HoursPerDay
    && TwoDigitValue(k[3], k[4]) < MinutesPerHour
  }

  function HourOf(k: string): (h: int)
    requires IsTimeKey(k)
    ensures 0 <= h < HoursPerDay
  {
    TwoDigitValue(k[0], k[1])
  }

  function MinuteOf(k: string): (m: int)
    requires IsTimeKey(k)
    ensures 0 <= m < MinutesPerHour
  {
    TwoDigitValue(k[3], k[4])
  }

  /** The minute of the day a key names. */
  function KeyIndex(k: string): (i: int)
    requires IsTimeKey(k)
    ensures 0 <= i < MinutesPerDay
  {
    HourOf(k) * MinutesPerHour + MinuteOf(k)
  }

  /** The key of the `i`-th minute of the day. */
  function KeyAt(i: int): string
    requires 0 <= i < MinutesPerDay
  {
    TimeKey(i / MinutesPerHour, i % MinutesPerHour)
  }

  /** Every generated key has the key shape and names the clock time it was made from. */
  lemma TimeKeyParses(hour: int, minute: int)
    requires 0 <= hour < HoursPerDay && 0 <= minute < MinutesPerHour
    ensures IsTimeKey(TimeKey(hour, minute))
    ensures HourOf(TimeKey(hour, minute)) == hour && MinuteOf(TimeKey(hour, minute)) == minute
    ensures KeyIndex(TimeKey(hour, minute)) == hour * MinutesPerHour + minute
  {
    var k := TimeKey(hour, minute);
    assert k[0] == Pad2(hour)[0] && k[1] == Pad2(hour)[1];
    assert k[3] == Pad2(minute)[0] && k[4] == Pad2(minute)[1];
  }

  /** Two equal digits-pairs denote the same number and conversely. */
  lemma DigitsDetermined(a: char, b: char, c: char, d: char)
    requires IsDigit(a) && IsDigit(b) && IsDigit(c) && IsDigit(d)
    requires TwoDigitValue(a, b) == TwoDigitValue(c, d)
    ensures a == c && b == d
  {
  }

  /** Every string of the key shape is the key of the clock time it names. */
  lemma TimeKeyOfShape(k: string)
    requires IsTimeKey(k)
    ensures k == TimeKey(HourOf(k), MinuteOf(k))
    ensures k == KeyAt(KeyIndex(k))
  {
    var t := TimeKey(HourOf(k), MinuteOf(k));
    TimeKeyParses(HourOf(k), MinuteOf(k));
    DigitsDetermined(k[0], k[1], t[0], t[1]);
    DigitsDetermined(k[3], k[4], t[3], t[4]);
    assert k == t;
    var i := KeyIndex(k);
    assert i / MinutesPerHour == HourOf(k) && i % MinutesPerHour == MinuteOf(k);
  }

  /** Different clock times have different keys. */
  lemma TimeKeyInjective(h1: int, m1: int, h2: int, m2: int)
    requires 0 <= h1 < HoursPerDay && 0 <= m1 < MinutesPerHour
    requires 0 <= h2 < HoursPerDay && 0 <= m2 < MinutesPerHour
    requires TimeKey(h1, m1) == TimeKey(h2, m2)
    ensures h1 == h2 && m1 == m2
  {
    TimeKeyParses(h1, m1);
    TimeKeyParses(h2, m2);
  }

  /** The keys of the first `n` minutes of the day. */
  ghost function KeysBelow(n: int): set<string>
    requires 0 <= n <= MinutesPerDay
  {
    set i | 0 <= i < n :: KeyAt(i)
  }

  /** The key of minute `n` is not among the keys of the minutes before it. */
  lemma KeyNotBelow(n: int)
    requires 0 <= n < MinutesPerDay
    ensures KeyAt(n) !in KeysBelow(n)
  {
    forall i | 0 <= i < n
      ensures KeyAt(i) != KeyAt(n)
    {
      if KeyAt(i) == KeyAt(n) {
        TimeKeyInjective(i / MinutesPerHour, i % MinutesPerHour,
                         n / MinutesPerHour, n % MinutesPerHour);
      }
    }
  }

  /** The key loop visits `n` distinct keys in its first `n` steps. */
  lemma {:induction false} KeysBelowCount(n: int)
    requires 0 <= n <= MinutesPerDay
    ensures |KeysBelow(n)| == n
  {
    if n > 0 {
      KeysBelowCount(n - 1);
      KeyNotBelow(n - 1);
      assert KeysBelow(n) == KeysBelow(n - 1) + {KeyAt(n - 1)};
    }
  }

  /** The whole loop yields 1440 distinct keys, and they are exactly the
      strings of the key shape. */
  lemma AllKeys()
    ensures |KeysBelow(MinutesPerDay)| == 1440
    ensures forall k :: k in KeysBelow(MinutesPerDay) <==> IsTimeKey(k)
  {
    KeysBelowCount(MinutesPerDay);
    forall k | IsTimeKey(k)
      ensures k in KeysBelow(MinutesPerDay)
    {
      TimeKeyOfShape(k);
    }
    forall k | k in KeysBelow(MinutesPerDay)
      ensures IsTimeKey(k)
    {
      var i :| 0 <= i < MinutesPerDay && KeyAt(i) == k;
      TimeKeyParses(i / MinutesPerHour, i % MinutesPerHour);
    }
  }

  /** The record shown for a key without quotes. */
  function NoQuote(key: string): (q: QuoteRecord)
    ensures q.quoteFirst == "There is no quote for " + key
    ensures q.quoteTimeCase == "" && q.quoteLast == ""
    ensures q.title == "N/A" && q.author == "Marcel Kurtz"
  {
    QuoteRecord("There is no quote for " + key, "", "", "N/A", "Marcel Kurtz")
  }
}
