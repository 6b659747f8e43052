/** HH:MM:SS service-day times: the parser of the feed and the printer of the answers. */
module TimeCodec {
  import opened Timetable

  datatype ParsedTime = Untimed | At(seconds: int) | Invalid

  predicate IsDigit(c: char) { '0' <= c <= '9' }

  function DigitValue(c: char): (d: int)
    requires IsDigit(c)
    ensures 0 <= d <= 9
  {
    c as int - '0' as int
  }

  function Digit(d: int): (c: char)
    requires 0 <= d <= 9
    ensures IsDigit(c) && DigitValue(c) == d
  {
    (d + '0' as int) as char
  }

  /** Two digits, the first at most `tens`. */
  predicate IsPair(s: string, tens: char) {
    |s| == 2 && '0' <= s[0] <= tens && IsDigit(s[1])
  }

  function PairValue(s: string): (n: int)
    requires IsPair(s, '9')
    ensures 0 <= n <= 99
  {
    10 * DigitValue(s[0]) + DigitValue(s[1])
  }

  function PrintPair(n: int): (s: string)
    requires 0 <= n <= 99
    ensures IsPair(s, '9') && PairValue(s) == n
  {
    [Digit(n / 10), Digit(n % 10)]
  }

  /** [0-9]{1,2}:[0-5][0-9]:[0-5][0-9], matched to the end. */
  predicate IsClock(v: string) {
    && 7 <= |v| <= 8
    && var m := v[|v| - 6..];
       && m[0] == ':' && IsPair(m[1..3], '5') && m[3] == ':' && IsPair(m[4..6], '5')
       && (forall i | 0 <= i < |v| - 6 :: IsDigit(v[i]))
  }

  function HoursValue(v: string): (h: int)
    requires IsClock(v)
    ensures 0 <= h <= 99
  {
    if |v| == 8 then PairValue(v[..2]) else DigitValue(v[0])
  }

  function ParseScheduleTime(v: string): ParsedTime {
    if v == "" then Untimed
    else if !IsClock(v) then Invalid
    else
      var m := v[|v| - 6..];
      var total := HoursValue(v) * 3600 + PairValue(m[1..3]) * 60 + PairValue(m[4..6]);
      if total > MAX_DEPARTURE_SECONDS then Invalid else At(total)
  }

  function PrintScheduleTime(t: int): string
    requires 0 <= t <= MAX_DEPARTURE_SECONDS
  {
    PrintPair(t / 3600) + ":" + PrintPair(t / 60 % 60) + ":" + PrintPair(t % 60)
  }

  lemma PairText(s: string)
    requires IsPair(s, '9')
    ensures s == PrintPair(PairValue(s))
  {
  }

  lemma PrintedParts(t: int)
    requires 0 <= t <= MAX_DEPARTURE_SECONDS
    ensures var v := PrintScheduleTime(t);
            |v| == 8 && v[..2] == PrintPair(t / 3600) && v[2] == ':' && v[3..5] == PrintPair(t / 60 % 60)
            && v[5] == ':' && v[6..8] == PrintPair(t % 60)
  {
  }

  lemma PrintPairBelow60(n: int)
    requires 0 <= n < 60
    ensures IsPair(PrintPair(n), '5')
  {
  }

  /** Parsing undoes printing on the whole supported service day. */
  lemma ParsePrinted(t: int)
    requires 0 <= t <= 259_199
    ensures ParseScheduleTime(PrintScheduleTime(t)) == At(t)
  {
    var v := PrintScheduleTime(t);
    PrintedParts(t);
    PrintPairBelow60(t / 60 % 60);
    PrintPairBelow60(t % 60);
    var m := v[2..];
    assert m[1..3] == v[3..5] && m[4..6] == v[6..8];
    assert IsPair(v[..2], '9') && v[0] == v[..2][0] && v[1] == v[..2][1];
    assert t == t / 3600 * 3600 + t / 60 % 60 * 60 + t % 60;
  }

  /** Only the empty text is untimed. */
  lemma UntimedExactly(v: string)
    ensures ParseScheduleTime(v) == Untimed <==> v == ""
  {
  }

  /** The printed form, character by character. */
  lemma PrintedPlainly(t: int)
    requires 0 <= t <= 259_199
    ensures var v := PrintScheduleTime(t);
      && |v| == 8 && v[2] == ':' && v[5] == ':' && (forall i | 0 <= i < 8 && i != 2 && i != 5 :: '0' <= v[i] <= '9')
      && t == ((v[0] as int - '0' as int) * 10 + (v[1] as int - '0' as int)) * 3600
            + ((v[3] as int - '0' as int) * 10 + (v[4] as int - '0' as int)) * 60
            + (v[6] as int - '0' as int) * 10 + (v[7] as int - '0' as int)
  {
    PrintedParts(t);
    var v := PrintScheduleTime(t);
    var h, m, s := t / 3600, t / 60 % 60, t % 60;
    PairPlainly(h); PairPlainly(m); PairPlainly(s);
    hide PrintPair; hide PrintScheduleTime;
    assert v[0] == v[..2][0] && v[1] == v[..2][1] && v[3] == v[3..5][0] && v[4] == v[3..5][1] && v[6] == v[6..8][0] && v[7] == v[6..8][1];
    assert t == h * 3600 + m * 60 + s;
  }

  lemma PairPlainly(n: int)
    requires 0 <= n <= 99
    ensures var p := PrintPair(n);
      |p| == 2 && '0' <= p[0] <= '9' && '0' <= p[1] <= '9' && n == (p[0] as int - '0' as int) * 10 + (p[1] as int - '0' as int)
  {
  }

  /**
    The parser accepts exactly the printed form of a time within the service day, and the same
    without its leading zero; nothing else yields a time.
  */
  lemma ParsedExactly(v: string, t: int)
    ensures ParseScheduleTime(v) == At(t) <==>
      0 <= t <= 259_199 &&
      (v == PrintScheduleTime(t) || (t < 36_000 && v == PrintScheduleTime(t)[1..]))
  {
    if 0 <= t <= MAX_DEPARTURE_SECONDS {
      ParsePrinted(t);
      if t < 36_000 { ParseShort(t); }
    }
    if ParseScheduleTime(v) == At(t) { ParsedIsPrinted(v, t); }
  }

  lemma ParseShort(t: int)
    requires 0 <= t < 36_000
    ensures ParseScheduleTime(PrintScheduleTime(t)[1..]) == At(t)
  {
    ParsePrinted(t);
    var v := PrintScheduleTime(t);
    PrintedParts(t);
    PrintPairBelow60(t / 60 % 60);
    PrintPairBelow60(t % 60);
    assert v[1..][1..] == v[2..];
    assert v[2..][1..3] == v[3..5] && v[2..][4..6] == v[6..8];
    assert v[1..][0] == v[..2][1];
  }

  lemma ClockParts(h: int, m: int, s: int)
    requires 0 <= h && 0 <= m < 60 && 0 <= s < 60
    ensures var t := h * 3600 + m * 60 + s; t / 3600 == h && t / 60 % 60 == m && t % 60 == s
  {
    var t := h * 3600 + m * 60 + s;
    assert t / 60 == h * 60 + m;
  }

  lemma ClockText(v: string)
    requires IsClock(v)
    ensures var m := v[|v| - 6..];
            m == ":" + PrintPair(PairValue(m[1..3])) + ":" + PrintPair(PairValue(m[4..6]))
  {
    var m := v[|v| - 6..];
    PairText(m[1..3]);
    PairText(m[4..6]);
    assert m == ":" + m[1..3] + ":" + m[4..6];
  }

  lemma HoursText(v: string)
    requires IsClock(v)
    ensures |v| == 8 ==> v[..2] == PrintPair(HoursValue(v))
    ensures |v| == 7 ==> HoursValue(v) < 10 && v[..1] == PrintPair(HoursValue(v))[1..]
  {
    if |v| == 8 { PairText(v[..2]); }
  }

  lemma ParsedParts(v: string, t: int)
    requires ParseScheduleTime(v) == At(t)
    ensures IsClock(v) && 0 <= t <= MAX_DEPARTURE_SECONDS
    ensures var m := v[|v| - 6..]; t / 3600 == HoursValue(v) && t / 60 % 60 == PairValue(m[1..3]) && t % 60 == PairValue(m[4..6])
  {
    var m := v[|v| - 6..];
    ClockParts(HoursValue(v), PairValue(m[1..3]), PairValue(m[4..6]));
  }

  lemma ParsedIsPrinted(v: string, t: int)
    requires ParseScheduleTime(v) == At(t)
    ensures 0 <= t <= MAX_DEPARTURE_SECONDS
    ensures v == PrintScheduleTime(t) || (t < 36_000 && v == PrintScheduleTime(t)[1..])
  {
    ParsedParts(v, t);
    ClockText(v);
    HoursText(v);
    assert 7 <= |v| <= 8;
    hide PrintPair; hide PairValue; hide HoursValue; hide IsClock; hide ParseScheduleTime; hide IsPair;
    var k := |v| - 6;
    var hours := PrintPair(t / 3600);
    assert PrintScheduleTime(t) == hours + v[k..];
    assert v == v[..k] + v[k..];
    if k == 1 { assert hours[1..] + v[k..] == (hours + v[k..])[1..]; }
  }
}
