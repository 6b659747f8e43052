/**
  Stop coordinates: decimal text, or the feed's digit-grouping defect in which
  41.0191700005564 appears as 410.191.700.005.564.  Numbers are exact reals.
*/
module CoordinateCodec {
  import opened Wrappers
  import opened TimeCodec

  /** What a cell may hold; booleans and every other type are `Other`. */
  datatype Cell = Text(text: string) | Number(number: real) | Other

  predicate IsSpace(c: char) {
    || '\U{9}' <= c <= '\U{D}' || '\U{1C}' <= c <= '\U{20}' || c == '\U{85}' || c == '\U{A0}' || c == '\U{1680}'
    || '\U{2000}' <= c <= '\U{200A}' || c == '\U{2028}' || c == '\U{2029}' || c == '\U{202F}' || c == '\U{205F}'
    || c == '\U{3000}'
  }

  /** Python's str.strip. */
  function Strip(s: string): string {
    if s == "" then s
    else if IsSpace(s[0]) then Strip(s[1..])
    else if IsSpace(s[|s| - 1]) then Strip(s[..|s| - 1])
    else s
  }

  predicate AllDigits(s: string) { forall c | c in s :: IsDigit(c) }

  /** [0-9]{1,3}(\.[0-9]{3})*: one to three digits, then groups ".ddd". */
  predicate InThrees(v: string) {
    if |v| <= 3 then v != "" && AllDigits(v)
    else v[|v| - 4] == '.' && AllDigits(v[|v| - 3..]) && InThrees(v[..|v| - 4])
  }

  /** [0-9]{1,3}(\.[0-9]{3}){2,4}: between two and four groups. */
  predicate IsGrouped(v: string) { 8 <= |v| < 20 && InThrees(v) }

  function WithoutDots(v: string): string {
    if v == "" then "" else (if v[0] == '.' then "" else [v[0]]) + WithoutDots(v[1..])
  }

  function Natural(s: string): int
    requires AllDigits(s)
  {
    if s == "" then 0 else 10 * Natural(s[..|s| - 1]) + DigitValue(s[|s| - 1])
  }

  function PowerOfTen(n: nat): (p: int)
    ensures p > 0
  {
    if n == 0 then 1 else 10 * PowerOfTen(n - 1)
  }

  function DotIndex(s: string): (i: nat)
    ensures i <= |s| && (i < |s| ==> s[i] == '.')
    ensures forall k | 0 <= k < i :: s[k] != '.'
  {
    if s == "" || s[0] == '.' then 0 else 1 + DotIndex(s[1..])
  }

  function Fraction(n: int, f: int, p: int): real
    requires p > 0
  {
    n as real + f as real / p as real
  }

  /** The number written as integer digits `ip`, a point and fraction digits `fp`. */
  function Decimal(ip: string, fp: string): real
    requires AllDigits(ip) && AllDigits(fp)
  {
    Fraction(Natural(ip), Natural(fp), PowerOfTen(|fp|))
  }

  /** [0-9]+(?:\.[0-9]*)?|\.[0-9]+, with its value. */
  function ParseUnsigned(u: string): Option<real> {
    var p := DotIndex(u);
    var ip, fp := u[..p], if p < |u| then u[p + 1..] else "";
    if AllDigits(ip) && AllDigits(fp) && ip + fp != "" then Some(Decimal(ip, fp)) else None
  }

  /** The same after at most one sign. */
  function ParseDecimal(v: string): Option<real> {
    if v != "" && v[0] == '+' then ParseUnsigned(v[1..])
    else if v != "" && v[0] == '-' then
      match ParseUnsigned(v[1..])
      case None => None
      case Some(x) => Some(-x)
    else ParseUnsigned(v)
  }

  function ParseText(v: string): Option<real> {
    if IsGrouped(v) then
      var digits := WithoutDots(v);
      if |digits| < 2 then None else ParseDecimal(digits[..2] + "." + digits[2..])
    else ParseDecimal(v)
  }

  /** None where the source returns None; `lower` and `upper` are the axis bounds. */
  function ParseCoordinate(c: Cell, lower: real, upper: real): Option<real> {
    var number := match c
      case Text(text) => ParseText(Strip(text))
      case Number(n) => Some(n)
      case Other => None;
    if number.Some? && lower <= number.value <= upper then number else None
  }

  /** The defect: digits grouped in threes from the right. */
  function Group(digits: string): string {
    if |digits| <= 3 then digits else Group(digits[..|digits| - 3]) + "." + digits[|digits| - 3..]
  }

  lemma {:induction false} WithoutDotsConcat(a: string, b: string)
    ensures WithoutDots(a + b) == WithoutDots(a) + WithoutDots(b)
  {
    if a == "" {
      assert a + b == b;
    } else {
      assert (a + b)[1..] == a[1..] + b;
      WithoutDotsConcat(a[1..], b);
    }
  }

  lemma {:induction false} WithoutDotsOfDigits(s: string)
    requires AllDigits(s)
    ensures WithoutDots(s) == s
  {
    if s != "" {
      assert s[0] in s;
      WithoutDotsOfDigits(s[1..]);
      assert s == [s[0]] + s[1..];
    }
  }

  lemma {:induction false} WithoutDotsAppended(g: string, last: string)
    requires AllDigits(last)
    ensures WithoutDots(g + "." + last) == WithoutDots(g) + last
  {
    assert g + "." + last == g + ("." + last);
    WithoutDotsConcat(g, "." + last);
    WithoutDotsConcat(".", last);
    WithoutDotsOfDigits(last);
  }

  /** `v` has four characters for every three digits, but for its first group. */
  ghost predicate Grown(v: string, digits: string) {
    4 * |digits| - 4 <= 3 * |v| <= 4 * |digits| - 1
  }

  lemma GroupAppended(g: string, front: string, last: string)
    requires InThrees(g) && Grown(g, front) && WithoutDots(g) == front && AllDigits(last) && |last| == 3
    ensures var v := g + "." + last; InThrees(v) && Grown(v, front + last) && WithoutDots(v) == front + last
  {
    WithoutDotsAppended(g, last);
    hide WithoutDots; hide IsDigit;
    var v := g + "." + last;
    assert v[|v| - 4] == '.' && v[|v| - 3..] == last && v[..|v| - 4] == g;
  }

  lemma DigitsSplit(s: string, i: nat)
    requires AllDigits(s) && i <= |s|
    ensures AllDigits(s[..i]) && AllDigits(s[i..])
  {
    assert forall c :: c in s[..i] || c in s[i..] ==> c in s;
  }

  lemma {:induction false} GroupShape(digits: string)
    requires AllDigits(digits) && digits != ""
    ensures InThrees(Group(digits)) && Grown(Group(digits), digits)
    ensures WithoutDots(Group(digits)) == digits
  {
    if |digits| <= 3 {
      WithoutDotsOfDigits(digits);
    } else {
      var front, last := digits[..|digits| - 3], digits[|digits| - 3..];
      assert Group(digits) == Group(front) + "." + last;
      hide WithoutDots; hide InThrees; hide AllDigits; hide Grown; hide Group;
      DigitsSplit(digits, |digits| - 3);
      GroupShape(front);
      GroupAppended(Group(front), front, last);
      assert digits == front + last;
    }
  }

  /** Grouping loses nothing: only the grouped form of its own digits has the grouped shape. */
  lemma {:induction false} GroupedIsGroup(v: string)
    requires InThrees(v)
    ensures var d := WithoutDots(v); AllDigits(d) && d != "" && Group(d) == v && Grown(v, d)
  {
    if |v| <= 3 {
      WithoutDotsOfDigits(v);
    } else {
      var g, last := v[..|v| - 4], v[|v| - 3..];
      assert v == g + "." + last;
      GroupedIsGroup(g);
      WithoutDotsAppended(g, last);
      var d := WithoutDots(g);
      assert (d + last)[..|d|] == d && (d + last)[|d|..] == last;
    }
  }

  lemma {:induction false} GroupedCharacters(v: string)
    requires InThrees(v)
    ensures forall i | 0 <= i < |v| :: v[i] == '.' || IsDigit(v[i])
  {
    if |v| <= 3 {
      forall i | 0 <= i < |v| ensures IsDigit(v[i]) { assert v[i] in v; }
    } else {
      var g, last := v[..|v| - 4], v[|v| - 3..];
      GroupedCharacters(g);
      forall i | 0 <= i < |v| ensures v[i] == '.' || IsDigit(v[i]) {
        if i < |g| { assert v[i] == g[i]; } else if i > |g| { assert v[i] in last; }
      }
    }
  }

  lemma DigitsNotSpace(v: string)
    requires v != "" && forall i | 0 <= i < |v| :: v[i] == '.' || IsDigit(v[i])
    ensures Strip(v) == v
  {
  }

  lemma PlainDecimal(ip: string, fp: string)
    requires AllDigits(ip) && AllDigits(fp) && ip != ""
    ensures ParseDecimal(ip + "." + fp) == Some(Decimal(ip, fp))
  {
    assert ip + ("." + fp) == ip + "." + fp;
    UnsignedRead(ip + "." + fp, ip, true, fp);
  }

  /**
    A decimal with two integer digits and 5 to 13 fraction digits is recovered from its
    grouping: same value as from the undamaged text, and same verdict on the bounds.
  */
  lemma GroupingRecovered(ip: string, fp: string, lower: real, upper: real)
    requires AllDigits(ip) && AllDigits(fp) && |ip| == 2 && 5 <= |fp| <= 13
    ensures ParseCoordinate(Text(Group(ip + fp)), lower, upper) ==
      if lower <= Decimal(ip, fp) <= upper then Some(Decimal(ip, fp)) else None
    ensures ParseCoordinate(Text(ip + "." + fp), lower, upper) ==
      ParseCoordinate(Text(Group(ip + fp)), lower, upper)
  {
    ParseGrouped(ip, fp);
    ParsePlain(ip, fp);
  }

  lemma ParseGrouped(ip: string, fp: string)
    requires AllDigits(ip) && AllDigits(fp) && |ip| == 2 && 5 <= |fp| <= 13
    ensures Strip(Group(ip + fp)) == Group(ip + fp)
    ensures ParseText(Group(ip + fp)) == Some(Decimal(ip, fp))
  {
    var d := ip + fp;
    GroupShape(d);
    GroupedCharacters(Group(d));
    DigitsNotSpace(Group(d));
    assert d[..2] == ip && d[2..] == fp;
    PlainDecimal(ip, fp);
  }

  lemma ParsePlain(ip: string, fp: string)
    requires AllDigits(ip) && AllDigits(fp) && |ip| == 2 && |fp| >= 5
    ensures Strip(ip + "." + fp) == ip + "." + fp
    ensures ParseText(ip + "." + fp) == Some(Decimal(ip, fp))
  {
    var v := ip + "." + fp;
    forall i | 0 <= i < |v| ensures v[i] == '.' || IsDigit(v[i]) {
      if i < 2 { assert v[i] in ip; } else if i > 2 { assert v[i] == fp[i - 3] && fp[i - 3] in fp; }
    }
    DigitsNotSpace(v);
    PlainDecimal(ip, fp);
    PlainIsNotGrouped(ip, fp);
  }

  lemma PlainIsNotGrouped(ip: string, fp: string)
    requires AllDigits(ip) && AllDigits(fp) && |ip| == 2 && |fp| >= 5
    ensures !IsGrouped(ip + "." + fp)
  {
    var v := ip + "." + fp;
    assert v[|v| - 4] == fp[|fp| - 4] && fp[|fp| - 4] in fp;
  }

  /**
    A text of the grouped shape is read as nothing but the number whose first two digits are
    the degrees; no other grouping is accepted.
  */
  lemma GroupedReadsDegreesFirst(v: string, lower: real, upper: real)
    requires IsGrouped(v) && ParseCoordinate(Text(v), lower, upper).Some?
    ensures var d := WithoutDots(v);
      AllDigits(d) && 7 <= |d| <= 15 && v == Group(d) &&
      ParseCoordinate(Text(v), lower, upper).value == Decimal(d[..2], d[2..])
  {
    GroupedIsGroup(v);
    GroupedCharacters(v);
    DigitsNotSpace(v);
    var d := WithoutDots(v);
    PlainDecimal(d[..2], d[2..]);
  }

  /** The grouped shape is exactly that of 7 to 15 digits grouped in threes from the right. */
  lemma GroupedExactly(v: string)
    ensures IsGrouped(v) <==> exists d :: AllDigits(d) && 7 <= |d| <= 15 && v == Group(d)
  {
    if IsGrouped(v) { GroupedIsGroup(v); }
    forall d | AllDigits(d) && 7 <= |d| <= 15 && v == Group(d) ensures IsGrouped(v) { GroupShape(d); }
  }

  // White space ----------------------------------------------------------------------------------------

  predicate AllSpace(s: string) { forall i | 0 <= i < |s| :: IsSpace(s[i]) }

  predicate NoOuterSpace(s: string) { s != "" ==> !IsSpace(s[0]) && !IsSpace(s[|s| - 1]) }

  /** Blanks and line ends are white space; printable ASCII characters are not. */
  lemma SpacePlainly(c: char)
    ensures c in {' ', '\t', '\n', '\r'} ==> IsSpace(c)
    ensures '!' <= c <= '~' ==> !IsSpace(c)
  {
  }

  /** A stripped text is what is left between two stretches of white space, and has none at its ends. */
  lemma {:induction false} StripExact(s: string) returns (i: nat, j: nat)
    ensures i <= j <= |s| && Strip(s) == s[i..j] && NoOuterSpace(Strip(s))
    ensures forall k | 0 <= k < i || j <= k < |s| :: IsSpace(s[k])
  {
    hide IsSpace;
    i, j := 0, |s|;
    if s != "" && IsSpace(s[0]) {
      i, j := StripExact(s[1..]);
      i, j := i + 1, j + 1;
      assert forall k | 1 <= k < |s| :: s[k] == s[1..][k - 1];
    } else if s != "" && IsSpace(s[|s| - 1]) {
      i, j := StripExact(s[..|s| - 1]);
      assert forall k | 0 <= k < |s| - 1 :: s[k] == s[..|s| - 1][k];
    }
  }

  /** And nothing more is taken away. */
  lemma {:induction false} StripPadded(a: string, x: string, b: string)
    requires AllSpace(a) && AllSpace(b) && NoOuterSpace(x)
    ensures Strip(a + x + b) == x
    decreases |a| + |b|
  {
    hide IsSpace;
    var s := a + x + b;
    if x == "" {
      assert s == a + b;
      StripBlank(a + b);
    } else if a != "" {
      assert s[1..] == a[1..] + x + b && s[0] == a[0];
      StripPadded(a[1..], x, b);
    } else if b != "" {
      assert s[..|s| - 1] == a + x + b[..|b| - 1] && s[|s| - 1] == b[|b| - 1];
      StripPadded(a, x, b[..|b| - 1]);
    } else {
      assert s == x;
    }
  }

  lemma {:induction false} StripBlank(b: string)
    requires AllSpace(b)
    ensures Strip(b) == ""
  {
    if b != "" { StripBlank(b[1..]); }
  }

  // Decimal numbers -------------------------------------------------------------------------------------

  lemma DigitsJoin(a: string, b: string)
    ensures AllDigits(a + b) <==> AllDigits(a) && AllDigits(b)
  {
    assert forall c :: c in a + b <==> c in a || c in b;
  }

  /** A first digit counts as many tens as digits follow it. */
  lemma {:induction false} NaturalFirst(c: char, s: string)
    requires IsDigit(c) && AllDigits(s)
    ensures AllDigits([c] + s) && Natural([c] + s) == (c as int - '0' as int) * PowerOfTen(|s|) + Natural(s)
  {
    DigitsJoin([c], s);
    var v := [c] + s;
    if s == "" {
      assert v[..|v| - 1] == "" && v[|v| - 1] == c;
    } else {
      assert v[..|v| - 1] == [c] + s[..|s| - 1];
      NaturalFirst(c, s[..|s| - 1]);
    }
  }

  lemma NaturalLast(s: string, c: char)
    requires AllDigits(s) && IsDigit(c)
    ensures AllDigits(s + [c]) && Natural(s + [c]) == 10 * Natural(s) + (c as int - '0' as int)
  {
    DigitsJoin(s, [c]);
    assert (s + [c])[..|s|] == s;
  }

  lemma Tenfold(n: int, d: int, p: int, f: int)
    requires p > 0
    ensures Fraction(n, d * p + f, 10 * p) * 10.0 == Fraction(10 * n + d, f, p)
  {
    assert (10 * p) as real == 10.0 * p as real;
    assert (d * p + f) as real == d as real * p as real + f as real by { ProductAsReal(d, p); }
    TenTimes(n as real, d, p as real, f as real);
  }

  lemma ProductAsReal(a: int, b: int)
    ensures (a * b) as real == a as real * b as real
  {
  }

  lemma TenTimes(n: real, d: int, p: real, f: real)
    requires p > 0.0
    ensures (n + (d as real * p + f) / (10.0 * p)) * 10.0 == 10.0 * n + d as real + f / p
  {
    assert (d as real * p + f) / (10.0 * p) * 10.0 == (d as real * p + f) / p;
  }

  /** Without fraction digits a decimal is a whole number; one place to the right, the point makes it ten times as large. */
  lemma MovingThePoint(ip: string, c: char, fp: string)
    requires AllDigits(ip) && IsDigit(c) && AllDigits(fp)
    ensures Decimal(ip, "") == Natural(ip) as real
    ensures AllDigits([c] + fp) && AllDigits(ip + [c]) && Decimal(ip, [c] + fp) * 10.0 == Decimal(ip + [c], fp)
  {
    NaturalFirst(c, fp);
    NaturalLast(ip, c);
    assert PowerOfTen(0) == 1 && Natural("") == 0;
    assert PowerOfTen(|[c] + fp|) == 10 * PowerOfTen(|fp|);
    assert Fraction(Natural(ip), 0, 1) == Natural(ip) as real;
    hide Natural; hide PowerOfTen; hide Fraction;
    Tenfold(Natural(ip), c as int - '0' as int, PowerOfTen(|fp|), Natural(fp));
  }

  /** Digits with at most one point somewhere, and at least one digit. */
  ghost predicate IsUnsigned(u: string, ip: string, point: bool, fp: string) {
    && u == ip + (if point then "." + fp else fp)
    && AllDigits(ip) && AllDigits(fp) && ip + fp != "" && (!point ==> fp == "")
  }

  lemma UnsignedRead(u: string, ip: string, point: bool, fp: string)
    requires IsUnsigned(u, ip, point, fp)
    ensures u[0] != '+' && u[0] != '-'
    ensures ParseUnsigned(u) == Some(Decimal(ip, fp))
  {
    forall k | 0 <= k < |ip| ensures IsDigit(u[k]) { assert u[k] == ip[k] && ip[k] in ip; }
    hide Decimal;
    if point { assert u[|ip|] == '.' && u[|ip| + 1..] == fp; }
    assert u[..|ip|] == ip;
    assert DotIndex(u) == |ip|;
  }

  /** Exactly these texts are numbers without a sign, and this is their value. */
  lemma UnsignedExactly(u: string, x: real)
    ensures ParseUnsigned(u) == Some(x) <==> exists ip, point, fp :: IsUnsigned(u, ip, point, fp) && x == Decimal(ip, fp)
  {
    forall ip, point, fp | IsUnsigned(u, ip, point, fp) ensures ParseUnsigned(u) == Some(Decimal(ip, fp)) { UnsignedRead(u, ip, point, fp); }
    hide Decimal; hide AllDigits;
    if ParseUnsigned(u).Some? {
      var p := DotIndex(u);
      assert IsUnsigned(u, u[..p], p < |u|, if p < |u| then u[p + 1..] else "");
    }
  }

  /** One sign may come before such a number, and a minus negates it. */
  lemma SignsExactly(u: string)
    ensures ParseDecimal("+" + u) == ParseUnsigned(u)
    ensures ParseDecimal("-" + u) == if ParseUnsigned(u).Some? then Some(-ParseUnsigned(u).value) else None
    ensures u == "" || (u[0] != '+' && u[0] != '-') ==> ParseDecimal(u) == ParseUnsigned(u)
  {
    assert ("+" + u)[1..] == u && ("-" + u)[1..] == u;
    hide ParseUnsigned;
  }

  /** Any other text is read as a decimal, a number as it is, and nothing else is a coordinate; only within the bounds. */
  lemma CoordinateExactly(c: Cell, lower: real, upper: real, x: real)
    requires c.Text? ==> !IsGrouped(Strip(c.text))
    ensures ParseCoordinate(c, lower, upper) == Some(x) <==>
      lower <= x <= upper && match c case Text(text) => ParseDecimal(Strip(text)) == Some(x) case Number(n) => n == x case Other => false
  {
  }
}
