/**
  Repair of UTF-8 text that was decoded as Windows-1254.

  Code points and bytes are integers.  UTF-8 follows sections 3 and 4 of RFC 3629: no overlong
  forms, no surrogates, nothing above U+10FFFF.
*/
module Mojibake {
  import opened Wrappers

  type Byte = b: int | 0 <= b < 256

  /** What a Python string may hold, lone surrogates included. */
  type CodePoint = c: int | 0 <= c < 0x11_0000

  predicate IsScalar(c: CodePoint) { !(0xD800 <= c <= 0xDFFF) }

  predicate AllScalar(s: seq<CodePoint>) { forall c | c in s :: IsScalar(c) }

  // UTF-8 --------------------------------------------------------------------------------------

  function EncodeChar(c: CodePoint): (bytes: seq<Byte>)
    ensures 1 <= |bytes| <= 4
    ensures |bytes| == 1 <==> c < 0x80
  {
    if c < 0x80 then [c]
    else if c < 0x800 then [0xC0 + c / 64, Tail(c)]
    else if c < 0x1_0000 then [0xE0 + c / 4096, Tail(c / 64), Tail(c)]
    else [0xF0 + c / 262144, Tail(c / 4096), Tail(c / 64), Tail(c)]
  }

  /** A continuation byte carrying the six lowest bits. */
  function Tail(n: nat): Byte { 0x80 + n % 64 }

  function Encode(s: seq<CodePoint>): seq<Byte> {
    if s == [] then [] else EncodeChar(s[0]) + Encode(s[1..])
  }

  predicate IsTail(b: Byte) { 0x80 <= b <= 0xBF }

  function Two(a: int, b: int): int { (a - 0xC0) * 64 + (b - 0x80) }

  function Three(a: int, b: int, c: int): int { (a - 0xE0) * 4096 + (b - 0x80) * 64 + (c - 0x80) }

  function Four(a: int, b: int, c: int, d: int): int {
    (a - 0xF0) * 262144 + (b - 0x80) * 4096 + (c - 0x80) * 64 + (d - 0x80)
  }

  predicate IsTwo(a: Byte, b: Byte) { 0xC2 <= a <= 0xDF && IsTail(b) }

  predicate IsThree(a: Byte, b: Byte, c: Byte) {
    0xE0 <= a <= 0xEF && IsTail(b) && IsTail(c) && (a == 0xE0 ==> b >= 0xA0) && (a == 0xED ==> b <= 0x9F)
  }

  predicate IsFour(a: Byte, b: Byte, c: Byte, d: Byte) {
    0xF0 <= a <= 0xF4 && IsTail(b) && IsTail(c) && IsTail(d) && (a == 0xF0 ==> b >= 0x90) && (a == 0xF4 ==> b <= 0x8F)
  }

  /** The first character and its length in bytes. */
  function DecodeChar(b: seq<Byte>): (r: Option<(CodePoint, nat)>)
    requires b != []
    ensures r.Some? ==> 1 <= r.value.1 <= |b| && r.value.1 <= 4
  {
    if b[0] < 0x80 then Some((b[0], 1))
    else if |b| >= 2 && IsTwo(b[0], b[1]) then Some((Two(b[0], b[1]), 2))
    else if |b| >= 3 && IsThree(b[0], b[1], b[2]) then Some((Three(b[0], b[1], b[2]), 3))
    else if |b| >= 4 && IsFour(b[0], b[1], b[2], b[3]) then Some((Four(b[0], b[1], b[2], b[3]), 4))
    else None
  }

  /** bytes.decode("utf-8"); None is UnicodeDecodeError. */
  function Decode(b: seq<Byte>): Option<seq<CodePoint>> {
    if b == [] then Some([])
    else match DecodeChar(b)
      case None => None
      case Some((c, n)) =>
        match Decode(b[n..])
        case None => None
        case Some(rest) => Some([c] + rest)
  }

  lemma TwoBytes(a: Byte, b: Byte)
    requires IsTwo(a, b)
    ensures 0x80 <= Two(a, b) < 0x800 && EncodeChar(Two(a, b)) == [a, b]
  {
  }

  lemma ThreeBytes(a: Byte, b: Byte, c: Byte)
    requires IsThree(a, b, c)
    ensures 0x800 <= Three(a, b, c) < 0x1_0000 && IsScalar(Three(a, b, c))
    ensures EncodeChar(Three(a, b, c)) == [a, b, c]
  {
    var v := Three(a, b, c);
    assert v / 64 == (a - 0xE0) * 64 + (b - 0x80);
  }

  /** Four digits in base 64. */
  lemma FourDigits(o: int, r: int, s: int, t: int)
    requires 0 <= r < 64 && 0 <= s < 64 && 0 <= t < 64
    ensures var v := o * 262144 + r * 4096 + s * 64 + t;
      v / 262144 == o && v / 4096 % 64 == r && v / 64 % 64 == s && v % 64 == t
  {
    var v := o * 262144 + r * 4096 + s * 64 + t;
    assert v / 64 == o * 4096 + r * 64 + s;
    assert v / 4096 == o * 64 + r;
  }

  lemma FourBytes(a: Byte, b: Byte, c: Byte, d: Byte)
    requires IsFour(a, b, c, d)
    ensures 0x1_0000 <= Four(a, b, c, d) < 0x11_0000 && EncodeChar(Four(a, b, c, d)) == [a, b, c, d]
  {
    FourDigits(a - 0xF0, b - 0x80, c - 0x80, d - 0x80);
  }

  lemma DigitsOfThree(v: CodePoint)
    requires 0x800 <= v < 0x1_0000 && IsScalar(v)
    ensures var e := EncodeChar(v); IsThree(e[0], e[1], e[2]) && Three(e[0], e[1], e[2]) == v
  {
    var q := v / 64;
    assert v == q * 64 + v % 64 && q == q / 64 * 64 + q % 64 && q / 64 == v / 4096;
  }

  lemma DigitsOfFour(v: CodePoint)
    requires 0x1_0000 <= v
    ensures var e := EncodeChar(v); IsFour(e[0], e[1], e[2], e[3]) && Four(e[0], e[1], e[2], e[3]) == v
  {
    var q := v / 64;
    var p := q / 64;
    assert v == q * 64 + v % 64 && q == p * 64 + q % 64 && p == p / 64 * 64 + p % 64;
    assert p == v / 4096 && p / 64 == v / 262144;
  }

  lemma DecodeEncodedChar(c: CodePoint, rest: seq<Byte>)
    requires IsScalar(c)
    ensures DecodeChar(EncodeChar(c) + rest) == Some((c, |EncodeChar(c)|))
  {
    if 0x800 <= c < 0x1_0000 {
      DigitsOfThree(c);
    } else if 0x1_0000 <= c {
      DigitsOfFour(c);
    }
  }

  lemma EncodeDecodedChar(b: seq<Byte>)
    requires b != [] && DecodeChar(b).Some?
    ensures IsScalar(DecodeChar(b).value.0)
    ensures EncodeChar(DecodeChar(b).value.0) == b[..DecodeChar(b).value.1]
  {
    if |b| >= 2 && IsTwo(b[0], b[1]) { TwoBytes(b[0], b[1]); }
    if |b| >= 3 && IsThree(b[0], b[1], b[2]) { ThreeBytes(b[0], b[1], b[2]); }
    if |b| >= 4 && IsFour(b[0], b[1], b[2], b[3]) { FourBytes(b[0], b[1], b[2], b[3]); }
  }

  lemma {:induction false} DecodeEncoded(s: seq<CodePoint>)
    requires AllScalar(s)
    ensures Decode(Encode(s)) == Some(s)
  {
    if s != [] {
      DecodeEncodedChar(s[0], Encode(s[1..]));
      assert Encode(s)[|EncodeChar(s[0])|..] == Encode(s[1..]);
      DecodeEncoded(s[1..]);
      assert s == [s[0]] + s[1..];
    }
  }

  lemma {:induction false} EncodeDecoded(b: seq<Byte>)
    requires Decode(b).Some?
    ensures AllScalar(Decode(b).value) && Encode(Decode(b).value) == b
    decreases |b|
  {
    hide DecodeChar; hide EncodeChar;
    if b != [] {
      var n := DecodeChar(b).value.1;
      EncodeDecodedChar(b);
      EncodeDecoded(b[n..]);
      assert b == b[..n] + b[n..];
    }
  }

  // Windows-1254 ---------------------------------------------------------------------------------

  /** The characters of bytes 0x80..0x9F; -1 where Windows-1254 defines none. */
  const UPPER_CONTROLS: seq<int> := [
    0x20AC, -1, 0x201A, 0x0192, 0x201E, 0x2026, 0x2020, 0x2021, 0x02C6, 0x2030, 0x0160, 0x2039, 0x0152, -1, -1, -1,
    -1, 0x2018, 0x2019, 0x201C, 0x201D, 0x2022, 0x2013, 0x2014, 0x02DC, 0x2122, 0x0161, 0x203A, 0x0153, -1, -1, 0x0178]

  predicate IsC1(c: int) { 0x80 <= c <= 0x9F }

  predicate UndefinedByte(b: int) { IsC1(b) && UPPER_CONTROLS[b - 0x80] == -1 }

  /** The six Turkish letters that Windows-1254 puts in the place of Latin-1 ones. */
  function TurkishLetter(b: int): int {
    if b == 0xD0 then 0x011E else if b == 0xDD then 0x0130 else if b == 0xDE then 0x015E
    else if b == 0xF0 then 0x011F else if b == 0xFD then 0x0131 else if b == 0xFE then 0x015F
    else b
  }

  /** Reading a byte as Windows-1254, an undefined byte surviving as its C1 control. */
  function ReadByte(b: Byte): CodePoint {
    if IsC1(b) then (if UndefinedByte(b) then b else UPPER_CONTROLS[b - 0x80]) else TurkishLetter(b)
  }

  /** Where `c` stands in a table, searched from `from`. */
  function Find(table: seq<int>, c: int, from: nat): Option<nat>
    requires from <= |table|
    decreases |table| - from
  {
    if from == |table| then None else if table[from] == c then Some(from) else Find(table, c, from + 1)
  }

  lemma {:induction false} FindExact(table: seq<int>, c: int, from: nat)
    requires from <= |table|
    ensures match Find(table, c, from)
            case Some(i) => from <= i < |table| && table[i] == c
            case None => forall i | from <= i < |table| :: table[i] != c
    decreases |table| - from
  {
    if from < |table| && table[from] != c { FindExact(table, c, from + 1); }
  }

  /** char.encode("cp1254"); None is UnicodeEncodeError. */
  function EncodeCp1254(c: CodePoint): Option<Byte>
    requires !IsC1(c)
  {
    if c == 0x011E then Some(0xD0) else if c == 0x0130 then Some(0xDD) else if c == 0x015E then Some(0xDE)
    else if c == 0x011F then Some(0xF0) else if c == 0x0131 then Some(0xFD) else if c == 0x015F then Some(0xFE)
    else if c < 0x100 && TurkishLetter(c) == c then Some(c)
    else
      FindExact(UPPER_CONTROLS, c, 0);
      match Find(UPPER_CONTROLS, c, 0)
      case Some(i) => Some(0x80 + i)
      case None => None
  }

  /** The byte a character came from: C1 controls are kept, the rest is Windows-1254. */
  function RawByte(c: CodePoint): Option<Byte> {
    if IsC1(c) then Some(c) else EncodeCp1254(c)
  }

  function RawBytes(v: seq<CodePoint>): Option<seq<Byte>> {
    if v == [] then Some([])
    else match (RawByte(v[0]), RawBytes(v[1..]))
      case (Some(b), Some(rest)) => Some([b] + rest)
      case _ => None
  }

  function Read(b: seq<Byte>): seq<CodePoint> { seq(|b|, i requires 0 <= i < |b| => ReadByte(b[i])) }

  lemma EarlyControlsDistinct(i: nat, j: nat)
    requires i < 16 && j < |UPPER_CONTROLS| && UPPER_CONTROLS[i] == UPPER_CONTROLS[j] != -1
    ensures i == j
  {
  }

  lemma LateControlsDistinct(i: nat, j: nat)
    requires 16 <= i < |UPPER_CONTROLS| && 16 <= j < |UPPER_CONTROLS| && UPPER_CONTROLS[i] == UPPER_CONTROLS[j] != -1
    ensures i == j
  {
  }

  lemma ControlsDistinct(i: nat, j: nat)
    requires i < |UPPER_CONTROLS| && j < |UPPER_CONTROLS| && UPPER_CONTROLS[i] == UPPER_CONTROLS[j] != -1
    ensures i == j
  {
    hide UPPER_CONTROLS;
    if i < 16 { EarlyControlsDistinct(i, j); } else if j < 16 { EarlyControlsDistinct(j, i); } else { LateControlsDistinct(i, j); }
  }

  lemma ControlRange(i: nat)
    requires i < |UPPER_CONTROLS|
    ensures UPPER_CONTROLS[i] == -1 || UPPER_CONTROLS[i] >= 0x152
    ensures UPPER_CONTROLS[i] != 0x15E && UPPER_CONTROLS[i] != 0x15F
  {
  }

  lemma RawOfRead(b: Byte)
    ensures RawByte(ReadByte(b)) == Some(b)
  {
    if IsC1(b) && !UndefinedByte(b) {
      var c := UPPER_CONTROLS[b - 0x80];
      ControlRange(b - 0x80);
      FindExact(UPPER_CONTROLS, c, 0);
      ControlsDistinct(b - 0x80, Find(UPPER_CONTROLS, c, 0).value);
    }
  }

  lemma ReadOfRaw(c: CodePoint)
    requires RawByte(c).Some?
    ensures ReadByte(RawByte(c).value) == c <==> (IsC1(c) ==> UndefinedByte(c))
  {
    if IsC1(c) {
      ControlRange(c - 0x80);
    } else {
      FindExact(UPPER_CONTROLS, c, 0);
    }
  }

  lemma {:induction false} RawBytesOfRead(b: seq<Byte>)
    ensures RawBytes(Read(b)) == Some(b)
  {
    hide ReadByte; hide RawByte; hide UndefinedByte;
    if b != [] {
      RawOfRead(b[0]);
      assert Read(b)[1..] == Read(b[1..]) && Read(b)[0] == ReadByte(b[0]);
      RawBytesOfRead(b[1..]);
      assert b == [b[0]] + b[1..];
    }
  }

  lemma {:induction false} ReadOfRawBytes(v: seq<CodePoint>)
    requires RawBytes(v).Some?
    ensures Read(RawBytes(v).value) == v <==> forall c | c in v && IsC1(c) :: UndefinedByte(c)
  {
    hide ReadByte; hide RawByte; hide UndefinedByte;
    if v != [] {
      ReadOfRaw(v[0]);
      ReadOfRawBytes(v[1..]);
      var b := RawBytes(v).value;
      assert b[1..] == RawBytes(v[1..]).value;
      assert Read(b) == [ReadByte(b[0])] + Read(b[1..]);
      assert v == [v[0]] + v[1..];
    }
  }

  /**
    Windows-1254, byte by byte where it differs from Latin-1: Turkish letters in six places, and
    the upper controls, of which seven are undefined and stand for themselves here.
  */
  lemma Windows1254Early()
    ensures forall b: Byte | (b < 0x80 || b >= 0xA0) && b !in {0xD0, 0xDD, 0xDE, 0xF0, 0xFD, 0xFE} :: ReadByte(b) == b
    ensures ReadByte(0xD0) == 0x011E && ReadByte(0xDD) == 0x0130 && ReadByte(0xDE) == 0x015E
    ensures ReadByte(0xF0) == 0x011F && ReadByte(0xFD) == 0x0131 && ReadByte(0xFE) == 0x015F
    ensures ReadByte(0x80) == 0x20AC && ReadByte(0x81) == 0x0081 && ReadByte(0x82) == 0x201A && ReadByte(0x83) == 0x0192
    ensures ReadByte(0x84) == 0x201E && ReadByte(0x85) == 0x2026 && ReadByte(0x86) == 0x2020 && ReadByte(0x87) == 0x2021
    ensures ReadByte(0x88) == 0x02C6 && ReadByte(0x89) == 0x2030 && ReadByte(0x8A) == 0x0160 && ReadByte(0x8B) == 0x2039
    ensures ReadByte(0x8C) == 0x0152 && ReadByte(0x8D) == 0x008D && ReadByte(0x8E) == 0x008E && ReadByte(0x8F) == 0x008F
  {
  }

  lemma Windows1254Late()
    ensures ReadByte(0x90) == 0x0090 && ReadByte(0x91) == 0x2018 && ReadByte(0x92) == 0x2019 && ReadByte(0x93) == 0x201C
    ensures ReadByte(0x94) == 0x201D && ReadByte(0x95) == 0x2022 && ReadByte(0x96) == 0x2013 && ReadByte(0x97) == 0x2014
    ensures ReadByte(0x98) == 0x02DC && ReadByte(0x99) == 0x2122 && ReadByte(0x9A) == 0x0161 && ReadByte(0x9B) == 0x203A
    ensures ReadByte(0x9C) == 0x0153 && ReadByte(0x9D) == 0x009D && ReadByte(0x9E) == 0x009E && ReadByte(0x9F) == 0x0178
  {
  }

  // The repair -------------------------------------------------------------------------------------

  /** The letters that the lead bytes 0xC3, 0xC4 and 0xC5 turn into. */
  predicate HasMarker(v: seq<CodePoint>) { 0xC3 in v || 0xC4 in v || 0xC5 in v }

  function Repair(v: seq<CodePoint>): seq<CodePoint> {
    if !HasMarker(v) then v
    else match RawBytes(v)
      case None => v
      case Some(raw) =>
        match Decode(raw)
        case None => v
        case Some(s) => s
  }

  /** The defect: UTF-8 bytes read as Windows-1254. */
  function Mangle(s: seq<CodePoint>): seq<CodePoint> { Read(Encode(s)) }

  predicate AllAscii(s: seq<CodePoint>) { forall i | 0 <= i < |s| :: s[i] < 0x80 }

  predicate InRepairedRange(c: CodePoint) { 0xC0 <= c <= 0x17F }

  lemma LeadByte(c: CodePoint)
    ensures (exists b :: b in EncodeChar(c) && 0xC3 <= b <= 0xC5) <==> InRepairedRange(c)
  {
    var e := EncodeChar(c);
    assert e[0] in e;
    assert InRepairedRange(c) <==> 0xC3 <= e[0] <= 0xC5;
  }

  lemma {:induction false} LeadBytes(s: seq<CodePoint>)
    ensures (exists b :: b in Encode(s) && 0xC3 <= b <= 0xC5) <==> exists c :: c in s && InRepairedRange(c)
  {
    if s != [] {
      LeadByte(s[0]);
      LeadBytes(s[1..]);
      assert forall b :: b in Encode(s) <==> b in EncodeChar(s[0]) || b in Encode(s[1..]);
      assert forall c :: c in s <==> c == s[0] || c in s[1..];
    }
  }

  lemma LeadBytesReadAsMarkers(b: Byte)
    ensures 0xC3 <= ReadByte(b) <= 0xC5 <==> 0xC3 <= b <= 0xC5
    ensures 0xC3 <= b <= 0xC5 ==> ReadByte(b) == b
  {
    if IsC1(b) { ControlRange(b - 0x80); }
  }

  lemma MarkersAreLeadBytes(b: seq<Byte>)
    ensures HasMarker(Read(b)) <==> exists x :: x in b && 0xC3 <= x <= 0xC5
  {
    hide ReadByte;
    var r := Read(b);
    forall i | 0 <= i < |b|
      ensures 0xC3 <= r[i] <= 0xC5 <==> 0xC3 <= b[i] <= 0xC5
      ensures 0xC3 <= b[i] <= 0xC5 ==> r[i] == b[i]
    {
      LeadBytesReadAsMarkers(b[i]);
    }
    if HasMarker(r) {
      var i :| 0 <= i < |r| && 0xC3 <= r[i] <= 0xC5;
      assert b[i] in b;
    }
    if x :| x in b && 0xC3 <= x <= 0xC5 {
      var i :| 0 <= i < |b| && b[i] == x;
      assert r[i] in r;
    }
  }

  lemma {:induction false} EncodedLength(s: seq<CodePoint>)
    ensures |Encode(s)| >= |s|
    ensures |Encode(s)| == |s| <==> AllAscii(s)
    ensures |Encode(s)| == |s| ==> Mangle(s) == s
  {
    if s != [] {
      EncodedLength(s[1..]);
      assert |Encode(s)| == |EncodeChar(s[0])| + |Encode(s[1..])|;
      assert AllAscii(s) <==> s[0] < 0x80 && AllAscii(s[1..]) by {
        assert forall i | 0 < i < |s| :: s[i] == s[1..][i - 1];
        if s[0] < 0x80 && AllAscii(s[1..]) {
          assert AllAscii(s);
        }
      }
      if |Encode(s)| == |s| {
        assert Encode(s) == [s[0]] + Encode(s[1..]);
        assert Mangle(s) == [s[0]] + Mangle(s[1..]);
      }
    }
  }

  /**
    When the repair restores mangled text: exactly when the text has a letter in
    U+00C0..U+017F, or had nothing to mangle.
  */
  lemma RepairRestores(s: seq<CodePoint>)
    requires AllScalar(s)
    ensures Repair(Mangle(s)) == s <==> (exists c :: c in s && 0xC0 <= c <= 0x17F) || forall c | c in s :: c < 0x80
  {
    LeadBytes(s);
    MarkersAreLeadBytes(Encode(s));
    RawBytesOfRead(Encode(s));
    DecodeEncoded(s);
    EncodedLength(s);
    assert AllAscii(s) <==> forall c | c in s :: c < 0x80 by { assert forall i | 0 <= i < |s| :: s[i] in s; }
    assert (exists c :: c in s && InRepairedRange(c)) <==> exists c :: c in s && 0xC0 <= c <= 0x17F;
    hide AllAscii; hide InRepairedRange;
  }

  /**
    A changed text is one that, mangled again, gives the input back: exactly when the input's
    C1 controls are only the bytes that Windows-1254 leaves undefined.
  */
  lemma ChangedTextRemangles(v: seq<CodePoint>)
    requires Repair(v) != v
    ensures AllScalar(Repair(v))
    ensures Mangle(Repair(v)) == v <==> forall c | c in v && 0x80 <= c <= 0x9F :: c in {0x81, 0x8D, 0x8E, 0x8F, 0x90, 0x9D, 0x9E}
  {
    EncodeDecoded(RawBytes(v).value);
    ReadOfRawBytes(v);
    forall c | c in v && IsC1(c) ensures UndefinedByte(c) <==> c in {0x81, 0x8D, 0x8E, 0x8F, 0x90, 0x9D, 0x9E} { UndefinedPlainly(c); }
    hide UndefinedByte; hide UPPER_CONTROLS; hide ReadByte;
  }

  lemma UndefinedPlainly(c: CodePoint)
    requires IsC1(c)
    ensures UndefinedByte(c) <==> c in {0x81, 0x8D, 0x8E, 0x8F, 0x90, 0x9D, 0x9E}
  {
  }

  /** Text that repair does not restore: the euro sign has none of the letters it looks for. */
  lemma EuroIsNotRestored()
    ensures Repair(Mangle([0x20AC])) != [0x20AC]
  {
    hide Repair; hide Mangle;
    var s: seq<CodePoint> := [0x20AC];
    RepairRestores(s);
    assert 0x20AC in s;
  }

  /** Text that repair changes beyond recovery: the control U+0080 stands for a byte that is a euro sign. */
  lemma EuroControlIsNotRecovered()
    ensures Repair([0xC3, 0x80]) == [0xC0] && Mangle([0xC0]) != [0xC3, 0x80]
  {
    var v: seq<CodePoint> := [0xC3, 0x80];
    var raw: seq<Byte> := [0xC3, 0x80];
    assert RawByte(0xC3) == Some(0xC3) by { RawOfRead(0xC3); }
    assert v[1..][1..] == [] && v[1..][0] == 0x80;
    assert RawBytes(v[1..][1..]) == Some([]);
    assert RawBytes(v[1..]) == Some([0x80] + []);
    assert RawBytes(v) == Some([0xC3] + ([0x80] + []));
    assert raw == [0xC3] + ([0x80] + []);
    assert DecodeChar(raw) == Some((0xC0, 2)) && raw[2..] == [] && Decode(raw[2..]) == Some([]);
    assert Decode(raw) == Some([0xC0] + []);
    ChangedTextRemangles(v);
    assert v[1] in v;
  }
}
