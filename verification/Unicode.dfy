/**
 The encodings themselves, as the standards define them: UTF-8 by sections 3 and 4 of
 RFC 3629, UTF-16 by sections 2.1 and 2.2 of RFC 2781, UTF-32 as one unit a character.
 */
module Unicode {

  type Word = x: int | 0 <= x < 0x1_0000
  type Unit = x: int | 0 <= x < 0x1_0000_0000
  type Scalar = x: int | 0 <= x < 0xD800 || 0xE000 <= x < 0x11_0000

  datatype Form = UTF8 | UTF16 | UTF32

  const REPLACEMENT: Unit := 0xFFFD

  predicate IsSurrogate(u: Unit) { 0xD800 <= u <= 0xDFFF }
  predicate IsHigh(u: Unit) { 0xD800 <= u <= 0xDBFF }
  predicate IsLow(u: Unit) { 0xDC00 <= u <= 0xDFFF }

  // ---- One character -----------------------------------------------------------------

  function Encode8(v: Unit): seq<Unit>
    requires v < 0x11_0000
  {
    if v < 0x80 then [v]
    else if v < 0x800 then [0xC0 + v / 64, 0x80 + v % 64]
    else if v < 0x1_0000 then [0xE0 + v / 4096, 0x80 + v / 64 % 64, 0x80 + v % 64]
    else [0xF0 + v / 0x4_0000, 0x80 + v / 4096 % 64, 0x80 + v / 64 % 64, 0x80 + v % 64]
  }

  function Encode16(v: Unit): seq<Unit>
    requires v < 0x11_0000
  {
    if v < 0x1_0000 then [v]
    else [0xD800 + (v - 0x1_0000) / 1024, 0xDC00 + (v - 0x1_0000) % 1024]
  }

  /** The code units of v; a value no code point has is written as U+FFFD. */
  function Encode(form: Form, v: Unit): (s: seq<Unit>)
    ensures 1 <= |s| <= 4
  {
    var w := if v < 0x11_0000 then v else REPLACEMENT;
    match form
    case UTF8 => Encode8(w)
    case UTF16 => Encode16(w)
    case UTF32 => [w]
  }

  function EncodeAll(form: Form, vs: seq<Scalar>): seq<Unit> {
    if vs == [] then [] else Encode(form, vs[0]) + EncodeAll(form, vs[1..])
  }

  // ---- Well-formed text --------------------------------------------------------------

  predicate Tail(b: Unit) { 0x80 <= b <= 0xBF }

  /** The rule UTF8-char of section 4 of RFC 3629. */
  predicate IsChar8(s: seq<Unit>) {
    || (|s| == 1 && s[0] <= 0x7F)
    || (|s| == 2 && 0xC2 <= s[0] <= 0xDF && Tail(s[1]))
    || (|s| == 3 && Tail(s[2]) &&
        ( || (s[0] == 0xE0 && 0xA0 <= s[1] <= 0xBF)
          || (0xE1 <= s[0] <= 0xEC && Tail(s[1]))
          || (s[0] == 0xED && 0x80 <= s[1] <= 0x9F)
          || (0xEE <= s[0] <= 0xEF && Tail(s[1]))))
    || (|s| == 4 && Tail(s[2]) && Tail(s[3]) &&
        ( || (s[0] == 0xF0 && 0x90 <= s[1] <= 0xBF)
          || (0xF1 <= s[0] <= 0xF3 && Tail(s[1]))
          || (s[0] == 0xF4 && 0x80 <= s[1] <= 0x8F)))
  }

  /** One character of UTF-16: a unit that is no surrogate, or a high and a low surrogate. */
  predicate IsChar16(s: seq<Unit>) {
    || (|s| == 1 && s[0] < 0x1_0000 && !IsSurrogate(s[0]))
    || (|s| == 2 && IsHigh(s[0]) && IsLow(s[1]))
  }

  predicate IsChar(form: Form, s: seq<Unit>) {
    match form
    case UTF8 => IsChar8(s)
    case UTF16 => IsChar16(s)
    case UTF32 => |s| == 1 && s[0] < 0x11_0000 && !IsSurrogate(s[0])
  }

  /** s is a run of whole characters of the form. */
  predicate WellFormed(form: Form, s: seq<Unit>)
    decreases |s|
  {
    || s == []
    || (IsChar(form, s[..1]) && WellFormed(form, s[1..]))
    || (|s| >= 2 && IsChar(form, s[..2]) && WellFormed(form, s[2..]))
    || (|s| >= 3 && IsChar(form, s[..3]) && WellFormed(form, s[3..]))
    || (|s| >= 4 && IsChar(form, s[..4]) && WellFormed(form, s[4..]))
  }

  /** The character number a UTF-8 sequence carries (section 3 of RFC 3629). */
  function Value8(s: seq<Unit>): int {
    var b: seq<int> := s;
    if |b| == 1 then b[0]
    else if |b| == 2 then (b[0] - 0xC0) * 64 + (b[1] - 0x80)
    else if |b| == 3 then (b[0] - 0xE0) * 4096 + (b[1] - 0x80) * 64 + (b[2] - 0x80)
    else if |b| == 4 then (b[0] - 0xF0) * 0x4_0000 + (b[1] - 0x80) * 4096 + (b[2] - 0x80) * 64 + (b[3] - 0x80)
    else -1
  }

  /** The character number of a surrogate pair (section 2.2 of RFC 2781). */
  function PairValue(high: Unit, low: Unit): Unit
    requires IsHigh(high) && IsLow(low)
  {
    (high - 0xD800) * 1024 + (low - 0xDC00) + 0x1_0000
  }

  function Value(form: Form, s: seq<Unit>): int
    requires IsChar(form, s)
  {
    match form
    case UTF8 => Value8(s)
    case UTF16 => if |s| == 1 then s[0] else PairValue(s[0], s[1])
    case UTF32 => s[0]
  }

  /** The examples of section 7 of RFC 3629, and one of section 5 of RFC 2781. */
  lemma Examples()
    ensures Encode8(0x41) == [0x41] && Encode8(0x391) == [0xCE, 0x91]
    ensures Encode8(0x2262) == [0xE2, 0x89, 0xA2] && Encode8(0xFEFF) == [0xEF, 0xBB, 0xBF]
    ensures Encode8(0xD55C) == [0xED, 0x95, 0x9C] && Encode8(0x233B4) == [0xF0, 0xA3, 0x8E, 0xB4]
    ensures Encode16(0x12345) == [0xD808, 0xDF45]
  {
  }

  // ---- Encoding and the grammar agree ------------------------------------------------

  lemma Recompose(v: nat)
    ensures v == v / 64 * 64 + v % 64
    ensures v == v / 4096 * 4096 + v / 64 % 64 * 64 + v % 64
    ensures v == v / 0x4_0000 * 0x4_0000 + v / 4096 % 64 * 4096 + v / 64 % 64 * 64 + v % 64
  {
    var a := v / 64;
    var b := a / 64;
    assert b == v / 4096;
    assert b / 64 == v / 0x4_0000;
  }

  lemma EncodeIsChar8(v: Scalar)
    ensures IsChar8(Encode8(v)) && Value8(Encode8(v)) == v
  {
    Recompose(v);
  }

  lemma EncodeIsChar16(v: Scalar)
    ensures IsChar16(Encode16(v)) && Value(UTF16, Encode16(v)) == v
  {
  }

  /** Every scalar value is written as one character of each form, which carries it. */
  lemma EncodeIsChar(form: Form, v: Scalar)
    ensures IsChar(form, Encode(form, v)) && Value(form, Encode(form, v)) == v
  {
    EncodeIsChar8(v);
    EncodeIsChar16(v);
  }

  lemma CharIsEncoded8(s: seq<Unit>)
    requires IsChar8(s)
    ensures 0 <= Value8(s) < 0x11_0000 && !IsSurrogate(Value8(s)) && s == Encode8(Value8(s))
  {
    if |s| == 2 {
      Digits2(s[0] - 0xC0, s[1] - 0x80);
    } else if |s| == 3 {
      CharIsEncoded8Three(s);
    } else if |s| == 4 {
      CharIsEncoded8Four(s);
    }
  }

  lemma CharIsEncoded8Three(s: seq<Unit>)
    requires |s| == 3 && IsChar8(s)
    ensures 0 <= Value8(s) < 0x11_0000 && !IsSurrogate(Value8(s)) && s == Encode8(Value8(s))
  {
    var a, b, c := s[0] - 0xE0, s[1] - 0x80, s[2] - 0x80;
    var v := a * 4096 + b * 64 + c;
    assert v == Value8(s);
    Digits3(a, b, c);
    assert 0x800 <= v < 0x1_0000 && !IsSurrogate(v);
  }

  lemma CharIsEncoded8Four(s: seq<Unit>)
    requires |s| == 4 && IsChar8(s)
    ensures 0 <= Value8(s) < 0x11_0000 && !IsSurrogate(Value8(s)) && s == Encode8(Value8(s))
  {
    var a, b, c, d := s[0] - 0xF0, s[1] - 0x80, s[2] - 0x80, s[3] - 0x80;
    var v := a * 0x4_0000 + b * 4096 + c * 64 + d;
    assert v == Value8(s);
    Digits4(a, b, c, d);
    assert 0x1_0000 <= v < 0x11_0000;
  }

  lemma Digits2(a: nat, b: nat)
    requires b < 64
    ensures var v := a * 64 + b; v / 64 == a && v % 64 == b
  {
  }

  lemma Digits3(a: nat, b: nat, c: nat)
    requires b < 64 && c < 64
    ensures var v := a * 4096 + b * 64 + c; v / 4096 == a && v / 64 % 64 == b && v % 64 == c
  {
    var v := a * 4096 + b * 64 + c;
    Digits2(a * 64 + b, c);
    assert v / 64 == a * 64 + b;
    Digits2(a, b);
  }

  lemma Digits4(a: nat, b: nat, c: nat, d: nat)
    requires b < 64 && c < 64 && d < 64
    ensures var v := a * 0x4_0000 + b * 4096 + c * 64 + d;
            v / 0x4_0000 == a && v / 4096 % 64 == b && v / 64 % 64 == c && v % 64 == d
  {
    var v := a * 0x4_0000 + b * 4096 + c * 64 + d;
    Digits2(a * 4096 + b * 64 + c, d);
    assert v / 64 == a * 4096 + b * 64 + c;
    Digits3(a, b, c);
    assert v / 4096 == a * 64 + b;
    Digits2(a, b);
  }

  /** Every character of a form is the encoding of the scalar value it carries, and of no other. */
  lemma CharIsEncoded(form: Form, s: seq<Unit>)
    requires IsChar(form, s)
    ensures 0 <= Value(form, s) < 0x11_0000 && !IsSurrogate(Value(form, s))
    ensures s == Encode(form, Value(form, s))
  {
    match form
    case UTF8 => CharIsEncoded8(s);
    case UTF16 =>
    case UTF32 =>
  }

  /** Text made of encoded characters is well formed. */
  lemma {:induction false} EncodedIsWellFormed(form: Form, vs: seq<Scalar>)
    ensures WellFormed(form, EncodeAll(form, vs))
  {
    if vs != [] {
      var c, rest := Encode(form, vs[0]), EncodeAll(form, vs[1..]);
      EncodeIsChar(form, vs[0]);
      EncodedIsWellFormed(form, vs[1..]);
      var s := c + rest;
      assert s[..|c|] == c && s[|c|..] == rest;
    }
  }

  /** The length of the first character of well-formed text. */
  function FirstLength(form: Form, s: seq<Unit>): (n: nat)
    requires s != [] && WellFormed(form, s)
    ensures 1 <= n <= |s| && IsChar(form, s[..n]) && WellFormed(form, s[n..])
  {
    if IsChar(form, s[..1]) && WellFormed(form, s[1..]) then 1
    else if |s| >= 2 && IsChar(form, s[..2]) && WellFormed(form, s[2..]) then 2
    else if |s| >= 3 && IsChar(form, s[..3]) && WellFormed(form, s[3..]) then 3
    else 4
  }

  /** Well-formed text is the encoding of some sequence of scalar values. */
  lemma {:induction false} WellFormedIsEncoded(form: Form, s: seq<Unit>) returns (vs: seq<Scalar>)
    requires WellFormed(form, s)
    ensures s == EncodeAll(form, vs)
    decreases |s|
  {
    if s == [] { return []; }
    var n := FirstLength(form, s);
    CharIsEncoded(form, s[..n]);
    var v: Scalar := Value(form, s[..n]);
    var rest := WellFormedIsEncoded(form, s[n..]);
    vs := [v] + rest;
    assert vs[1..] == rest;
    assert s == s[..n] + s[n..];
  }
}
