/** The text primitives reader.py relies on, over `string`: `str.split()`
    with no argument, `str.strip()`, and `int()` / `float()` applied to a
    single token. Only the ASCII digits are read as digits. */
module Text {
  import opened Wrappers

  /** The characters for which Python's `str.isspace` holds. */
  predicate IsSpace(c: char)
  {
    || c == ' '
    || '\U{9}' <= c <= '\U{D}'
    || '\U{1C}' <= c <= '\U{1F}'
    || c == '\U{85}' || c == '\U{A0}' || c == '\U{1680}'
    || '\U{2000}' <= c <= '\U{200A}'
    || c == '\U{2028}' || c == '\U{2029}' || c == '\U{202F}' || c == '\U{205F}' || c == '\U{3000}'
  }

  /** A token of `split()`: non-empty and free of whitespace. */
  predicate IsWord(s: string)
  {
    |s| > 0 && forall i | 0 <= i < |s| :: !IsSpace(s[i])
  }

  /** `s` without its leading whitespace. */
  function DropSpace(s: string): (t: string)
    ensures |t| <= |s|
    ensures t == [] || !IsSpace(t[0])
  {
    if s != [] && IsSpace(s[0]) then DropSpace(s[1..]) else s
  }

  /** `s` without its trailing whitespace. */
  function DropTrailing(s: string): (t: string)
    ensures |t| <= |s|
  {
    if s != [] && IsSpace(s[|s| - 1]) then DropTrailing(s[..|s| - 1]) else s
  }

  /** `s.strip()`. */
  function Strip(s: string): string
  {
    DropTrailing(DropSpace(s))
  }

  /** The longest prefix of `s` free of whitespace. */
  function Word(s: string): (w: string)
    ensures |w| <= |s|
    ensures s != [] && !IsSpace(s[0]) ==> |w| > 0
  {
    if s == [] || IsSpace(s[0]) then [] else [s[0]] + Word(s[1..])
  }

  /** `s.split()`: the maximal runs of non-whitespace characters, in order. */
  function Split(s: string): seq<string>
    decreases |s|
  {
    var t := DropSpace(s);
    if t == [] then [] else [Word(t)] + Split(t[|Word(t)|..])
  }

  /** Tokens laid out on a line separated by single spaces. */
  function Join(ts: seq<string>): string
  {
    if ts == [] then ""
    else if |ts| == 1 then ts[0]
    else ts[0] + " " + Join(ts[1..])
  }

  /** A word followed by nothing or by whitespace is read whole. */
  lemma {:induction false} WordOfWord(w: string, rest: string)
    requires IsWord(w) && (rest == [] || IsSpace(rest[0]))
    ensures Word(w + rest) == w
    decreases |w|
  {
    if |w| > 1 {
      assert (w + rest)[1..] == w[1..] + rest;
      WordOfWord(w[1..], rest);
    } else {
      assert (w + rest)[1..] == rest;
    }
  }

  /** Leading whitespace does not change the tokens. */
  lemma SplitSpace(c: char, s: string)
    requires IsSpace(c)
    ensures Split([c] + s) == Split(s)
  {
    assert ([c] + s)[1..] == s;
  }

  /** Splitting undoes joining. */
  lemma {:induction false} SplitJoin(ts: seq<string>)
    requires forall p | 0 <= p < |ts| :: IsWord(ts[p])
    ensures Split(Join(ts)) == ts
    decreases |ts|
  {
    if |ts| == 1 {
      WordOfWord(ts[0], []);
      assert ts[0] + [] == ts[0];
      assert Split(ts[0]) == [ts[0]] + Split([]);
    } else if |ts| > 1 {
      var w, j := ts[0], Join(ts[1..]);
      var s := w + " " + j;
      assert s == w + ([' '] + j);
      WordOfWord(w, [' '] + j);
      assert s[|w|..] == [' '] + j;
      SplitSpace(' ', j);
      SplitJoin(ts[1..]);
      assert Split(s) == [w] + Split(s[|w|..]);
      assert ts == [ts[0]] + ts[1..];
    }
  }

  /** Whitespace after `s` does not change the tokens. */
  lemma {:induction false} SplitTrailingSpace(s: string, c: char)
    requires IsSpace(c)
    ensures Split(s + [c]) == Split(s)
    decreases |s|
  {
    var t := DropSpace(s);
    DropSpaceAppend(s, c);
    if t != [] {
      var w := Word(t);
      WordAppendSpace(t, c);
      assert (t + [c])[|w|..] == t[|w|..] + [c];
      SplitTrailingSpace(t[|w|..], c);
    }
  }

  lemma {:induction false} DropSpaceAppend(s: string, c: char)
    requires IsSpace(c)
    ensures DropSpace(s) == [] ==> DropSpace(s + [c]) == []
    ensures DropSpace(s) != [] ==> DropSpace(s + [c]) == DropSpace(s) + [c]
    decreases |s|
  {
    if s == [] {
      assert ([] + [c])[1..] == [];
    } else {
      assert (s + [c])[1..] == s[1..] + [c];
      if IsSpace(s[0]) {
        DropSpaceAppend(s[1..], c);
      }
    }
  }

  lemma {:induction false} WordAppendSpace(t: string, c: char)
    requires IsSpace(c)
    ensures Word(t + [c]) == Word(t)
    decreases |t|
  {
    if t == [] {
    } else {
      assert (t + [c])[1..] == t[1..] + [c];
      if !IsSpace(t[0]) {
        WordAppendSpace(t[1..], c);
      }
    }
  }

  lemma {:induction false} SplitDropTrailing(s: string)
    ensures Split(DropTrailing(s)) == Split(s)
    decreases |s|
  {
    if s != [] && IsSpace(s[|s| - 1]) {
      var p := s[..|s| - 1];
      assert s == p + [s[|s| - 1]];
      SplitTrailingSpace(p, s[|s| - 1]);
      SplitDropTrailing(p);
    }
  }

  /** `s.strip().split()` is `s.split()`: the strip reader.py does first
      never changes the tokens. */
  lemma SplitStrip(s: string)
    ensures Split(Strip(s)) == Split(s)
  {
    var t := DropSpace(s);
    assert DropSpace(t) == t;
    SplitDropTrailing(t);
  }

  predicate IsDigit(c: char)
  {
    '0' <= c <= '9'
  }

  predicate AllDigits(s: string)
  {
    forall i | 0 <= i < |s| :: IsDigit(s[i])
  }

  function DigitValue(c: char): nat
    requires IsDigit(c)
  {
    c as int - '0' as int
  }

  /** The number a string of decimal digits denotes (0 for no digits). */
  function DigitsValue(s: string): nat
    requires AllDigits(s)
  {
    if s == [] then 0 else 10 * DigitsValue(s[..|s| - 1]) + DigitValue(s[|s| - 1])
  }

  function Pow10(n: nat): (p: nat)
    ensures p >= 1
  {
    if n == 0 then 1 else 10 * Pow10(n - 1)
  }

  function ParseNat(s: string): Option<nat>
  {
    if s != [] && AllDigits(s) then Some(DigitsValue(s)) else None
  }

  /** `int(s)` of a token: an optional sign followed by one or more digits. */
  function ParseInt(s: string): Option<int>
  {
    var neg := |s| > 0 && s[0] == '-';
    var body := if |s| > 0 && (s[0] == '-' || s[0] == '+') then s[1..] else s;
    match ParseNat(body)
    case None => None
    case Some(n) =>
      var v: int := if neg then -(n as int) else n;
      Some(v)
  }

  /** The index of the first character of `s` in `cs`, or `|s|`. */
  function FirstIndex(s: string, cs: set<char>): (k: nat)
    ensures k <= |s|
  {
    if s == [] || s[0] in cs then 0 else 1 + FirstIndex(s[1..], cs)
  }

  /** A mantissa: digits with at most one decimal point, at least one digit. */
  function ParseMantissa(m: string): Option<real>
  {
    var p := FirstIndex(m, {'.'});
    var a := if p == |m| then m else m[..p];
    var b := if p == |m| then "" else m[p + 1..];
    if AllDigits(a) && AllDigits(b) && |a| + |b| > 0
    then Some(DigitsValue(a + b) as real / Pow10(|b|) as real)
    else None
  }

  /** `m * 10^e`. */
  function Scale(m: real, e: int): real
  {
    if e >= 0 then m * Pow10(e) as real else m / Pow10(-e) as real
  }

  function ParseUnsignedReal(u: string): Option<real>
  {
    var k := FirstIndex(u, {'e', 'E'});
    match ParseMantissa(u[..k])
    case None => None
    case Some(m) =>
      if k == |u| then Some(m)
      else
        match ParseInt(u[k + 1..])
        case None => None
        case Some(e) => Some(Scale(m, e))
  }

  /** `float(s)` of a token written in decimal notation, with an optional
      sign and an optional exponent, read as an exact real. */
  function ParseReal(s: string): Option<real>
  {
    if |s| > 0 && s[0] == '-' then
      match ParseUnsignedReal(s[1..])
      case None => None
      case Some(x) => Some(-x)
    else if |s| > 0 && s[0] == '+' then ParseUnsignedReal(s[1..])
    else ParseUnsignedReal(s)
  }

  // Writing numbers out, the partner of reading them.

  function DigitChar(d: nat): (c: char)
    requires d < 10
    ensures IsDigit(c) && DigitValue(c) == d
  {
    ('0' as int + d) as char
  }

  function NatToString(n: nat): (s: string)
    ensures s != [] && AllDigits(s)
  {
    if n < 10 then [DigitChar(n)] else NatToString(n / 10) + [DigitChar(n % 10)]
  }

  function Abs(n: int): nat
  {
    if n < 0 then -n else n
  }

  /** `str(n)`. */
  function IntToString(n: int): string
  {
    if n < 0 then "-" + NatToString(-n) else NatToString(n)
  }

  lemma {:induction false} NatToStringValue(n: nat)
    ensures DigitsValue(NatToString(n)) == n
    decreases n
  {
    if n >= 10 {
      NatToStringValue(n / 10);
      var s := NatToString(n);
      assert s[..|s| - 1] == NatToString(n / 10);
    }
  }

  /** Reading back a written integer gives that integer. */
  lemma ParseIntRoundTrip(n: int)
    ensures ParseInt(IntToString(n)) == Some(n)
  {
    NatToStringValue(Abs(n));
    var s := IntToString(n);
    if n < 0 {
      assert s[1..] == NatToString(-n);
    } else {
      assert IsDigit(s[0]);
    }
  }

  /** A decimal with `places` digits after the point: `digits / 10^places`. */
  datatype Decimal = Decimal(digits: int, places: nat) {
    function Value(): real
    {
      digits as real / Pow10(places) as real
    }
  }

  /** `s` with zeros in front, to at least `n` characters. */
  function Pad(s: string, n: nat): (t: string)
    requires AllDigits(s)
    ensures |t| >= n && |t| >= |s| && AllDigits(t)
    decreases n - |s|
  {
    if |s| >= n then s else Pad("0" + s, n)
  }

  /** The digits of a decimal's magnitude, with enough leading zeros for
      one digit before the point. */
  function Body(d: Decimal): (body: string)
    ensures AllDigits(body) && d.places < |body|
  {
    Pad(NatToString(Abs(d.digits)), d.places + 1)
  }

  /** The decimal written out, as `%.<places>f` would print it. */
  function DecimalString(d: Decimal): string
  {
    (if d.digits < 0 then "-" else "") + PointAt(Body(d), d.places)
  }

  /** A leading zero does not change the value of a digit string. */
  lemma {:induction false} LeadingZero(s: string)
    requires AllDigits(s)
    ensures DigitsValue("0" + s) == DigitsValue(s)
    decreases |s|
  {
    if s == [] {
      assert "0"[..0] == [];
    } else {
      var p := s[..|s| - 1];
      assert ("0" + s)[..|"0" + s| - 1] == "0" + p;
      LeadingZero(p);
    }
  }

  lemma {:induction false} PadValue(s: string, n: nat)
    requires AllDigits(s)
    ensures DigitsValue(Pad(s, n)) == DigitsValue(s)
    decreases n - |s|
  {
    if |s| < n {
      LeadingZero(s);
      PadValue("0" + s, n);
    }
  }

  lemma {:induction false} FirstIndexAbsent(s: string, cs: set<char>)
    requires forall i | 0 <= i < |s| :: s[i] !in cs
    ensures FirstIndex(s, cs) == |s|
  {
    if s != [] {
      FirstIndexAbsent(s[1..], cs);
    }
  }

  lemma {:induction false} FirstIndexAt(s: string, cs: set<char>, k: nat)
    requires k < |s| && s[k] in cs && forall i | 0 <= i < k :: s[i] !in cs
    ensures FirstIndex(s, cs) == k
  {
    if k > 0 {
      FirstIndexAt(s[1..], cs, k - 1);
    }
  }

  /** The digits `body` with a point before the last `places` of them. */
  function PointAt(body: string, places: nat): string
    requires places < |body|
  {
    var k := |body| - places;
    if places == 0 then body else body[..k] + "." + body[k..]
  }

  lemma MantissaOfPointAt(body: string, places: nat)
    requires AllDigits(body) && places < |body|
    ensures ParseMantissa(PointAt(body, places)) == Some(DigitsValue(body) as real / Pow10(places) as real)
  {
    var u := PointAt(body, places);
    if places == 0 {
      FirstIndexAbsent(u, {'.'});
      assert body + "" == body;
    } else {
      var k := |body| - places;
      var a, b := body[..k], body[k..];
      assert AllDigits(a) && AllDigits(b) && |b| == places;
      assert u == a + "." + b;
      FirstIndexAt(u, {'.'}, k);
      assert u[..k] == a && u[k + 1..] == b;
      assert body == a + b;
      assert ParseMantissa(u) == Some(DigitsValue(body) as real / Pow10(places) as real);
    }
  }

  lemma UnsignedOfPointAt(body: string, places: nat)
    requires AllDigits(body) && places < |body|
    ensures ParseUnsignedReal(PointAt(body, places)) == Some(DigitsValue(body) as real / Pow10(places) as real)
  {
    var u := PointAt(body, places);
    assert forall i | 0 <= i < |u| :: IsDigit(u[i]) || u[i] == '.';
    FirstIndexAbsent(u, {'e', 'E'});
    assert u[..|u|] == u;
    MantissaOfPointAt(body, places);
  }

  /** The value of a decimal from its unsigned digits and its sign. */
  lemma SignedValue(d: Decimal)
    ensures var q := Abs(d.digits) as real / Pow10(d.places) as real;
      d.Value() == if d.digits < 0 then -q else q
  {
  }

  lemma ParseRealNegative(u: string, x: real)
    requires ParseUnsignedReal(u) == Some(x)
    ensures ParseReal("-" + u) == Some(-x)
  {
    var s := "-" + u;
    assert s[1..] == u;
    ParseRealMinus(s, x);
  }

  /** A leading minus negates what the rest reads as. */
  lemma ParseRealMinus(s: string, x: real)
    requires |s| > 0 && s[0] == '-' && ParseUnsignedReal(s[1..]) == Some(x)
    ensures ParseReal(s) == Some(-x)
  {
  }

  lemma ParseRealUnsigned(u: string, x: real)
    requires |u| > 0 && IsDigit(u[0]) && ParseUnsignedReal(u) == Some(x)
    ensures ParseReal(u) == Some(x)
  {
  }

  /** Digits with a point inside start with a digit. */
  lemma PointAtStartsWithDigit(body: string, places: nat)
    requires AllDigits(body) && places < |body|
    ensures |PointAt(body, places)| > 0 && IsDigit(PointAt(body, places)[0])
  {
    assert PointAt(body, places)[0] == body[0];
  }

  /** An optional minus in front of an unsigned number that starts with a
      digit negates its value. */
  lemma ParseSigned(u: string, negative: bool, x: real)
    requires |u| > 0 && IsDigit(u[0]) && ParseUnsignedReal(u) == Some(x)
    ensures ParseReal((if negative then "-" else "") + u) == Some(if negative then -x else x)
  {
    if negative {
      ParseRealNegative(u, x);
    } else {
      assert "" + u == u;
      ParseRealUnsigned(u, x);
    }
  }

  /** The digits a decimal is written with denote its magnitude. */
  lemma BodyValue(d: Decimal)
    ensures DigitsValue(Body(d)) == Abs(d.digits)
  {
    NatToStringValue(Abs(d.digits));
    PadValue(NatToString(Abs(d.digits)), d.places + 1);
  }

  /** Reading back a written decimal gives its value. */
  lemma ParseRealRoundTrip(d: Decimal)
    ensures ParseReal(DecimalString(d)) == Some(d.Value())
  {
    var body := Body(d);
    var u := PointAt(body, d.places);
    var q := Abs(d.digits) as real / Pow10(d.places) as real;
    BodyValue(d);
    UnsignedOfPointAt(body, d.places);
    PointAtStartsWithDigit(body, d.places);
    ParseSigned(u, d.digits < 0, q);
    SignedValue(d);
    assert DecimalString(d) == (if d.digits < 0 then "-" else "") + u;
    assert d.Value() == if d.digits < 0 then -q else q;
  }

  lemma NatToStringIsWord(n: nat)
    ensures IsWord(NatToString(n))
  {
    var s := NatToString(n);
    assert forall i | 0 <= i < |s| :: IsDigit(s[i]);
  }

  lemma IntToStringIsWord(n: int)
    ensures IsWord(IntToString(n))
  {
    NatToStringIsWord(Abs(n));
  }

  lemma DecimalStringIsWord(d: Decimal)
    ensures IsWord(DecimalString(d))
  {
    var u := PointAt(Body(d), d.places);
    assert forall i | 0 <= i < |u| :: IsDigit(u[i]) || u[i] == '.';
  }
}
