/** Decimals as text: digits before and after a point, and back. */
module DecimalText {
  import opened Binary
  import opened Options
  import opened Rounding

  // ---- whole numbers ----

  predicate IsDigit(c: char) {
    '0' <= c <= '9'
  }

  function DigitOf(c: char): nat
    requires IsDigit(c)
  {
    c as int - '0' as int
  }

  function CharOf(d: nat): (c: char)
    requires d < 10
    ensures IsDigit(c) && DigitOf(c) == d
  {
    ('0' as int + d) as char
  }

  predicate AllDigits(s: string) {
    forall i | 0 <= i < |s| :: IsDigit(s[i])
  }

  /** The number that a string of digits denotes. */
  function DigitsValue(s: string): nat
    requires AllDigits(s)
  {
    if s == [] then 0 else DigitsValue(s[..|s| - 1]) * 10 + DigitOf(s[|s| - 1])
  }

  function Pow10(n: nat): (p: nat)
    ensures p >= 1
  {
    if n == 0 then 1 else 10 * Pow10(n - 1)
  }

  /** The text of a natural number, without leading zeros. */
  function Decimal(n: nat): (s: string)
    ensures |s| >= 1 && AllDigits(s)
  {
    if n < 10 then [CharOf(n)] else Decimal(n / 10) + [CharOf(n % 10)]
  }

  lemma {:induction false} DecimalValue(n: nat)
    ensures DigitsValue(Decimal(n)) == n
  {
    if n >= 10 {
      DecimalValue(n / 10);
      assert Decimal(n)[..|Decimal(n)| - 1] == Decimal(n / 10);
    } else {
      assert Decimal(n)[..0] == [];
    }
  }

  lemma ShiftByTen(a: nat, p: nat, b: nat)
    ensures (a * p + b) * 10 == a * (10 * p) + b * 10
  {
  }

  lemma {:induction false} ValueConcat(a: string, b: string)
    requires AllDigits(a) && AllDigits(b)
    ensures AllDigits(a + b)
    ensures DigitsValue(a + b) == DigitsValue(a) * Pow10(|b|) + DigitsValue(b)
  {
    if b == [] {
      assert a + b == a;
    } else {
      var n := |b| - 1;
      ValueConcat(a, b[..n]);
      assert (a + b)[..|a + b| - 1] == a + b[..n];
      ShiftByTen(DigitsValue(a), Pow10(n), DigitsValue(b[..n]));
    }
  }

  function Zeros(n: nat): (s: string)
    ensures |s| == n && AllDigits(s)
  {
    if n == 0 then "" else Zeros(n - 1) + "0"
  }

  lemma {:induction false} ZerosValue(n: nat)
    ensures DigitsValue(Zeros(n)) == 0
  {
    if n > 0 {
      ZerosValue(n - 1);
      assert Zeros(n)[..n - 1] == Zeros(n - 1);
    }
  }

  /** `big.Int.SetString` in base ten: an optional sign and at least one digit. */
  function SetString(s: string): Option<int> {
    if s == [] then None
    else
      var digits := if s[0] == '+' || s[0] == '-' then s[1..] else s;
      if digits == [] || !AllDigits(digits) then None
      else Some(if s[0] == '-' then 0 - DigitsValue(digits) else DigitsValue(digits))
  }

  /** `big.Int.MarshalText` */
  function IntText(n: int): string {
    if n < 0 then "-" + Decimal(-n) else Decimal(n)
  }

  lemma IntTextBack(n: int)
    ensures SetString(IntText(n)) == Some(n)
  {
    hide Decimal, DigitsValue;
    if n < 0 {
      DecimalValue(-n);
      assert IntText(n)[1..] == Decimal(-n);
    } else {
      DecimalValue(n);
      SetDigits(Decimal(n));
    }
  }

  // ---- decimals with 36 places ----

  const PRECISION: nat := 36

  const MAX_BIT_LEN: nat := 1024

  /** What the check on the bit length lets pass. */
  predicate InRange(v: int) {
    BitLen(Abs(v)) <= MAX_BIT_LEN
  }

  /** `BigDec.String` */
  function Text(d: int): string {
    var ds := Decimal(if d < 0 then -d else d);
    var body := if |ds| <= PRECISION then "0." + Zeros(PRECISION - |ds|) + ds
                else ds[..|ds| - PRECISION] + "." + ds[|ds| - PRECISION..];
    if d < 0 then "-" + body else body
  }

  datatype ParseError = EmptyDecimalStr | InvalidDecimalLength | InvalidDecimalStr | InvalidPrecision | BadDigits | OutOfRange

  datatype Parsed = Ok(value: int) | Err(error: ParseError)

  /** `strings.Split` at the decimal point. */
  function SplitAtPoints(s: string): (parts: seq<string>)
    ensures |parts| >= 1
  {
    if s == [] then [""]
    else
      var rest := SplitAtPoints(s[1..]);
      if s[0] == '.' then [""] + rest else [[s[0]] + rest[0]] + rest[1..]
  }

  /** `NewBigDecFromStr` */
  function Parse(str: string): Parsed {
    if |str| == 0 then Err(EmptyDecimalStr)
    else
      var neg := str[0] == '-';
      var body := if neg then str[1..] else str;
      if |body| == 0 then Err(EmptyDecimalStr)
      else ParseBody(neg, SplitAtPoints(body))
  }

  function ParseBody(neg: bool, strs: seq<string>): Parsed
    requires |strs| >= 1
  {
    if |strs| == 2 && (|strs[1]| == 0 || |strs[0]| == 0) then Err(InvalidDecimalLength)
    else if |strs| > 2 then Err(InvalidDecimalStr)
    else
      var decimals := if |strs| == 2 then strs[1] else "";
      if |decimals| > PRECISION then Err(InvalidPrecision)
      else
        var combined := SetString(strs[0] + decimals + Zeros(PRECISION - |decimals|));
        if combined.None? then Err(BadDigits)
        else if !InRange(combined.value) then Err(OutOfRange)
        else Ok(if neg then -combined.value else combined.value)
  }

  // ---- splitting at the point ----

  lemma {:induction false} NoPoint(s: string)
    requires '.' !in s
    ensures SplitAtPoints(s) == [s]
  {
    if s != [] {
      NoPoint(s[1..]);
      assert [s[0]] + s[1..] == s;
    }
  }

  lemma {:induction false} OnePoint(w: string, f: string)
    requires '.' !in w && '.' !in f
    ensures SplitAtPoints(w + "." + f) == [w, f]
  {
    var s := w + "." + f;
    if w == [] {
      assert s[1..] == f;
      NoPoint(f);
    } else {
      assert s[1..] == w[1..] + "." + f;
      OnePoint(w[1..], f);
      assert [w[0]] + w[1..] == w;
    }
  }

  /** Up to two parts, joined at the point, are the text that was split. */
  lemma {:induction false} JoinParts(s: string)
    ensures
      var parts := SplitAtPoints(s);
      && (|parts| == 1 ==> s == parts[0])
      && (|parts| == 2 ==> s == parts[0] + "." + parts[1])
  {
    if s != [] {
      JoinParts(s[1..]);
      assert s == [s[0]] + s[1..];
    }
  }

  /** Digits are read as the number they denote. */
  lemma SetDigits(s: string)
    requires AllDigits(s) && s != []
    ensures SetString(s) == Some(DigitsValue(s))
  {
    assert IsDigit(s[0]);
  }

  /** The number that whole and decimal digits denote, in units of the 36th place. */
  function Denoted(w: string, f: string): int
    requires AllDigits(w) && AllDigits(f) && |f| <= PRECISION
  {
    DigitsValue(w) * Pow10(PRECISION) + DigitsValue(f) * Pow10(PRECISION - |f|)
  }

  lemma PowSum(j: nat, k: nat)
    ensures Pow10(j + k) == Pow10(j) * Pow10(k)
  {
    if j > 0 {
      PowSum(j - 1, k);
      assert 10 * (Pow10(j - 1) * Pow10(k)) == (10 * Pow10(j - 1)) * Pow10(k);
    }
  }

  lemma CombinedValue(w: string, f: string)
    requires AllDigits(w) && AllDigits(f) && |f| <= PRECISION
    ensures AllDigits(w + f + Zeros(PRECISION - |f|))
    ensures DigitsValue(w + f + Zeros(PRECISION - |f|)) == Denoted(w, f)
  {
    hide DigitsValue, Pow10, Zeros;
    ValueConcat(w, f);
    ValueConcat(w + f, Zeros(PRECISION - |f|));
    ZerosValue(PRECISION - |f|);
    PowSum(|f|, PRECISION - |f|);
    var a, b, p, q := DigitsValue(w), DigitsValue(f), Pow10(|f|), Pow10(PRECISION - |f|);
    Distribute(a, b, p, q);
  }

  lemma Distribute(a: nat, b: nat, p: nat, q: nat)
    ensures (a * p + b) * q == a * (p * q) + b * q
  {
  }

  // ---- what is parsed ----

  /** The parts of a text that is accepted: a minus, another sign, whole digits, and decimals after a point. */
  datatype Number = Number(neg: bool, sign: string, whole: string, point: bool, decimals: string)

  /** Without a minus the second sign cannot be one, and something stands before the point. */
  ghost predicate Form(n: Number) {
    && AllDigits(n.whole) && AllDigits(n.decimals)
    && (n.sign == "" || n.sign == "+" || (n.sign == "-" && n.neg))
    && n.sign + n.whole != ""
    && if n.point then 1 <= |n.decimals| <= PRECISION else n.decimals == ""
  }

  ghost function Written(n: Number): string {
    (if n.neg then "-" else "") + (n.sign + n.whole + (if n.point then "." + n.decimals else ""))
  }

  ghost function Meaning(n: Number): int
    requires Form(n)
  {
    var v := Denoted(n.whole, n.decimals);
    if n.neg != (n.sign == "-") then -v else v
  }

  lemma SetSign(sign: string, ds: string)
    requires AllDigits(ds) && ds != ""
    requires sign == "" || sign == "+" || sign == "-"
    ensures SetString(sign + ds) == Some(if sign == "-" then 0 - DigitsValue(ds) else DigitsValue(ds))
  {
    hide DigitsValue;
    if sign == "" {
      assert sign + ds == ds;
      SetDigits(ds);
    } else {
      assert (sign + ds)[1..] == ds;
    }
  }

  /** The integer parser on a sign, digits and zeros. */
  lemma SetSigned(sign: string, w: string, f: string)
    requires AllDigits(w) && AllDigits(f) && |f| <= PRECISION && w + f + Zeros(PRECISION - |f|) != ""
    requires sign == "" || sign == "+" || sign == "-"
    ensures
      var v := Denoted(w, f);
      SetString(sign + w + f + Zeros(PRECISION - |f|)) == Some(if sign == "-" then 0 - v else v)
  {
    hide DigitsValue, Zeros, Denoted, SetString, AllDigits;
    CombinedValue(w, f);
    SetSign(sign, w + f + Zeros(PRECISION - |f|));
    Regroup(sign, w, f, Zeros(PRECISION - |f|));
  }

  lemma Regroup(a: string, b: string, c: string, d: string)
    ensures a + b + c + d == a + (b + c + d)
  {
  }

  lemma DigitsHaveNoPoint(s: string)
    requires AllDigits(s)
    ensures '.' !in s
  {
  }

  lemma SplitBody(n: Number)
    requires Form(n)
    ensures
      var body := n.sign + n.whole + (if n.point then "." + n.decimals else "");
      SplitAtPoints(body) == if n.point then [n.sign + n.whole, n.decimals] else [n.sign + n.whole]
  {
    DigitsHaveNoPoint(n.whole);
    DigitsHaveNoPoint(n.decimals);
    if n.point {
      OnePoint(n.sign + n.whole, n.decimals);
      assert n.sign + n.whole + ("." + n.decimals) == n.sign + n.whole + "." + n.decimals;
    } else {
      NoPoint(n.sign + n.whole);
      assert n.sign + n.whole + "" == n.sign + n.whole;
    }
  }

  lemma AbsOf(v: int, w: int)
    requires w == v || w == -v
    ensures InRange(v) <==> InRange(w)
  {
  }

  lemma ParseForm(n: Number)
    requires Form(n)
    ensures
      var parts := if n.point then [n.sign + n.whole, n.decimals] else [n.sign + n.whole];
      ParseBody(n.neg, parts) == if InRange(Meaning(n)) then Ok(Meaning(n)) else Err(OutOfRange)
  {
    hide SetString, Zeros, Denoted, InRange;
    var z := Zeros(PRECISION - |n.decimals|);
    assert n.whole + n.decimals + z != "";
    SetSigned(n.sign, n.whole, n.decimals);
    var v := Denoted(n.whole, n.decimals);
    AbsOf(if n.sign == "-" then 0 - v else v, Meaning(n));
  }

  /** Text of an accepted form is parsed as the number that it denotes, or is out of range. */
  lemma ParseWritten(n: Number)
    requires Form(n)
    ensures Parse(Written(n)) == if InRange(Meaning(n)) then Ok(Meaning(n)) else Err(OutOfRange)
  {
    hide ParseBody, SplitAtPoints, Denoted, InRange;
    var body := n.sign + n.whole + (if n.point then "." + n.decimals else "");
    var text := Written(n);
    SplitBody(n);
    ParseForm(n);
    if n.neg {
      assert text[1..] == body;
    } else {
      assert text == body;
      if n.whole != "" { assert IsDigit(n.whole[0]); }
    }
  }

  /** What the integer parser accepts is a sign and digits. */
  lemma SignAndDigits(w: string, z: string) returns (sign: string, ds: string)
    requires w != "" && SetString(w + z).Some?
    ensures w == sign + ds && (sign == "" || sign == "+" || sign == "-")
    ensures AllDigits(ds) && AllDigits(z)
  {
    hide DigitsValue;
    if w[0] == '+' || w[0] == '-' {
      sign, ds := [w[0]], w[1..];
      assert (w + z)[1..] == ds + z;
    } else {
      sign, ds := "", w;
    }
    SplitDigits(ds, z);
    assert w == sign + ds;
  }

  lemma SplitDigits(a: string, b: string)
    requires AllDigits(a + b)
    ensures AllDigits(a) && AllDigits(b)
  {
    forall i | 0 <= i < |a| ensures IsDigit(a[i]) { assert IsDigit((a + b)[i]); }
    forall i | 0 <= i < |b| ensures IsDigit(b[i]) { assert IsDigit((a + b)[|a| + i]); }
  }

  /** The parts of a body that is parsed. */
  lemma FormOfParts(neg: bool, parts: seq<string>) returns (sign: string, w: string)
    requires |parts| >= 1 && parts[0] != "" && Numeric(ParseBody(neg, parts))
    ensures |parts| <= 2 && parts[0] == sign + w && (sign == "" || sign == "+" || sign == "-")
    ensures AllDigits(w)
    ensures |parts| == 2 ==> AllDigits(parts[1]) && 1 <= |parts[1]| <= PRECISION
  {
    hide SetString, Zeros, InRange, AllDigits;
    var f := if |parts| == 2 then parts[1] else "";
    var z := Zeros(PRECISION - |f|);
    assert parts[0] + f + z == parts[0] + (f + z);
    sign, w := SignAndDigits(parts[0], f + z);
    SplitDigits(f, z);
  }

  /** The text was found to be a number, whether in range or not. */
  predicate Numeric(r: Parsed) {
    r.Ok? || r == Err(OutOfRange)
  }

  lemma BodyThere(str: string)
    requires Numeric(Parse(str))
    ensures
      var neg := |str| > 0 && str[0] == '-';
      var body := if neg then str[1..] else str;
      && body != "" && Numeric(ParseBody(neg, SplitAtPoints(body)))
  {
    hide ParseBody, SplitAtPoints;
  }

  lemma FirstPart(body: string)
    requires body != "" && Numeric(ParseBody(false, SplitAtPoints(body)))
    ensures SplitAtPoints(body)[0] != ""
  {
    hide SetString, Zeros, InRange, AllDigits, SplitAtPoints;
    JoinParts(body);
  }

  lemma SameOutcome(parts: seq<string>)
    requires |parts| >= 1
    ensures Numeric(ParseBody(true, parts)) <==> Numeric(ParseBody(false, parts))
  {
    hide SetString, Zeros, InRange, AllDigits;
  }

  /** Whatever is parsed has an accepted form. */
  lemma FormOf(str: string) returns (n: Number)
    requires Numeric(Parse(str))
    ensures Form(n) && Written(n) == str
  {
    hide Parse, ParseBody, SplitAtPoints, AllDigits, Form, Written;
    var neg := |str| > 0 && str[0] == '-';
    var body := if neg then str[1..] else str;
    var parts := SplitAtPoints(body);
    BodyThere(str);
    SameOutcome(parts);
    FirstPart(body);
    JoinParts(body);
    var sign, w := FormOfParts(neg, parts);
    n := Number(neg, sign, w, |parts| == 2, if |parts| == 2 then parts[1] else "");
    NoDigits();
    SignAfterMinus(str, body, n);
    assert Form(n) by { FormFrom(n); }
    WrittenFrom(n, str, body);
  }

  lemma SignAfterMinus(str: string, body: string, n: Number)
    requires n.neg == (|str| > 0 && str[0] == '-') && body == (if n.neg then str[1..] else str)
    requires |n.sign| <= 1 && n.sign + n.whole <= body
    ensures n.sign == "-" ==> n.neg
  {
    assert n.sign <= n.sign + n.whole;
    if n.sign == "-" {
      assert (n.sign + n.whole)[0] == '-';
      assert body[0] == '-';
    }
  }

  lemma FormFrom(n: Number)
    requires AllDigits(n.whole) && AllDigits(n.decimals)
    requires n.sign == "" || n.sign == "+" || n.sign == "-"
    requires n.sign == "-" ==> n.neg
    requires n.sign + n.whole != "" && if n.point then 1 <= |n.decimals| <= PRECISION else n.decimals == ""
    ensures Form(n)
  {
    hide AllDigits;
  }

  lemma WrittenFrom(n: Number, str: string, body: string)
    requires str == (if n.neg then "-" else "") + body
    requires if n.point then body == n.sign + n.whole + "." + n.decimals else body == n.sign + n.whole
    ensures Written(n) == str
  {
    if n.point {
      assert n.sign + n.whole + ("." + n.decimals) == body;
    } else {
      assert n.sign + n.whole + "" == body;
    }
  }

  lemma NoDigits()
    ensures AllDigits("")
  {
  }

  /** Exactly which texts are accepted, and as which numbers. */
  lemma ParseExactly(str: string, v: int)
    ensures Parse(str) == Ok(v) <==> exists n :: Form(n) && Written(n) == str && InRange(Meaning(n)) && v == Meaning(n)
  {
    hide Parse, Form, Written, Meaning, InRange;
    if Parse(str) == Ok(v) {
      var n := FormOf(str);
      ParseWritten(n);
    }
    if n :| Form(n) && Written(n) == str && InRange(Meaning(n)) && v == Meaning(n) {
      ParseWritten(n);
    }
  }

  // ---- which error ----

  function Points(s: string): nat {
    if s == [] then 0 else (if s[0] == '.' then 1 else 0) + Points(s[1..])
  }

  lemma {:induction false} PartsAreOneMore(s: string)
    ensures |SplitAtPoints(s)| == Points(s) + 1
  {
    if s != [] { PartsAreOneMore(s[1..]); }
  }

  /** What follows the first minus. */
  function Unsigned(str: string): string {
    if str != "" && str[0] == '-' then str[1..] else str
  }

  /** The text is a whole part, a point and decimals. */
  ghost predicate Around(body: string, w: string, f: string) {
    '.' !in w && '.' !in f && body == w + "." + f
  }

  lemma {:induction false} NoPointsLeft(s: string)
    ensures Points(s) == 0 <==> '.' !in s
  {
    if s != [] {
      NoPointsLeft(s[1..]);
      assert s == [s[0]] + s[1..];
    }
  }

  lemma {:induction false} PointsConcat(a: string, b: string)
    ensures Points(a + b) == Points(a) + Points(b)
  {
    if a == [] {
      assert a + b == b;
    } else {
      assert (a + b)[1..] == a[1..] + b;
      PointsConcat(a[1..], b);
    }
  }

  lemma TwoParts(body: string) returns (w: string, f: string)
    requires Points(body) == 1
    ensures Around(body, w, f) && SplitAtPoints(body) == [w, f]
  {
    hide SplitAtPoints, Points;
    PartsAreOneMore(body);
    JoinParts(body);
    w, f := SplitAtPoints(body)[0], SplitAtPoints(body)[1];
    PointsConcat(w + ".", f);
    PointsConcat(w, ".");
    OnePointText();
    NoPointsLeft(w);
    NoPointsLeft(f);
    assert SplitAtPoints(body) == [w, f];
  }

  lemma OnePointText()
    ensures Points(".") == 1 && Points("") == 0
  {
    assert "."[1..] == "";
  }

  /** Each error, and exactly the texts that it is given for. */
  lemma ParseErrors(str: string)
    ensures
      var body, r := Unsigned(str), Parse(str);
      && (r == Err(EmptyDecimalStr) <==> body == "")
      && (r == Err(InvalidDecimalStr) <==> Points(body) >= 2)
      && (r == Err(InvalidDecimalLength) <==> exists w, f :: Around(body, w, f) && (w == "" || f == ""))
      && (r == Err(InvalidPrecision) <==> exists w, f :: Around(body, w, f) && w != "" && |f| > PRECISION)
      && (r == Err(OutOfRange) <==> exists n :: Form(n) && Written(n) == str && !InRange(Meaning(n)))
  {
    hide SplitAtPoints, Points, SetString, Zeros, InRange, Form, Written, Meaning;
    var body := Unsigned(str);
    PartsAreOneMore(body);
    OnePointText();
    forall w, f | Around(body, w, f) ensures SplitAtPoints(body) == [w, f] {
      OnePoint(w, f);
    }
    if Points(body) == 1 {
      var w, f := TwoParts(body);
    }
    if n :| Form(n) && Written(n) == str && !InRange(Meaning(n)) {
      ParseWritten(n);
    }
    if Parse(str) == Err(OutOfRange) {
      var n := FormOutOfRange(str);
    }
  }

  lemma FormOutOfRange(str: string) returns (n: Number)
    requires Parse(str) == Err(OutOfRange)
    ensures Form(n) && Written(n) == str && !InRange(Meaning(n))
  {
    hide Parse, Form, Written, Meaning, InRange;
    n := FormOf(str);
    ParseWritten(n);
  }

  /** The documented form: an optional minus, digits, and optionally a point and digits. */
  lemma ParseMeaning(w: string, f: string, neg: bool)
    requires AllDigits(w) && AllDigits(f) && w != [] && |f| <= PRECISION
    ensures
      var v := Denoted(w, f);
      Parse((if neg then "-" else "") + (w + (if f == "" then "" else "." + f)))
        == if InRange(v) then Ok(if neg then -v else v) else Err(OutOfRange)
  {
    hide Parse, Denoted, InRange;
    var n := Number(neg, "", w, f != "", f);
    ParseWritten(n);
    assert "" + w == w;
    AbsOf(Denoted(w, f), Meaning(n));
  }

  /** More than the documented form is accepted: a second sign, and signs without digits. */
  lemma ExtraSigns(w: string)
    requires AllDigits(w)
    ensures
      var v := Denoted(w, "");
      && Parse("--" + w) == (if InRange(v) then Ok(v) else Err(OutOfRange))
      && Parse("+" + w) == Parse("--" + w)
      && Parse("-+" + w) == (if InRange(v) then Ok(-v) else Err(OutOfRange))
  {
    hide Parse, Denoted, InRange;
    var v := Denoted(w, "");
    var minusMinus, plus, minusPlus :=
      Number(true, "-", w, false, ""), Number(false, "+", w, false, ""), Number(true, "+", w, false, "");
    ParseWritten(minusMinus);
    ParseWritten(plus);
    ParseWritten(minusPlus);
    assert Written(minusMinus) == "--" + w;
    assert Written(plus) == "+" + w;
    assert Written(minusPlus) == "-+" + w;
    AbsOf(v, -v);
  }

  lemma SliceDigits(s: string, lo: nat, hi: nat)
    requires AllDigits(s) && lo <= hi <= |s|
    ensures AllDigits(s[lo..hi])
  {
  }

  /** The printed digits, without sign and point: those before and those after the point. */
  function Parts(n: nat): (r: (string, string)) {
    var ds := Decimal(n);
    if |ds| <= PRECISION then ("0", Zeros(PRECISION - |ds|) + ds)
    else (ds[..|ds| - PRECISION], ds[|ds| - PRECISION..])
  }

  lemma TextParts(d: int)
    ensures
      var (w, f) := Parts(if d < 0 then -d else d);
      Text(d) == (if d < 0 then "-" else "") + (w + "." + f)
  {
    hide Decimal, Zeros;
    var ds := Decimal(if d < 0 then -d else d);
    if |ds| <= PRECISION {
      assert "0." + Zeros(PRECISION - |ds|) + ds == "0" + "." + (Zeros(PRECISION - |ds|) + ds);
    }
  }

  lemma PartsDenote(n: nat)
    ensures
      var (w, f) := Parts(n);
      AllDigits(w) && AllDigits(f) && w != [] && |f| == PRECISION && Denoted(w, f) == n
  {
    hide Decimal, DigitsValue, Pow10, Zeros;
    var ds := Decimal(n);
    DecimalValue(n);
    Pow10Zero();
    if |ds| <= PRECISION {
      var z := Zeros(PRECISION - |ds|);
      ValueConcat(z, ds);
      ZerosValue(PRECISION - |ds|);
      DecimalValue(0);
      DecimalZero();
    } else {
      var k := |ds| - PRECISION;
      SliceDigits(ds, 0, k);
      SliceDigits(ds, k, |ds|);
      ValueConcat(ds[..k], ds[k..]);
      assert ds[..k] + ds[k..] == ds;
    }
  }

  lemma Pow10Zero()
    ensures Pow10(0) == 1
  {
  }

  lemma DecimalZero()
    ensures Decimal(0) == "0"
  {
  }

  /** Printing and parsing again gives the number back, for every number of at most 1024 bits. */
  lemma TextBack(d: int)
    requires InRange(d)
    ensures Parse(Text(d)) == Ok(d)
  {
    hide Parse, Text, Denoted, Parts, InRange;
    var n := if d < 0 then -d else d;
    var (w, f) := Parts(n);
    TextParts(d);
    PartsDenote(n);
    assert w + ("." + f) == w + "." + f;
    ParseMeaning(w, f, d < 0);
    AbsOf(d, n);
  }

  // ---- which text is printed ----

  /** Digits without a leading zero. */
  predicate Canonical(w: string) {
    AllDigits(w) && w != "" && (w == "0" || w[0] != '0')
  }

  lemma {:induction false} NoLeadingZero(n: nat)
    ensures n > 0 ==> Decimal(n)[0] != '0'
  {
    if n >= 10 { NoLeadingZero(n / 10); }
  }

  /** Of all digits without a leading zero, a number is written with those that denote it. */
  lemma {:induction false} DecimalUnique(w: string)
    requires Canonical(w)
    ensures w == Decimal(DigitsValue(w))
  {
    var n := |w| - 1;
    assert w == w[..n] + [w[n]];
    assert IsDigit(w[n]);
    if n == 0 {
      assert w[..0] == [];
    } else {
      assert w[..n] != "0" by { assert w[..n][0] == w[0]; }
      DecimalUnique(w[..n]);
      assert Decimal(0) == "0";
    }
  }

  /** The printed digits are the only ones without a leading zero that denote the number. */
  lemma DecimalExactly(n: nat, w: string)
    ensures w == Decimal(n) <==> Canonical(w) && DigitsValue(w) == n
  {
    hide DigitsValue;
    NoLeadingZero(n);
    DecimalValue(n);
    if Canonical(w) { DecimalUnique(w); }
    assert Decimal(0) == "0";
  }

  /** The text of an integer: a minus exactly for negative ones, and digits without a leading zero. */
  lemma IntTextExactly(n: int, s: string)
    ensures s == IntText(n) <==> exists w :: Canonical(w) && DigitsValue(w) == Abs(n) && s == (if n < 0 then "-" else "") + w
  {
    hide DigitsValue, Decimal;
    var sign := if n < 0 then "-" else "";
    DecimalExactly(Abs(n), Decimal(Abs(n)));
    assert IntText(n) == sign + Decimal(Abs(n));
    if w :| Canonical(w) && DigitsValue(w) == Abs(n) && s == sign + w {
      DecimalExactly(Abs(n), w);
    }
  }

  lemma {:induction false} DigitsBelow(s: string)
    requires AllDigits(s)
    ensures DigitsValue(s) < Pow10(|s|)
  {
    if s != [] {
      assert IsDigit(s[|s| - 1]);
      DigitsBelow(s[..|s| - 1]);
    }
  }

  /** Digits of the same length and value are the same. */
  lemma {:induction false} SameDigits(a: string, b: string)
    requires AllDigits(a) && AllDigits(b) && |a| == |b| && DigitsValue(a) == DigitsValue(b)
    ensures a == b
  {
    if a != [] {
      var n := |a| - 1;
      assert IsDigit(a[n]) && IsDigit(b[n]);
      SameDigits(a[..n], b[..n]);
      assert a == a[..n] + [a[n]] && b == b[..n] + [b[n]];
    }
  }

  /** The form of printed decimals: whole digits without a leading zero and all 36 decimals. */
  ghost predicate Printed(w: string, f: string, n: nat) {
    Canonical(w) && AllDigits(f) && |f| == PRECISION && Denoted(w, f) == n
  }

  lemma SameQuotient(a: nat, b: nat, a': nat, b': nat, p: nat)
    requires b < p && b' < p && a * p + b == a' * p + b'
    ensures a == a' && b == b'
  {
    if a < a' {
      Multiples(a, a', p);
    } else if a' < a {
      Multiples(a', a, p);
    }
  }

  lemma PrintedOnce(w: string, f: string, w': string, f': string, n: nat)
    requires Printed(w, f, n) && Printed(w', f', n)
    ensures w == w' && f == f'
  {
    hide DigitsValue, Decimal, Pow10, Canonical, AllDigits;
    CanonicalDigits(w);
    CanonicalDigits(w');
    DigitsBelow(f);
    DigitsBelow(f');
    Pow10Zero();
    SameQuotient(DigitsValue(w), DigitsValue(f), DigitsValue(w'), DigitsValue(f'), Pow10(PRECISION));
    DecimalUnique(w);
    DecimalUnique(w');
    SameDigits(f, f');
  }

  lemma CanonicalDigits(w: string)
    requires Canonical(w)
    ensures AllDigits(w)
  {
  }

  lemma PartsPrinted(n: nat)
    ensures
      var (w, f) := Parts(n);
      Printed(w, f, n)
  {
    hide Decimal, DigitsValue, Pow10, Zeros, Denoted;
    PartsDenote(n);
    NoLeadingZero(n);
    DecimalZero();
  }

  /** The one text that a decimal is printed as: a minus exactly for negative ones, then whole digits, a point and 36 decimals. */
  lemma TextExactly(d: int, s: string)
    ensures s == Text(d) <==> exists w, f :: Printed(w, f, Abs(d)) && s == (if d < 0 then "-" else "") + (w + "." + f)
  {
    hide Printed, Text, Parts;
    var (w, f) := Parts(Abs(d));
    PartsPrinted(Abs(d));
    TextParts(d);
    if w', f' :| Printed(w', f', Abs(d)) && s == (if d < 0 then "-" else "") + (w' + "." + f') {
      PrintedOnce(w, f, w', f', Abs(d));
    }
  }

  lemma ZerosNext(n: nat)
    ensures "0." + Zeros(n) + "0" == "0." + Zeros(n + 1)
  {
  }

  /** `BigDec.String` for digits that all stand after the point. */
  method PadDigits(bzInt: string) returns (s: string)
    requires |bzInt| <= PRECISION
    ensures s == "0." + Zeros(PRECISION - |bzInt|) + bzInt
  {
    hide Zeros, AllDigits;
    var bzStr := new char[PRECISION + 2];
    bzStr[0] := '0';
    bzStr[1] := '.';
    assert bzStr[..2] == "0." + Zeros(0);
    for i := 0 to PRECISION - |bzInt|
      invariant bzStr[..i + 2] == "0." + Zeros(i)
    {
      bzStr[i + 2] := '0';
      assert bzStr[..i + 3] == bzStr[..i + 2] + "0";
      ZerosNext(i);
    }
    var start := 2 + (PRECISION - |bzInt|);
    Copy(bzStr, start, bzInt);
    s := bzStr[..];
  }

  /** `BigDec.String` for digits on both sides of the point. */
  method PointInside(bzInt: string) returns (s: string)
    requires |bzInt| > PRECISION
    ensures s == bzInt[..|bzInt| - PRECISION] + "." + bzInt[|bzInt| - PRECISION..]
  {
    var bzStr := new char[|bzInt| + 1];
    var decPointPlace := |bzInt| - PRECISION;
    Copy(bzStr, 0, bzInt[..decPointPlace]);
    bzStr[decPointPlace] := '.';
    Copy(bzStr, decPointPlace + 1, bzInt[decPointPlace..]);
    s := bzStr[..];
  }

  /** `BigDec.String` */
  method ToString(d: int) returns (s: string)
    ensures s == Text(d)
  {
    hide Decimal, AllDigits, Zeros;
    var isNeg := d < 0;
    var bzInt := Decimal(if isNeg then -d else d);
    if |bzInt| <= PRECISION {
      s := PadDigits(bzInt);
    } else {
      s := PointInside(bzInt);
    }
    if isNeg {
      s := "-" + s;
    }
  }

  /** `copy` into a part of a buffer. */
  method Copy(dst: array<char>, at: nat, src: string)
    requires at + |src| <= dst.Length
    modifies dst
    ensures dst[..] == old(dst[..at]) + src + old(dst[at + |src|..])
  {
    forall i | 0 <= i < |src| {
      dst[at + i] := src[i];
    }
  }
}
