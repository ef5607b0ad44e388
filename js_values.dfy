/** JavaScript values as the node layer sees them (parameters, inputs,
    emitted payloads, the switch node's context), with the two conversions
    the switch node relies on: `String(v)` and `Number(v)`. Numbers are
    integers here; `NaN` is the `None` of `ToNumber`. */
module JsValues {
  import opened Wrappers
  import opened JsText

  datatype Value =
    | Undefined
    | Null
    | Bool(b: bool)
    | Num(n: int)
    | Str(s: string)
    | Arr(items: seq<Value>)
    | Obj(fields: map<string, Value>)

  /** `record[key]` on a plain object: a missing own key reads as
      `undefined`. */
  function Get(fields: map<string, Value>, key: string): (r: Value)
    ensures key !in fields ==> r == Undefined
    ensures key in fields ==> r == fields[key]
  {
    if key in fields then fields[key] else Undefined
  }

  /** `value ?? fallback`. */
  function Coalesce(v: Value, fallback: Value): (r: Value)
    ensures v != Undefined && v != Null ==> r == v
    ensures (v == Undefined || v == Null) ==> r == fallback
  {
    if v == Undefined || v == Null then fallback else v
  }

  /** `Array.prototype.join` renders `null` and `undefined` elements as
      the empty string. */
  function ElementString(v: Value): string {
    if v == Undefined || v == Null then "" else ToJsString(v)
  }

  function JoinElements(ghost parent: Value, items: seq<Value>): string
    requires forall i :: 0 <= i < |items| ==> items[i] < parent
    decreases parent, 0, |items|
  {
    if items == [] then ""
    else
      var head := if items[0] == Undefined || items[0] == Null then "" else ToJsString(items[0]);
      if |items| == 1 then head else head + "," + JoinElements(parent, items[1..])
  }

  /** `String(v)` for the values modelled here. */
  function ToJsString(v: Value): (s: string)
    ensures v.Str? ==> s == v.s
    decreases v, 1
  {
    match v
    case Undefined => "undefined"
    case Null => "null"
    case Bool(b) => if b then "true" else "false"
    case Num(n) => IntToDecimal(n)
    case Str(s) => s
    case Arr(items) => JoinElements(v, items)
    case Obj(_) => "[object Object]"
  }

  function DigitValue(c: char): nat
    requires IsDigit(c)
  {
    c as int - '0' as int
  }

  /** The value of a run of decimal digits. */
  function DigitsValue(s: string): nat
    requires forall i :: 0 <= i < |s| ==> IsDigit(s[i])
    decreases |s|
  {
    if s == [] then 0 else DigitsValue(s[..|s| - 1]) * 10 + DigitValue(s[|s| - 1])
  }

  predicate AllDigits(s: string) {
    forall i :: 0 <= i < |s| ==> IsDigit(s[i])
  }

  /** `10^k`. */
  function Pow10(k: nat): (r: nat)
    ensures r >= 1
    ensures k > 0 ==> r % 10 == 0
  {
    if k == 0 then 1 else 10 * Pow10(k - 1)
  }

  /** The value of `c` as a digit of base `radix` (2, 8, 10 or 16), if it
      is one; hexadecimal letters count in either case. */
  function RadixDigit(c: char, radix: nat): (r: Option<nat>)
    ensures r.Some? ==> r.value < radix
    ensures radix == 10 ==> (r.Some? <==> IsDigit(c))
    ensures r.Some? && IsDigit(c) ==> r.value == DigitValue(c)
  {
    var v := if IsDigit(c) then DigitValue(c)
      else if 'a' <= c <= 'f' then c as int - 'a' as int + 10
      else if 'A' <= c <= 'F' then c as int - 'A' as int + 10
      else radix;
    if v < radix then Some(v) else None
  }

  predicate AllRadixDigits(s: string, radix: nat) {
    forall i :: 0 <= i < |s| ==> RadixDigit(s[i], radix).Some?
  }

  /** The value of a run of base-`radix` digits. */
  function RadixValue(s: string, radix: nat): nat
    requires AllRadixDigits(s, radix)
    decreases |s|
  {
    if s == [] then 0
    else RadixValue(s[..|s| - 1], radix) * radix + RadixDigit(s[|s| - 1], radix).value
  }

  /** The base a `NonDecimalIntegerLiteral` prefix letter selects ("0x",
      "0o", "0b", either case), or 0 for any other character. */
  function RadixOfPrefix(c: char): (radix: nat)
    ensures radix in {0, 2, 8, 16}
    ensures radix != 0 ==> !IsDigit(c) && c != '.' && c != 'e' && c != 'E'
  {
    if c == 'x' || c == 'X' then 16
    else if c == 'o' || c == 'O' then 8
    else if c == 'b' || c == 'B' then 2
    else 0
  }

  /** The index of the first character of `s` in `stops`, or `|s|`. */
  function IndexOf(s: string, stops: set<char>): (i: nat)
    ensures i <= |s|
    ensures forall j :: 0 <= j < i ==> s[j] !in stops
    ensures i < |s| ==> s[i] in stops
    decreases |s|
  {
    if s == [] then 0
    else if s[0] in stops then 0
    else 1 + IndexOf(s[1..], stops)
  }

  /** The exponent of an `ExponentPart` after its "e": decimal digits with
      an optional sign; `None` when malformed. */
  function ExponentValue(s: string): (r: Option<int>)
    ensures r.Some? ==> s != []
  {
    if s != [] && (s[0] == '-' || s[0] == '+') && |s| > 1 && AllDigits(s[1..]) then
      var magnitude: int := DigitsValue(s[1..]);
      Some(if s[0] == '-' then -magnitude else magnitude)
    else if s != [] && AllDigits(s) then Some(DigitsValue(s))
    else None
  }

  /** `m × 10^scale` when that is an integer, `None` when it is not. */
  function ScaledValue(m: nat, scale: int): (r: Option<nat>)
    ensures scale >= 0 ==> r == Some(m * Pow10(scale))
    ensures scale < 0 ==> (r.Some? <==> m % Pow10(-scale) == 0)
    ensures scale < 0 && r.Some? ==> r.value * Pow10(-scale) == m
  {
    if scale >= 0 then Some(m * Pow10(scale))
    else if m % Pow10(-scale) == 0 then Some(m / Pow10(-scale))
    else None
  }

  /** A decimal mantissa ("12", "1.50", ".5", "3."): digits with at most
      one "." and at least one digit. Its value with the point removed and
      the number of digits after the point, or `None` when malformed. */
  function MantissaDigits(mantissa: string): (r: Option<(nat, nat)>)
    ensures r.Some? ==> mantissa != [] && (IsDigit(mantissa[0]) || mantissa[0] == '.')
    ensures r.Some? ==> r.value.1 < |mantissa|
  {
    var d := IndexOf(mantissa, {'.'});
    var whole := mantissa[..d];
    var fraction := if d < |mantissa| then mantissa[d + 1..] else [];
    if !AllDigits(whole) || !AllDigits(fraction) || whole + fraction == [] then None
    else
      assert whole != [] ==> mantissa[0] == whole[0];
      Some((DigitsValue(whole + fraction), |fraction|))
  }

  /** A `StrUnsignedDecimalLiteral` other than "Infinity": a mantissa, then
      an optional exponent. Its value, or `None` when the string is not
      such a literal or its value is not an integer. */
  function UnsignedDecimalValue(t: string): (r: Option<nat>)
    ensures r.Some? ==> t != [] && (IsDigit(t[0]) || t[0] == '.')
  {
    var e := IndexOf(t, {'e', 'E'});
    var exponent := if e == |t| then Some(0) else ExponentValue(t[e + 1..]);
    match MantissaDigits(t[..e])
    case None => None
    case Some(digits) =>
      if exponent.None? then None else ScaledValue(digits.0, exponent.value - digits.1)
  }

  /** `Number(s)` on a trimmed string (the `StringToNumber` grammar): the
      empty string is 0; "0x", "0o" or "0b" and digits of that base are a
      non-negative integer; otherwise an optional sign and an unsigned
      decimal literal. `None` is `NaN`, and also a value that is not an
      integer ("1.5", "Infinity"). */
  function NumericLiteralValue(t: string): (r: Option<int>)
    ensures t == [] ==> r == Some(0)
    ensures r.Some? && t != [] ==> t[0] == '-' || t[0] == '+' || t[0] == '.' || IsDigit(t[0])
    ensures r.Some? && t != [] && t[0] == '-' ==> r.value <= 0
  {
    if t == [] then Some(0)
    else if |t| > 2 && t[0] == '0' && RadixOfPrefix(t[1]) != 0 then
      var radix := RadixOfPrefix(t[1]);
      if AllRadixDigits(t[2..], radix) then Some(RadixValue(t[2..], radix)) else None
    else if t[0] == '-' || t[0] == '+' then
      match UnsignedDecimalValue(t[1..])
      case None => None
      case Some(v) => var magnitude: int := v; Some(if t[0] == '-' then -magnitude else magnitude)
    else
      match UnsignedDecimalValue(t)
      case None => None
      case Some(v) => Some(v)
  }

  /** `Number(s)` for a string: surrounding whitespace is ignored. */
  function StringToNumber(s: string): (r: Option<int>)
    ensures Trim(s) == [] ==> r == Some(0)
  {
    NumericLiteralValue(Trim(s))
  }

  /** `Number(v)`; `None` stands for `NaN`. */
  function ToNumber(v: Value): (r: Option<int>)
    ensures v.Num? ==> r == Some(v.n)
    ensures v.Bool? ==> r == Some(if v.b then 1 else 0)
    ensures v == Undefined || v.Obj? ==> r.None?
    ensures v.Str? ==> r == StringToNumber(v.s)
  {
    match v
    case Undefined => None
    case Null => Some(0)
    case Bool(b) => Some(if b then 1 else 0)
    case Num(n) => Some(n)
    case Str(s) => StringToNumber(s)
    case Arr(items) =>
      if items == [] then Some(0)
      else if |items| == 1 then StringToNumber(ElementString(items[0]))
      else None
    case Obj(_) => None
  }

  lemma {:induction false} DigitsValueOfDecimal(n: nat)
    ensures AllDigits(NatToDecimal(n)) && DigitsValue(NatToDecimal(n)) == n
    decreases n
  {
    var s := NatToDecimal(n);
    if n >= 10 {
      DigitsValueOfDecimal(n / 10);
      assert s[..|s| - 1] == NatToDecimal(n / 10);
      assert s[|s| - 1] == DigitChar(n % 10);
    }
    DigitCharValue(n % 10);
  }

  lemma DigitCharValue(d: nat)
    requires d < 10
    ensures DigitValue(DigitChar(d)) == d
  {
  }

  /** `Number(String(n)) == n`: reading back a rendered integer gives the
      integer. */
  lemma NumberOfString(n: int)
    ensures ToNumber(Str(ToJsString(Num(n)))) == Some(n)
  {
    if n < 0 {
      NegativeDecimalValue(n);
    } else {
      NaturalDecimalValue(n);
    }
    RenderNum(n);
    NumberOfStr(IntToDecimal(n));
  }

  lemma RenderNum(n: int)
    ensures ToJsString(Num(n)) == IntToDecimal(n)
  {
  }

  lemma NumberOfStr(s: string)
    ensures ToNumber(Str(s)) == NumericLiteralValue(Trim(s))
  {
  }

  lemma NoStopIndex(s: string, stops: set<char>)
    requires forall i :: 0 <= i < |s| ==> s[i] !in stops
    ensures IndexOf(s, stops) == |s|
  {
  }

  lemma StopIndex(s: string, stops: set<char>, k: nat)
    requires k < |s| && s[k] in stops
    requires forall j :: 0 <= j < k ==> s[j] !in stops
    ensures IndexOf(s, stops) == k
  {
  }

  /** Plain digits, without "." or exponent, are their decimal value. */
  lemma PlainDigitsValue(d: string)
    requires d != [] && AllDigits(d)
    ensures UnsignedDecimalValue(d) == Some(DigitsValue(d))
  {
    NoStopIndex(d, {'e', 'E'});
    assert d[..|d|] == d;
    PlainMantissa(d);
  }

  lemma PlainMantissa(d: string)
    requires d != [] && AllDigits(d)
    ensures MantissaDigits(d) == Some((DigitsValue(d), 0))
  {
    NoStopIndex(d, {'.'});
    assert d[..|d|] + [] == d;
  }

  lemma NaturalDecimalValue(n: nat)
    ensures NumericLiteralValue(Trim(NatToDecimal(n))) == Some(n)
  {
    var s := NatToDecimal(n);
    DigitsValueOfDecimal(n);
    TrimDecimal(s);
    assert IsDigit(s[0]);
    assert |s| > 2 ==> IsDigit(s[1]);
    PlainDigitsValue(s);
  }

  lemma NegativeDecimalValue(n: int)
    requires n < 0
    ensures NumericLiteralValue(Trim(IntToDecimal(n))) == Some(n)
  {
    var m: nat := -n;
    var digits := NatToDecimal(m);
    var s := IntToDecimal(n);
    assert s == "-" + digits;
    DigitsValueOfDecimal(m);
    TrimDecimal(s);
    assert s[1..] == digits;
    PlainDigitsValue(digits);
  }

  /** Appending a zero digit multiplies the value by ten. */
  lemma DigitsAppendZero(d: string)
    requires AllDigits(d)
    ensures AllDigits(d + "0") && DigitsValue(d + "0") == DigitsValue(d) * 10
  {
    assert (d + "0")[..|d|] == d;
  }

  /** Appending `k` zero digits multiplies the value by `10^k`. */
  lemma {:induction false} DigitsAppendZeros(d: string, zeros: string)
    requires AllDigits(d)
    requires forall i :: 0 <= i < |zeros| ==> zeros[i] == '0'
    ensures AllDigits(d + zeros) && DigitsValue(d + zeros) == DigitsValue(d) * Pow10(|zeros|)
    decreases |zeros|
  {
    if zeros != [] {
      var init := zeros[..|zeros| - 1];
      DigitsAppendZeros(d, init);
      assert d + zeros == (d + init) + "0";
      DigitsAppendZero(d + init);
      assert DigitsValue(d) * Pow10(|zeros|) == DigitsValue(d) * Pow10(|init|) * 10;
    } else {
      assert d + zeros == d;
    }
  }

  lemma MulDivCancel(a: nat, p: nat)
    requires p >= 1
    ensures (a * p) % p == 0 && (a * p) / p == a
  {
    var m := a * p;
    var q, r := m / p, m % p;
    assert m == p * q + r && 0 <= r < p;
    assert p * (a - q) == r;
    MulBounds(p, a - q);
  }

  lemma MulBounds(p: nat, x: int)
    requires p >= 1
    ensures x >= 1 ==> p * x >= p
    ensures x <= -1 ==> p * x <= -(p as int)
  {
  }

  /** The unsigned part of `digits + "e" + exponent`. */
  lemma UnsignedExponent(d: string, exponent: string)
    requires d != [] && AllDigits(d)
    requires exponent != [] && AllDigits(exponent)
    ensures UnsignedDecimalValue(d + "e" + exponent) == Some(DigitsValue(d) * Pow10(DigitsValue(exponent)))
  {
    var t := d + "e" + exponent;
    StopIndex(t, {'e', 'E'}, |d|);
    assert t[|d| + 1..] == exponent;
    assert IsDigit(exponent[0]);
    assert ExponentValue(exponent) == Some(DigitsValue(exponent));
    assert t[..|d|] == d;
    PlainMantissa(d);
    ScaledExact(DigitsValue(d), DigitsValue(exponent));
  }

  lemma ScaledExact(m: nat, k: nat)
    ensures ScaledValue(m, k) == Some(m * Pow10(k))
  {
  }

  /** `Number(digits + "e" + exponent)` is `digits × 10^exponent`: "1e3"
      is 1000. */
  lemma ExponentNotation(d: string, exponent: string)
    requires d != [] && AllDigits(d)
    requires exponent != [] && AllDigits(exponent)
    ensures NumericLiteralValue(d + "e" + exponent) == Some(DigitsValue(d) * Pow10(DigitsValue(exponent)))
  {
    var t := d + "e" + exponent;
    assert t[0] == d[0];
    assert RadixOfPrefix(t[1]) == 0 by {
      if |d| > 1 { assert t[1] == d[1]; } else { assert t[1] == 'e'; }
    }
    UnsignedExponent(d, exponent);
  }

  /** A fraction of zeros changes nothing: "12.00" is 12 and "1." is 1. */
  lemma ZeroFraction(d: string, zeros: string)
    requires d != [] && AllDigits(d)
    requires forall i :: 0 <= i < |zeros| ==> zeros[i] == '0'
    ensures NumericLiteralValue(d + "." + zeros) == Some(DigitsValue(d))
  {
    var t := d + "." + zeros;
    assert t[0] == d[0];
    assert |t| > 2 ==> RadixOfPrefix(t[1]) == 0 by {
      if |d| > 1 { assert t[1] == d[1]; } else { assert t[1] == '.'; }
    }
    forall i | 0 <= i < |t|
      ensures t[i] !in {'e', 'E'}
    {
      if i < |d| { assert t[i] == d[i]; } else if i > |d| { assert t[i] == zeros[i - |d| - 1]; }
    }
    NoStopIndex(t, {'e', 'E'});
    assert t[..|t|] == t;
    StopIndex(t, {'.'}, |d|);
    assert t[..|d|] == d;
    assert t[|d| + 1..] == zeros;
    assert AllDigits(zeros) by {
      forall i | 0 <= i < |zeros| ensures IsDigit(zeros[i]) { }
    }
    DigitsAppendZeros(d, zeros);
    MulDivCancel(DigitsValue(d), Pow10(|zeros|));
  }

  /** "0x", "0o" and "0b" literals read in their base: "0x10" is 16. */
  lemma RadixLiteral(t: string)
    requires |t| > 2 && t[0] == '0' && RadixOfPrefix(t[1]) != 0
    requires AllRadixDigits(t[2..], RadixOfPrefix(t[1]))
    ensures NumericLiteralValue(t) == Some(RadixValue(t[2..], RadixOfPrefix(t[1])))
  {
  }

  /** A sign before a radix prefix makes the string `NaN`: "-0x10". */
  lemma SignedRadixRejected(t: string)
    requires |t| > 2 && (t[0] == '-' || t[0] == '+') && t[1] == '0' && RadixOfPrefix(t[2]) != 0
    ensures NumericLiteralValue(t) == None
  {
    var u := t[1..];
    var e := IndexOf(u, {'e', 'E'});
    assert e >= 2 by {
      assert u[0] !in {'e', 'E'} && u[1] !in {'e', 'E'};
    }
    var mantissa := u[..e];
    assert mantissa[1] == t[2];
    var dot := IndexOf(mantissa, {'.'});
    assert dot >= 2 by {
      assert mantissa[0] !in {'.'} && mantissa[1] !in {'.'};
    }
    assert !IsDigit(mantissa[..dot][1]);
  }

  /** "1e3" reads as 1000. */
  lemma ExponentExample()
    ensures StringToNumber("1e3") == Some(1000)
  {
    TrimOfTrimmed("1e3");
    ExponentNotation("1", "3");
    assert "1" + "e" + "3" == "1e3";
    assert DigitsValue("1") == 1 && DigitsValue("3") == 3;
    assert Pow10(3) == 1000;
  }

  /** "1000" reads as 1000: the plain notation of the same number. */
  lemma ThousandExample()
    ensures StringToNumber("1000") == Some(1000)
  {
    TrimOfTrimmed("1000");
    PlainDigitsValue("1000");
    assert DigitsValue("1000") == 1000 by {
      assert "1000"[..3] == "100" && "100"[..2] == "10" && "10"[..1] == "1";
    }
  }

  /** " 12.00 " reads as 12: whitespace and a zero fraction are ignored. */
  lemma ZeroFractionExample()
    ensures StringToNumber(" 12.00 ") == Some(12)
  {
    assert Trim(" 12.00 ") == "12.00" by {
      assert TrimStart(" 12.00 ") == "12.00 " by {
        assert " 12.00 "[1..] == "12.00 ";
      }
      assert TrimEnd("12.00 ") == "12.00" by {
        assert "12.00 "[..5] == "12.00";
      }
    }
    ZeroFraction("12", "00");
    assert "12" + "." + "00" == "12.00";
    assert DigitsValue("12") == 12 by {
      assert "12"[..1] == "1";
    }
  }

  /** "0x10" reads as 16 and "0b11" as 3. */
  lemma RadixExamples()
    ensures StringToNumber("0x10") == Some(16)
    ensures StringToNumber("0b11") == Some(3)
  {
    assert StringToNumber("0x10") == Some(16) by {
      assert "0x10"[2..] == "10";
      TrimOfTrimmed("0x10");
      RadixLiteral("0x10");
      assert RadixValue("10", 16) == 16 by {
        assert "10"[..1] == "1";
      }
    }
    assert StringToNumber("0b11") == Some(3) by {
      assert "0b11"[2..] == "11";
      TrimOfTrimmed("0b11");
      RadixLiteral("0b11");
      assert RadixValue("11", 2) == 3 by {
        assert "11"[..1] == "1";
      }
    }
  }

  /** "-0x10" is `NaN`. */
  lemma SignedRadixExample()
    ensures StringToNumber("-0x10") == None
  {
    TrimOfTrimmed("-0x10");
    SignedRadixRejected("-0x10");
  }

  /** A rendered integer has no surrounding whitespace to trim. */
  lemma TrimDecimal(s: string)
    requires s != [] && (s[0] == '-' || IsDigit(s[0])) && IsDigit(s[|s| - 1])
    ensures Trim(s) == s
  {
    assert !IsWhitespace(s[0]) && !IsWhitespace(s[|s| - 1]);
    TrimOfTrimmed(s);
  }
}
