/**
 * Values that cross the service's process boundaries: JSON request fields as
 * Express hands them to a handler, JavaScript's `parseInt` and `parseFloat`
 * on path and query text, the weather provider's replies, and the body of a
 * status write `PUT /api/alerts/:id/status`.
 */
module Wire {

  datatype Option<+T> = None | Some(value: T)

  datatype Result<+T, +E> = Ok(value: T) | Err(error: E)

  /** A JSON value read from a request body; `Undefined` stands for an absent key. */
  datatype JsValue = Undefined | Null | Bool(b: bool) | Num(n: real) | Str(s: string) | ArrayOrObject

  /** JavaScript's `!v`: the falsy values are undefined, null, false, 0 and "". */
  predicate Falsy(v: JsValue)
  {
    match v
    case Undefined => true
    case Null => true
    case Bool(b) => !b
    case Num(n) => n == 0.0
    case Str(s) => s == ""
    case ArrayOrObject => false
  }

  /** `!t` for a text field that may be absent. */
  predicate TextFalsy(t: Option<string>)
  {
    t.None? || t.value == ""
  }

  /** A JavaScript number produced by parsing text. */
  datatype JsNumber = NaN | Finite(r: real) | PosInfinity | NegInfinity

  /** A weather reading taken from the provider: the numeric fields it returned, by name. */
  datatype WeatherReply = Sample(readings: map<string, real>) | WeatherFailed(message: string)

  /**
   * The weather provider as seen during one evaluation pass: the reply to the
   * pass's `n`-th request, made for the given coordinates. Each request has
   * its own reply, so of two requests for one location the first may succeed
   * and the second fail.
   */
  type Weather = (nat, real, real) -> WeatherReply

  /**
   * A status write as it reaches the backend: the `:id` path segment and the
   * `is_triggered` and `current_value` fields of the JSON body.
   */
  datatype StatusRequest = StatusRequest(path: string, isTriggered: JsValue, currentValue: JsValue)

  // ---------------------------------------------------------------------------
  // Characters and digits

  /** StrWhiteSpaceChar of ECMAScript: white space (including the Zs category) and line terminators. */
  predicate IsJsSpace(c: char)
  {
    var k := c as int;
    k == 0x09 || k == 0x0A || k == 0x0B || k == 0x0C || k == 0x0D || k == 0x20 || k == 0xA0 ||
    k == 0x1680 || (0x2000 <= k <= 0x200A) || k == 0x2028 || k == 0x2029 || k == 0x202F ||
    k == 0x205F || k == 0x3000 || k == 0xFEFF
  }

  /** The value of `c` as a hexadecimal digit, if it is one. */
  function HexValue(c: char): (d: Option<nat>)
    ensures d.Some? ==> d.value < 16
    ensures ('0' <= c <= '9') <==> (d.Some? && d.value < 10)
  {
    if '0' <= c <= '9' then Some(c as int - '0' as int)
    else if 'a' <= c <= 'f' then Some(c as int - 'a' as int + 10)
    else if 'A' <= c <= 'F' then Some(c as int - 'A' as int + 10)
    else None
  }

  predicate IsDigitIn(c: char, radix: nat)
  {
    HexValue(c).Some? && HexValue(c).value < radix
  }

  predicate AllDigitsIn(s: string, radix: nat)
  {
    forall i :: 0 <= i < |s| ==> IsDigitIn(s[i], radix)
  }

  /** The length of the longest prefix of `s` made of digits of the radix. */
  function DigitPrefixLength(s: string, radix: nat): (n: nat)
    ensures n <= |s|
    ensures AllDigitsIn(s[..n], radix)
    ensures n < |s| ==> !IsDigitIn(s[n], radix)
  {
    if s == [] || !IsDigitIn(s[0], radix) then 0
    else
      var k := DigitPrefixLength(s[1..], radix);
      assert s[..k + 1] == [s[0]] + s[1..][..k];
      k + 1
  }

  /** The number that a string of digits denotes in the radix (most significant digit first). */
  function DigitsValue(s: string, radix: nat): nat
    requires AllDigitsIn(s, radix)
  {
    if s == [] then 0
    else
      assert AllDigitsIn(s[..|s| - 1], radix);
      DigitsValue(s[..|s| - 1], radix) * radix + HexValue(s[|s| - 1]).value
  }

  /** `s` with its leading white space removed, as parseInt and parseFloat do first. */
  function TrimStart(s: string): (t: string)
    ensures |t| <= |s| && t == s[|s| - |t|..]
    ensures t != [] ==> !IsJsSpace(t[0])
    ensures forall i :: 0 <= i < |s| - |t| ==> IsJsSpace(s[i])
  {
    if s != [] && IsJsSpace(s[0]) then TrimStart(s[1..]) else s
  }

  // ---------------------------------------------------------------------------
  // Decimal text of integers (JavaScript's String(n) for an integer-valued n)

  function DigitChar(d: nat): (c: char)
    requires d < 10
    ensures IsDigitIn(c, 10) && HexValue(c) == Some(d)
  {
    (('0' as int) + d) as char
  }

  function NatText(n: nat): (s: string)
    ensures s != [] && AllDigitsIn(s, 10)
    decreases n
  {
    if n < 10 then [DigitChar(n)] else NatText(n / 10) + [DigitChar(n % 10)]
  }

  function IntText(i: int): (s: string)
    ensures s != []
  {
    if i < 0 then "-" + NatText(-i) else NatText(i)
  }

  lemma {:induction false} NatTextValue(n: nat)
    ensures DigitsValue(NatText(n), 10) == n
    decreases n
  {
    var s := NatText(n);
    if n >= 10 {
      NatTextValue(n / 10);
      assert s[..|s| - 1] == NatText(n / 10);
    } else {
      assert s[..|s| - 1] == [];
    }
  }

  // ---------------------------------------------------------------------------
  // parseInt(s) with no radix argument

  /**
   * JavaScript's `parseInt(s)`: skip leading white space, read an optional
   * sign, a `0x`/`0X` prefix switches to radix 16, then the longest run of
   * digits; `None` is NaN (no digit at all).
   */
  function ParseInt(s: string): (r: Option<int>)
    ensures r.Some? <==> DigitPrefixLength(IntDigits(s), IntRadix(s)) > 0
    ensures r.Some? && !IntIsNegative(s) ==> r.value >= 0
    ensures r.Some? && IntIsNegative(s) ==> r.value <= 0
  {
    var digits := IntDigits(s);
    var radix := IntRadix(s);
    var n := DigitPrefixLength(digits, radix);
    if n == 0 then None
    else
      var magnitude: int := DigitsValue(digits[..n], radix);
      Some(if IntIsNegative(s) then -magnitude else magnitude)
  }

  /** The trimmed text of `s` with its sign removed. */
  function Unsigned(s: string): string
  {
    var t := TrimStart(s);
    if t != [] && (t[0] == '-' || t[0] == '+') then t[1..] else t
  }

  predicate IntIsNegative(s: string)
  {
    var t := TrimStart(s);
    t != [] && t[0] == '-'
  }

  predicate HasHexPrefix(u: string)
  {
    |u| >= 2 && u[0] == '0' && (u[1] == 'x' || u[1] == 'X')
  }

  function IntRadix(s: string): nat
  {
    if HasHexPrefix(Unsigned(s)) then 16 else 10
  }

  function IntDigits(s: string): string
  {
    var u := Unsigned(s);
    if HasHexPrefix(u) then u[2..] else u
  }

  /** A string made only of digits is read to its end. */
  lemma {:induction false} AllDigitsRead(u: string, radix: nat)
    requires AllDigitsIn(u, radix)
    ensures DigitPrefixLength(u, radix) == |u|
  {
    if u != [] {
      AllDigitsRead(u[1..], radix);
    }
  }

  /** The sign and digits of an integer's decimal text, as parseInt and parseFloat see them. */
  lemma IntTextParts(i: int)
    ensures Unsigned(IntText(i)) == NatText(if i < 0 then -i else i)
    ensures IntIsNegative(IntText(i)) <==> i < 0
    ensures !HasHexPrefix(Unsigned(IntText(i)))
  {
    var s := IntText(i);
    var u := NatText(if i < 0 then -i else i);
    assert IsDigitIn(s[0], 10) || s[0] == '-';
    assert !IsJsSpace(s[0]);
    assert TrimStart(s) == s;
    if |u| >= 2 {
      assert IsDigitIn(u[1], 10);
    }
  }

  /** The decimal text of an integer reads back as that integer. */
  lemma IntTextParses(i: int)
    ensures ParseInt(IntText(i)) == Some(i)
  {
    var m: nat := if i < 0 then -i else i;
    var u := NatText(m);
    IntTextParts(i);
    NatTextValue(m);
    AllDigitsRead(u, 10);
    assert IntDigits(IntText(i)) == u;
    assert IntRadix(IntText(i)) == 10;
    assert u[..|u|] == u;
  }

  /** A run of digits followed by something that is not a digit is read up to its end. */
  lemma {:induction false} DigitRunRead(u: string, rest: string, radix: nat)
    requires AllDigitsIn(u, radix)
    requires rest == [] || !IsDigitIn(rest[0], radix)
    ensures DigitPrefixLength(u + rest, radix) == |u|
  {
    if u == [] {
      assert u + rest == rest;
    } else {
      assert (u + rest)[1..] == u[1..] + rest;
      DigitRunRead(u[1..], rest, radix);
    }
  }

  /** Text that starts with a digit has no leading space and no sign to strip. */
  lemma DigitLedText(s: string)
    requires s != [] && IsDigitIn(s[0], 10)
    ensures TrimStart(s) == s && Unsigned(s) == s && !IntIsNegative(s)
  {
    assert !IsJsSpace(s[0]);
  }

  /** How parseInt sees a natural number's text followed by `rest`: unsigned, decimal, no prefix. */
  lemma NatTextThenTextShape(n: nat, rest: string)
    requires rest == [] || (!IsDigitIn(rest[0], 10) && rest[0] != 'x' && rest[0] != 'X')
    ensures var s := NatText(n) + rest;
      IntDigits(s) == s && IntRadix(s) == 10 && !IntIsNegative(s)
  {
    var u := NatText(n);
    var s := u + rest;
    assert s[0] == u[0];
    DigitLedText(s);
    assert !HasHexPrefix(s) by {
      if |u| >= 2 {
        assert s[1] == u[1] && IsDigitIn(u[1], 10);
      } else if rest != [] {
        assert s[1] == rest[0];
      }
    }
  }

  /**
   * A natural number's decimal text followed by text that neither continues
   * the digits nor forms a `0x` prefix reads back as that number.
   */
  lemma NatTextThenText(n: nat, rest: string)
    requires rest == [] || (!IsDigitIn(rest[0], 10) && rest[0] != 'x' && rest[0] != 'X')
    ensures ParseInt(NatText(n) + rest) == Some(n)
  {
    var u := NatText(n);
    var s := u + rest;
    NatTextThenTextShape(n, rest);
    DigitRunRead(u, rest, 10);
    assert s[..|u|] == u;
    NatTextValue(n);
  }

  // ---------------------------------------------------------------------------
  // parseFloat(s)

  function Pow10(k: nat): (p: nat)
    ensures p >= 1
  {
    if k == 0 then 1 else 10 * Pow10(k - 1)
  }

  /** The value of an exponent part `e12`, `E-3`, `e+4` at the start of `rest`; 0 when there is none. */
  function ExponentOf(rest: string): int
  {
    if rest != [] && (rest[0] == 'e' || rest[0] == 'E') then
      var body := rest[1..];
      var negative := body != [] && body[0] == '-';
      var digits := if body != [] && (body[0] == '-' || body[0] == '+') then body[1..] else body;
      var k := DigitPrefixLength(digits, 10);
      if k == 0 then 0
      else if negative then 0 - DigitsValue(digits[..k], 10)
      else DigitsValue(digits[..k], 10)
    else 0
  }

  function Scale(m: real, e: int): real
  {
    if e >= 0 then m * (Pow10(e) as real) else m / (Pow10(-e) as real)
  }

  /**
   * The value of the longest prefix of `u` of the form digits [. digits]
   * [exponent] or . digits [exponent]; `None` when no digit precedes the
   * exponent.
   */
  function DecimalPrefix(u: string): Option<real>
  {
    var n := DigitPrefixLength(u, 10);
    var afterInt := u[n..];
    var hasDot := afterInt != [] && afterInt[0] == '.';
    var fracText := if hasDot then afterInt[1..] else [];
    var m := DigitPrefixLength(fracText, 10);
    if n == 0 && m == 0 then None
    else
      var whole := DigitsValue(u[..n], 10) as real;
      var frac := DigitsValue(fracText[..m], 10) as real / (Pow10(m) as real);
      var rest := if hasDot then fracText[m..] else afterInt;
      Some(Scale(whole + frac, ExponentOf(rest)))
  }

  predicate StartsWithInfinity(u: string)
  {
    |u| >= 8 && u[..8] == "Infinity"
  }

  /**
   * JavaScript's `parseFloat(s)` on exact reals: skip leading white space,
   * read an optional sign, then either `Infinity` or a decimal prefix.
   */
  function ParseFloat(s: string): (r: JsNumber)
    ensures r.PosInfinity? || r.NegInfinity? ==> StartsWithInfinity(Unsigned(s))
    ensures r.NaN? <==> !StartsWithInfinity(Unsigned(s)) && DecimalPrefix(Unsigned(s)).None?
  {
    var u := Unsigned(s);
    if StartsWithInfinity(u) then (if IntIsNegative(s) then NegInfinity else PosInfinity)
    else
      match DecimalPrefix(u)
      case None => NaN
      case Some(magnitude) => Finite(if IntIsNegative(s) then -magnitude else magnitude)
  }

  /** A string of decimal digits is a decimal prefix denoting its own value. */
  lemma DigitsAreDecimalPrefix(u: string)
    requires u != [] && AllDigitsIn(u, 10)
    ensures DecimalPrefix(u) == Some(DigitsValue(u, 10) as real)
  {
    AllDigitsRead(u, 10);
    assert u[..|u|] == u;
    assert u[|u|..] == [];
    assert ExponentOf([]) == 0;
    assert DigitsValue([], 10) == 0;
  }

  /** The decimal text of an integer reads back as that number. */
  lemma IntTextParsesAsFloat(i: int)
    ensures ParseFloat(IntText(i)) == Finite(i as real)
  {
    var m: nat := if i < 0 then -i else i;
    var u := NatText(m);
    IntTextParts(i);
    NatTextValue(m);
    DigitsAreDecimalPrefix(u);
    assert !StartsWithInfinity(u) by {
      if |u| >= 8 { assert IsDigitIn(u[0], 10); assert u[..8][0] == u[0]; }
    }
  }
}
