/**
 * `Number(text)` and `String(n)` of the host language, as far as the wire format uses them.
 * A numeric value is kept as the exact decimal its literal denotes: the rounding to the nearest
 * double and the overflow of a huge literal to `Infinity` are not modelled. `None` stands for a
 * result that `Number.isFinite` rejects (`NaN` and the `Infinity` literals).
 */
module JsNumber {
  import opened Options

  /** The number `digits * 10^exponent`. */
  datatype Decimal = Decimal(digits: int, exponent: int)

  predicate IsDigit(c: char) { '0' <= c <= '9' }

  /** The white space and line terminators a string is trimmed of before it is read as a number. */
  predicate IsSpace(c: char)
  {
    '\t' <= c <= '\r' || c == ' ' || c == '\U{00A0}' || c == '\U{1680}' || '\U{2000}' <= c <= '\U{200A}'
    || c == '\U{2028}' || c == '\U{2029}' || c == '\U{202F}' || c == '\U{205F}' || c == '\U{3000}' || c == '\U{FEFF}'
  }

  function TrimStart(s: string): string
  {
    if s != "" && IsSpace(s[0]) then TrimStart(s[1..]) else s
  }

  function TrimEnd(s: string): string
  {
    if s != "" && IsSpace(s[|s| - 1]) then TrimEnd(s[..|s| - 1]) else s
  }

  function Trim(s: string): string { TrimEnd(TrimStart(s)) }

  /** The value of a digit in bases up to sixteen, or `None` for any other character. */
  function DigitOf(c: char): Option<nat>
  {
    if IsDigit(c) then Some(c as nat - '0' as nat)
    else if 'a' <= c <= 'f' then Some(c as nat - 'a' as nat + 10)
    else if 'A' <= c <= 'F' then Some(c as nat - 'A' as nat + 10)
    else None
  }

  /** The value of a non-empty run of decimal digits, most significant first. */
  function Digits(s: string): (v: Option<nat>)
  {
    if s == "" || !IsDigit(s[|s| - 1]) then None
    else
      var d := s[|s| - 1] as nat - '0' as nat;
      if |s| == 1 then Some(d)
      else match Digits(s[..|s| - 1])
           case None => None
           case Some(high) => Some(high * 10 + d)
  }

  /** The same in base 2, 8 or 16. */
  function RadixDigits(s: string, base: nat): (v: Option<nat>)
  {
    if s == "" then None
    else
      match DigitOf(s[|s| - 1])
      case None => None
      case Some(d) =>
        if d >= base then None
        else if |s| == 1 then Some(d)
        else match RadixDigits(s[..|s| - 1], base)
             case None => None
             case Some(high) => Some((if base == 16 then high * 16 else if base == 8 then high * 8 else high * 2) + d)
  }

  function IndexOfE(s: string): (i: nat)
    ensures i <= |s|
  {
    if s == "" || s[0] == 'e' || s[0] == 'E' then 0 else 1 + IndexOfE(s[1..])
  }

  function IndexOfDot(s: string): (i: nat)
    ensures i <= |s|
  {
    if s == "" || s[0] == '.' then 0 else 1 + IndexOfDot(s[1..])
  }

  /** An optionally signed run of decimal digits: the exponent part. */
  function Exponent(s: string): Option<int>
  {
    var signed := s != "" && (s[0] == '-' || s[0] == '+');
    match Digits(if signed then s[1..] else s)
    case None => None
    case Some(v) => Some(if signed && s[0] == '-' then -(v as int) else v as int)
  }

  /** Digits with at most one point before, among or after them. */
  function Mantissa(s: string): Option<Decimal>
  {
    var dot := IndexOfDot(s);
    var part := if dot == |s| then "" else s[dot + 1..];
    match Digits(s[..dot] + part)
    case None => None
    case Some(v) => Some(Decimal(v, -|part|))
  }

  function Unsigned(s: string): Option<Decimal>
  {
    var e := IndexOfE(s);
    match Mantissa(s[..e])
    case None => None
    case Some(m) =>
      if e == |s| then Some(m)
      else
        match Exponent(s[e + 1..])
        case None => None
        case Some(x) => Some(Decimal(m.digits, m.exponent + x))
  }

  function RadixOf(c: char): nat
  {
    if c == 'x' || c == 'X' then 16 else if c == 'o' || c == 'O' then 8 else if c == 'b' || c == 'B' then 2 else 0
  }

  /** A numeric literal without surrounding white space. */
  function Literal(t: string): Option<Decimal>
  {
    if t == "" then Some(Decimal(0, 0))
    else if |t| >= 2 && t[0] == '0' && RadixOf(t[1]) > 0 then
      match RadixDigits(t[2..], RadixOf(t[1])) case None => None case Some(v) => Some(Decimal(v, 0))
    else if t[0] == '-' then
      match Unsigned(t[1..]) case None => None case Some(v) => Some(Decimal(-v.digits, v.exponent))
    else if t[0] == '+' then Unsigned(t[1..])
    else Unsigned(t)
  }

  /** `Number(s)` restricted to finite results. */
  function ToNumber(s: string): (v: Option<Decimal>) { Literal(Trim(s)) }

  /** `String(n)` of a natural number: its decimal digits. */
  function ShowNat(n: nat): (s: string)
    ensures |s| > 0
    ensures forall c :: c in s ==> IsDigit(c)
  {
    var digit := ('0' as nat + n % 10) as char;
    if n < 10 then [digit] else ShowNat(n / 10) + [digit]
  }

  /** `String(n)` of an integer. */
  function ShowInt(n: int): string
  {
    if n < 0 then ['-'] + ShowNat(-n) else ShowNat(n)
  }

  /** A digit behind a run of digits: ten times the value so far, and the digit. */
  lemma DigitsMore(s: string, d: nat)
    requires d < 10
    ensures Digits([('0' as nat + d) as char]) == Some(d)
    ensures Digits(s).Some? ==> Digits(s + [('0' as nat + d) as char]) == Some(Digits(s).value * 10 + d)
  {
    var c := ('0' as nat + d) as char;
    assert c as nat - '0' as nat == d;
    if Digits(s).Some? {
      var t := s + [c];
      assert |s| > 0 && t[..|t| - 1] == s;
    }
  }

  /** No number is printed with a leading zero, but zero itself. */
  lemma {:induction false} NoLeadingZero(n: nat)
    ensures ShowNat(n)[0] == '0' <==> n == 0
    ensures n == 0 ==> ShowNat(n) == "0"
  {
    if n >= 10 {
      NoLeadingZero(n / 10);
      assert ShowNat(n)[0] == ShowNat(n / 10)[0];
    }
  }

  lemma {:induction false} DigitsOfShow(n: nat)
    ensures Digits(ShowNat(n)) == Some(n)
  {
    var s := ShowNat(n);
    if n >= 10 {
      DigitsOfShow(n / 10);
      assert s[..|s| - 1] == ShowNat(n / 10);
    }
  }

  lemma {:induction false} PlainDigits(s: string)
    requires forall c :: c in s ==> IsDigit(c)
    ensures IndexOfE(s) == |s| && IndexOfDot(s) == |s|
  {
    if s != "" {
      assert s[0] in s;
      assert forall c :: c in s[1..] ==> c in s;
      PlainDigits(s[1..]);
    }
  }

  lemma UnsignedDigits(s: string, n: nat)
    requires forall c :: c in s ==> IsDigit(c)
    requires Digits(s) == Some(n)
    ensures Unsigned(s) == Some(Decimal(n, 0))
  {
    PlainDigits(s);
    assert s[..|s|] == s && s + "" == s;
  }

  lemma TrimKeeps(s: string)
    requires |s| > 0 && !IsSpace(s[0]) && !IsSpace(s[|s| - 1])
    ensures Trim(s) == s
  {
  }

  lemma LiteralOfDigits(s: string, n: nat)
    requires s != "" && forall c :: c in s ==> IsDigit(c)
    requires Digits(s) == Some(n)
    ensures Literal(s) == Some(Decimal(n, 0))
    ensures Literal(['-'] + s) == Some(Decimal(0 - n, 0))
  {
    hide Digits, RadixDigits, Unsigned;
    UnsignedDigits(s, n);
    assert s[0] in s && (|s| >= 2 ==> s[1] in s);
    assert (['-'] + s)[1..] == s;
  }

  lemma DigitsAreNotSpace()
    ensures forall c: char :: IsDigit(c) || c == '-' ==> !IsSpace(c)
  {
  }

  /** Reading a printed integer gives the integer back. */
  lemma NumberOfShow(n: int)
    ensures ToNumber(ShowInt(n)) == Some(Decimal(n, 0))
  {
    hide ShowNat, Digits, Literal, Trim, IsSpace;
    var m: nat := if n < 0 then -n else n;
    var digits := ShowNat(m);
    DigitsOfShow(m);
    LiteralOfDigits(digits, m);
    assert digits[0] in digits && digits[|digits| - 1] in digits;
    DigitsAreNotSpace();
    TrimKeeps(ShowInt(n));
  }
}
