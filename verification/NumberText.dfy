/** Which texts `Number` of the host language reads, and as what: the grammar behind `JsNumber.ToNumber`. */
module NumberText {
  import opened Options
  import opened JsNumber

  // ----- Digits -----

  ghost predicate Numerals(s: string) { forall i :: 0 <= i < |s| ==> '0' <= s[i] <= '9' }

  /** Digits are read, and nothing else is. */
  lemma {:induction false} DigitsExactly(s: string)
    ensures Digits(s).Some? <==> s != "" && Numerals(s)
  {
    if s != "" && IsDigit(s[|s| - 1]) && |s| > 1 {
      DigitsExactly(s[..|s| - 1]);
      assert forall i :: 0 <= i < |s| - 1 ==> s[i] == s[..|s| - 1][i];
    }
  }

  lemma {:induction false} NoEInFront(a: string, b: string)
    requires forall i :: 0 <= i < |a| ==> a[i] != 'e' && a[i] != 'E'
    ensures IndexOfE(a + b) == |a| + IndexOfE(b)
  {
    if a == "" {
      assert a + b == b;
    } else {
      NoEInFront(a[1..], b);
      assert (a + b)[1..] == a[1..] + b;
    }
  }

  lemma {:induction false} NoDotInFront(a: string, b: string)
    requires forall i :: 0 <= i < |a| ==> a[i] != '.'
    ensures IndexOfDot(a + b) == |a| + IndexOfDot(b)
  {
    if a == "" {
      assert a + b == b;
    } else {
      NoDotInFront(a[1..], b);
      assert (a + b)[1..] == a[1..] + b;
    }
  }

  lemma {:induction false} IndexFinds(s: string)
    ensures IndexOfE(s) < |s| ==> s[IndexOfE(s)] == 'e' || s[IndexOfE(s)] == 'E'
    ensures IndexOfDot(s) < |s| ==> s[IndexOfDot(s)] == '.'
  {
    if s != "" { IndexFinds(s[1..]); }
  }

  // ----- The parts of a decimal -----

  /** Digits with a point before, among or behind them, or without one. */
  ghost predicate Amount(m: string, v: Decimal) { exists whole: string, part: string :: AmountOf(m, whole, part, v) }

  ghost predicate AmountOf(m: string, whole: string, part: string, v: Decimal)
  {
    Numerals(whole) && Numerals(part) && Digits(whole + part) == Some(v.digits) && v.exponent == -|part|
    && (m == whole + "." + part || (part == "" && m == whole))
  }

  lemma AmountExactly(m: string, v: Decimal)
    ensures Mantissa(m) == Some(v) <==> Amount(m, v)
  {
    hide Digits, Mantissa;
    if Mantissa(m) == Some(v) { ReadIsAmount(m, v); }
    forall whole: string, part: string | AmountOf(m, whole, part, v) ensures Mantissa(m) == Some(v) {
      AmountIsRead(m, whole, part, v);
    }
  }

  lemma ReadIsAmount(m: string, v: Decimal)
    requires Mantissa(m) == Some(v)
    ensures Amount(m, v)
  {
    hide Digits, IndexOfDot, Numerals;
    var dot := IndexOfDot(m);
    IndexFinds(m);
    var whole, part := m[..dot], if dot == |m| then "" else m[dot + 1..];
    DigitsExactly(whole + part);
    NumeralsSplit(whole, part);
    if dot < |m| { assert m == whole + "." + part; } else { assert m == whole; }
    assert AmountOf(m, whole, part, v);
  }

  lemma NumeralsSplit(a: string, b: string)
    requires Numerals(a + b)
    ensures Numerals(a) && Numerals(b)
  {
    assert forall i :: 0 <= i < |a| ==> a[i] == (a + b)[i];
    assert forall i :: 0 <= i < |b| ==> b[i] == (a + b)[|a| + i];
  }

  lemma AmountIsRead(m: string, whole: string, part: string, v: Decimal)
    requires AmountOf(m, whole, part, v)
    ensures Mantissa(m) == Some(v)
  {
    hide Digits;
    if m == whole + "." + part {
      assert m == whole + ("." + part);
      NoDotInFront(whole, "." + part);
      assert m[..|whole|] == whole && m[|whole| + 1..] == part;
    } else {
      NoDotInFront(whole, "");
      assert whole + "" == whole && m[..|m|] == m;
    }
  }

  /** An exponent: digits, with or without a sign. */
  ghost predicate Power(x: string, p: int) { exists digits: string :: PowerOf(x, digits, p) }

  ghost predicate PowerOf(x: string, digits: string, p: int)
  {
    Digits(digits).Some?
    && (((x == digits || x == "+" + digits) && p == Digits(digits).value) || (x == "-" + digits && p == -(Digits(digits).value as int)))
  }

  lemma PowerExactly(x: string, p: int)
    ensures Exponent(x) == Some(p) <==> Power(x, p)
  {
    hide Digits;
    if Exponent(x) == Some(p) {
      var digits := if x != "" && (x[0] == '-' || x[0] == '+') then x[1..] else x;
      assert PowerOf(x, digits, p);
    }
    forall digits: string | PowerOf(x, digits, p) ensures Exponent(x) == Some(p) {
      DigitsExactly(digits);
      assert ("+" + digits)[1..] == digits && ("-" + digits)[1..] == digits;
    }
  }

  /** An amount, alone or shifted by an exponent. */
  ghost predicate Scientific(t: string, v: Decimal)
  {
    Amount(t, v) || exists m: string, e: char, x: string, w: Decimal, p: int :: Shifted(t, m, e, x, w, p, v)
  }

  ghost predicate Shifted(t: string, m: string, e: char, x: string, w: Decimal, p: int, v: Decimal)
  {
    t == m + ([e] + x) && (e == 'e' || e == 'E') && Amount(m, w) && Power(x, p) && v == Decimal(w.digits, w.exponent + p)
  }

  lemma AmountHasNoE(m: string, v: Decimal)
    requires Amount(m, v)
    ensures forall i :: 0 <= i < |m| ==> '0' <= m[i] <= '9' || m[i] == '.'
    ensures m != ""
  {
    hide Digits;
    var whole: string, part: string :| AmountOf(m, whole, part, v);
    DigitsExactly(whole + part);
    if m == whole + "." + part {
      forall i | 0 <= i < |m| ensures '0' <= m[i] <= '9' || m[i] == '.' {
        if i < |whole| { assert m[i] == whole[i]; } else if i > |whole| { assert m[i] == part[i - |whole| - 1]; }
      }
    }
  }

  /** A number without a sign is read exactly if it is so written. */
  lemma ScientificExactly(t: string, v: Decimal)
    ensures Unsigned(t) == Some(v) <==> Scientific(t, v)
  {
    hide Unsigned, Amount, Shifted;
    if Unsigned(t) == Some(v) { ReadIsScientific(t, v); }
    if Amount(t, v) { AmountIsUnsigned(t, v); }
    forall m: string, e: char, x: string, w: Decimal, p: int | Shifted(t, m, e, x, w, p, v) ensures Unsigned(t) == Some(v) {
      ShiftedIsUnsigned(t, m, e, x, w, p, v);
    }
  }

  lemma ReadIsScientific(t: string, v: Decimal)
    requires Unsigned(t) == Some(v)
    ensures Scientific(t, v)
  {
    hide Mantissa, Exponent, IndexOfE, Amount, Power;
    var e := IndexOfE(t);
    IndexFinds(t);
    var w := Mantissa(t[..e]).value;
    AmountExactly(t[..e], w);
    if e == |t| {
      assert t[..e] == t;
    } else {
      var x := t[e + 1..];
      PowerExactly(x, Exponent(x).value);
      assert t == t[..e] + ([t[e]] + x);
      assert Shifted(t, t[..e], t[e], x, w, Exponent(x).value, v);
    }
  }

  lemma AmountIsUnsigned(t: string, v: Decimal)
    requires Amount(t, v)
    ensures Unsigned(t) == Some(v)
  {
    hide Mantissa, Exponent, Amount;
    AmountHasNoE(t, v);
    AmountExactly(t, v);
    NoEInFront(t, "");
    assert t + "" == t && t[..|t|] == t;
  }

  lemma ShiftedIsUnsigned(t: string, m: string, e: char, x: string, w: Decimal, p: int, v: Decimal)
    requires Shifted(t, m, e, x, w, p, v)
    ensures Unsigned(t) == Some(v)
  {
    hide Mantissa, Exponent, Amount, Power;
    AmountHasNoE(m, w);
    AmountExactly(m, w);
    PowerExactly(x, p);
    NoEInFront(m, [e] + x);
    assert t[..|m|] == m && t[|m| + 1..] == x;
  }

  // ----- Literals -----

  /** Digits of base 2, 8 or 16 behind `0b`, `0o` or `0x`; the value grows by one digit at a time. */
  ghost predicate InBase(t: string, v: Decimal)
  {
    |t| >= 2 && t[0] == '0' && v.exponent == 0 &&
    (((t[1] == 'x' || t[1] == 'X') && RadixDigits(t[2..], 16) == Some(v.digits))
     || ((t[1] == 'o' || t[1] == 'O') && RadixDigits(t[2..], 8) == Some(v.digits))
     || ((t[1] == 'b' || t[1] == 'B') && RadixDigits(t[2..], 2) == Some(v.digits)))
  }

  lemma OneMoreDigit(s: string, c: char, base: nat)
    requires base == 2 || base == 8 || base == 16
    ensures var d := DigitOf(c);
            RadixDigits(s + [c], base)
            == if d.None? || d.value >= base then None
               else if s == "" then d
               else if RadixDigits(s, base).None? then None else Some(base * RadixDigits(s, base).value + d.value)
    ensures RadixDigits("", base) == None
  {
    var t := s + [c];
    assert t[..|t| - 1] == s;
  }

  /** What is read between the blanks: nothing at all is 0; only a decimal may have a sign. */
  lemma LiteralExactly(t: string, v: Decimal)
    ensures Literal(t) == Some(v) <==>
            (t == "" && v == Decimal(0, 0)) || InBase(t, v) || Scientific(t, v) || ("+" <= t && Scientific(t[1..], v))
            || ("-" <= t && Scientific(t[1..], Decimal(-v.digits, v.exponent)))
  {
    hide Unsigned, Scientific, RadixDigits;
    ScientificExactly(t, v);
    if t != "" {
      ScientificExactly(t[1..], v);
      ScientificExactly(t[1..], Decimal(-v.digits, v.exponent));
      if Scientific(t, v) { ScientificStarts(t, v); }
    } else {
      NothingIsNoAmount(v);
    }
  }

  lemma ScientificStarts(t: string, v: Decimal)
    requires Scientific(t, v)
    ensures t != "" && ('0' <= t[0] <= '9' || t[0] == '.')
    ensures |t| >= 2 && t[0] == '0' ==> RadixOf(t[1]) == 0
  {
    hide Amount, Power;
    if Amount(t, v) {
      AmountHasNoE(t, v);
    } else {
      var m: string, e: char, x: string, w: Decimal, p: int :| Shifted(t, m, e, x, w, p, v);
      AmountHasNoE(m, w);
      assert t[0] == m[0] && (|t| >= 2 ==> t[1] == if |m| >= 2 then m[1] else e);
    }
  }

  lemma NothingIsNoAmount(v: Decimal)
    ensures !Scientific("", v)
  {
    if Scientific("", v) { ScientificStarts("", v); }
  }

  // ----- The blanks around -----

  ghost predicate Blank(s: string) { forall i :: 0 <= i < |s| ==> IsSpace(s[i]) }

  /** The characters a text is trimmed of: tabs, line ends, and the spaces of Unicode. */
  lemma SpaceExactly(c: char)
    ensures IsSpace(c) <==>
            c in {'\U{0009}', '\U{000A}', '\U{000B}', '\U{000C}', '\U{000D}', '\U{0020}', '\U{00A0}', '\U{1680}', '\U{2028}', '\U{2029}',
                  '\U{202F}', '\U{205F}', '\U{3000}', '\U{FEFF}'} || 0x2000 <= c as nat <= 0x200A
  {
  }

  /** No blank at either end. */
  ghost predicate Trimmed(t: string) { t == "" || (!IsSpace(t[0]) && !IsSpace(t[|t| - 1])) }

  lemma {:induction false} TrimmedStart(lead: string, t: string)
    requires Blank(lead) && (t == "" || !IsSpace(t[0]))
    ensures TrimStart(lead + t) == t
  {
    hide IsSpace;
    if lead == "" {
      assert lead + t == t;
    } else {
      TrimmedStart(lead[1..], t);
      assert (lead + t)[1..] == lead[1..] + t;
    }
  }

  lemma {:induction false} TrimmedEnd(t: string, trail: string)
    requires Blank(trail) && (t == "" || !IsSpace(t[|t| - 1]))
    ensures TrimEnd(t + trail) == t
  {
    hide IsSpace;
    if trail == "" {
      assert t + trail == t;
    } else {
      TrimmedEnd(t, trail[..|trail| - 1]);
      assert (t + trail)[..|t + trail| - 1] == t + trail[..|trail| - 1];
    }
  }

  /** Blanks in front and behind do not matter. */
  lemma BlanksDoNotMatter(lead: string, t: string, trail: string)
    requires Blank(lead) && Trimmed(t) && Blank(trail)
    ensures ToNumber(lead + t + trail) == Literal(t)
  {
    hide IsSpace, Literal, TrimStart, TrimEnd;
    if t == "" {
      assert Blank(lead + trail);
      assert lead + t + trail == (lead + trail) + "";
      TrimmedStart(lead + trail, "");
      TrimmedEnd("", "");
      assert "" + "" == "";
    } else {
      assert lead + t + trail == lead + (t + trail);
      TrimmedStart(lead, t + trail);
      TrimmedEnd(t, trail);
    }
  }

  /** Every text is a trimmed one between blanks. */
  lemma {:induction false} EveryTextIsTrimmed(s: string) returns (lead: string, t: string, trail: string)
    ensures s == lead + t + trail && Blank(lead) && Trimmed(t) && Blank(trail)
    decreases |s|
  {
    hide IsSpace;
    if s != "" && IsSpace(s[0]) {
      lead, t, trail := EveryTextIsTrimmed(s[1..]);
      lead := [s[0]] + lead;
      assert s == [s[0]] + s[1..];
    } else if s != "" && IsSpace(s[|s| - 1]) {
      lead, t, trail := EveryTextIsTrimmed(s[..|s| - 1]);
      trail := trail + [s[|s| - 1]];
      assert s == s[..|s| - 1] + [s[|s| - 1]];
    } else {
      lead, t, trail := "", s, "";
    }
  }
}
