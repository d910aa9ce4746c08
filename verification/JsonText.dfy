/**
 * `JSON.stringify` and `JSON.parse` on strings (RFC 8259, section 7). Text is a sequence of Unicode
 * scalar values, so an escape of a lone surrogate, which the host language accepts, is rejected here.
 */
module JsonText {
  import opened Options
  import opened JsNumber

  function HexDigit(n: nat): char
    requires n < 16
  {
    if n < 10 then ('0' as nat + n) as char else ('a' as nat + (n - 10)) as char
  }

  function Escape(c: char): string
  {
    if c == '"' then ['\\', '"']
    else if c == '\\' then ['\\', '\\']
    else if c == '\U{0008}' then ['\\', 'b']
    else if c == '\U{000C}' then ['\\', 'f']
    else if c == '\n' then ['\\', 'n']
    else if c == '\r' then ['\\', 'r']
    else if c == '\t' then ['\\', 't']
    else if c < ' ' then ['\\', 'u', '0', '0', HexDigit(c as nat / 16), HexDigit(c as nat % 16)]
    else [c]
  }

  function EscapeAll(s: string): string { if s == "" then "" else Escape(s[0]) + EscapeAll(s[1..]) }

  /** `JSON.stringify(s)`. */
  function Stringify(s: string): string { "\"" + EscapeAll(s) + "\"" }

  /** The letter escapes. */
  function Unescape(c: char): Option<char>
  {
    if c == '"' || c == '\\' || c == '/' then Some(c)
    else if c == 'b' then Some('\U{0008}')
    else if c == 'f' then Some('\U{000C}')
    else if c == 'n' then Some('\n')
    else if c == 'r' then Some('\r')
    else if c == 't' then Some('\t')
    else None
  }

  /** Four hexadecimal digits. */
  function Hex4(s: string): Option<nat>
  {
    if |s| < 4 || DigitOf(s[0]).None? || DigitOf(s[1]).None? || DigitOf(s[2]).None? || DigitOf(s[3]).None? then None
    else Some(((DigitOf(s[0]).value * 16 + DigitOf(s[1]).value) * 16 + DigitOf(s[2]).value) * 16 + DigitOf(s[3]).value)
  }

  /** A `\u` escape: the character and how many characters of the text behind the `u` it takes. */
  function UnicodeEscape(s: string): Option<(char, nat)>
  {
    match Hex4(s)
    case None => None
    case Some(n) =>
      if n < 0xD800 || 0xE000 <= n <= 0xFFFF then Some((n as char, 4))
      else if n < 0xDC00 && |s| >= 10 && s[4] == '\\' && s[5] == 'u' && Hex4(s[6..]).Some? then
        var low := Hex4(s[6..]).value;
        if 0xDC00 <= low < 0xE000 then Some((((n - 0xD800) * 0x400 + (low - 0xDC00) + 0x10000) as char, 10)) else None
      else None
  }

  /** The text up to the closing quote, which must be the last character. */
  function ParseRest(s: string): (r: Option<string>)
    decreases |s|
  {
    if s == "" then None
    else if s[0] == '"' then (if |s| == 1 then Some("") else None)
    else if s[0] < ' ' then None
    else if s[0] != '\\' then Prepend(s[0], ParseRest(s[1..]))
    else if |s| < 2 then None
    else if s[1] != 'u' then
      match Unescape(s[1]) case None => None case Some(c) => Prepend(c, ParseRest(s[2..]))
    else
      match UnicodeEscape(s[2..])
      case None => None
      case Some(p) => if p.1 > |s| - 2 then None else Prepend(p.0, ParseRest(s[2 + p.1..]))
  }

  function Prepend(c: char, rest: Option<string>): Option<string>
  {
    match rest case None => None case Some(t) => Some([c] + t)
  }

  /** `JSON.parse(s)` of a text that starts with a quote. */
  function ParseString(s: string): Option<string>
  {
    if s != "" && s[0] == '"' then ParseRest(s[1..]) else None
  }

  lemma HexOfDigits(c: char, rest: string)
    requires c < ' '
    ensures UnicodeEscape(['0', '0', HexDigit(c as nat / 16), HexDigit(c as nat % 16)] + rest) == Some((c, 4))
  {
    var s := ['0', '0', HexDigit(c as nat / 16), HexDigit(c as nat % 16)] + rest;
    var n := c as nat;
    assert DigitOf(s[2]) == Some(n / 16) && DigitOf(s[3]) == Some(n % 16);
    assert Hex4(s) == Some(n);
    assert n as char == c;
  }

  lemma ParseEscaped(c: char, rest: string)
    ensures ParseRest(Escape(c) + rest) == Prepend(c, ParseRest(rest))
  {
    hide UnicodeEscape, HexDigit;
    var e := Escape(c);
    var s := e + rest;
    if |e| == 1 {
      assert s[1..] == rest;
    } else if |e| == 2 {
      assert s[2..] == rest;
    } else {
      HexOfDigits(c, rest);
      assert s[2..] == ['0', '0', HexDigit(c as nat / 16), HexDigit(c as nat % 16)] + rest;
      assert s[2 + 4..] == rest;
    }
  }

  /** A string survives being written and read. */
  lemma {:induction false} ParseStringify(s: string)
    ensures ParseRest(EscapeAll(s) + "\"") == Some(s)
    ensures ParseString(Stringify(s)) == Some(s)
  {
    hide ParseRest, Escape;
    if s == "" {
      assert EscapeAll(s) + "\"" == "\"";
      assert ParseRest("\"") == Some("") by { ClosingQuote(); }
    } else {
      ParseStringify(s[1..]);
      ParseEscaped(s[0], EscapeAll(s[1..]) + "\"");
      assert EscapeAll(s) + "\"" == Escape(s[0]) + (EscapeAll(s[1..]) + "\"");
      assert [s[0]] + s[1..] == s;
    }
    assert Stringify(s)[1..] == EscapeAll(s) + "\"";
  }

  lemma ClosingQuote()
    ensures ParseRest("\"") == Some("")
  {
  }

  lemma HexDigitIsHex(n: nat)
    requires n < 16
    ensures HexDigit(n) > ' ' && HexDigit(n) < '\U{2028}'
  {
  }

  /** No control character, and no character the string did not have but plain ASCII. */
  lemma {:induction false} StringifyIsPlain(s: string)
    ensures forall c :: c in EscapeAll(s) ==> c >= ' '
    ensures forall c :: c in s && c >= '\U{2028}' <==> c in EscapeAll(s) && c >= '\U{2028}'
  {
    if s != "" {
      StringifyIsPlain(s[1..]);
      var c := s[0];
      if c < ' ' {
        HexDigitIsHex(c as nat / 16);
        HexDigitIsHex(c as nat % 16);
      }
      assert forall d :: d in Escape(c) ==> d >= ' ' && (d >= '\U{2028}' ==> d == c);
    }
  }

  // ----- What a string may be spelled as -----

  /** A hexadecimal digit of either case, for its value. */
  ghost predicate HexShows(c: char, d: nat)
  {
    d < 16 && (c == "0123456789abcdef"[d] || c == "0123456789ABCDEF"[d])
  }

  lemma HexShowsExactly(c: char, d: nat)
    ensures DigitOf(c) == Some(d) <==> HexShows(c, d)
  {
    hide HexShows;
    HexCodes(c, d);
  }

  lemma HexCodes(c: char, d: nat)
    ensures HexShows(c, d) <==>
            (d < 10 && c as nat == 48 + d) || (10 <= d < 16 && (c as nat == 87 + d || c as nat == 55 + d))
  {
  }

  ghost predicate HexValue(s: string, n: nat) { |s| == 4 && exists a: nat, b: nat, c: nat, d: nat :: FourShow(s, a, b, c, d, n) }

  ghost predicate FourShow(s: string, a: nat, b: nat, c: nat, d: nat, n: nat)
    requires |s| == 4
  {
    HexShows(s[0], a) && HexShows(s[1], b) && HexShows(s[2], c) && HexShows(s[3], d) && n == 4096 * a + 256 * b + 16 * c + d
  }

  lemma HexExactly(s: string, n: nat)
    ensures Hex4(s) == Some(n) <==> |s| >= 4 && HexValue(s[..4], n)
  {
    hide DigitOf, HexShows, FourShow;
    if |s| >= 4 {
      if Hex4(s) == Some(n) { FourRead(s, DigitOf(s[0]).value, DigitOf(s[1]).value, DigitOf(s[2]).value, DigitOf(s[3]).value, n); }
      forall a: nat, b: nat, c: nat, d: nat | FourShow(s[..4], a, b, c, d, n) ensures Hex4(s) == Some(n) {
        FourRead(s, a, b, c, d, n);
      }
    }
  }

  lemma FourRead(s: string, a: nat, b: nat, c: nat, d: nat, n: nat)
    requires |s| >= 4
    ensures FourShow(s[..4], a, b, c, d, n) <==> DigitOf(s[0]) == Some(a) && DigitOf(s[1]) == Some(b) && DigitOf(s[2]) == Some(c)
                                                 && DigitOf(s[3]) == Some(d) && n == 4096 * a + 256 * b + 16 * c + d
  {
    hide DigitOf, HexShows;
    HexShowsExactly(s[0], a);
    HexShowsExactly(s[1], b);
    HexShowsExactly(s[2], c);
    HexShowsExactly(s[3], d);
  }

  /** The letters that stand for a character behind a backslash. */
  ghost predicate LetterMeans(letter: char, c: char)
  {
    (letter in ['"', '\\', '/'] && c == letter) || (letter == 'b' && c == '\U{0008}') || (letter == 't' && c == '\U{0009}')
    || (letter == 'n' && c == '\U{000A}') || (letter == 'f' && c == '\U{000C}') || (letter == 'r' && c == '\U{000D}')
  }

  /** The four ways to spell a character: itself, a letter, its code, or the codes of its two surrogates. */
  ghost predicate Spelled(u: string, c: char)
  {
    (u == [c] && c >= ' ' && c != '"' && c != '\\')
    || (|u| == 2 && u[0] == '\\' && LetterMeans(u[1], c))
    || (|u| == 6 && u[0] == '\\' && u[1] == 'u' && HexValue(u[2..], c as nat))
    || (|u| == 12 && u[0] == '\\' && u[1] == 'u' && u[6] == '\\' && u[7] == 'u' && PairMeans(u[2..6], u[8..], c))
  }

  ghost predicate Surrogates(h: nat, l: nat, c: char)
  {
    0xD800 <= h < 0xDC00 && 0xDC00 <= l < 0xE000 && c as nat == 0x10000 + 1024 * (h - 0xD800) + (l - 0xDC00)
  }

  ghost predicate PairMeans(high: string, low: string, c: char)
  {
    exists h: nat, l: nat :: HexValue(high, h) && HexValue(low, l) && Surrogates(h, l, c)
  }

  /** A text spelled character by character. */
  ghost predicate Spells(b: string, t: string)
    decreases |t|
  {
    if t == "" then b == "" else exists n :: 0 < n <= |b| && SpellsFrom(b, t, n)
  }

  ghost predicate SpellsFrom(b: string, t: string, n: nat)
    requires t != "" && n <= |b|
    decreases |t|, 0
  {
    Spelled(b[..n], t[0]) && Spells(b[n..], t[1..])
  }

  lemma RestStep(s: string)
    ensures ParseRest(s) ==
            if s == "" then None
            else if s[0] == '"' then (if |s| == 1 then Some("") else None)
            else if s[0] < ' ' then None
            else if s[0] != '\\' then Prepend(s[0], ParseRest(s[1..]))
            else if |s| < 2 then None
            else if s[1] != 'u' then
              match Unescape(s[1]) case None => None case Some(c) => Prepend(c, ParseRest(s[2..]))
            else
              match UnicodeEscape(s[2..])
              case None => None
              case Some(p) => if p.1 > |s| - 2 then None else Prepend(p.0, ParseRest(s[2 + p.1..]))
  {
  }

  lemma LetterExactly(letter: char, c: char)
    ensures Unescape(letter) == Some(c) <==> LetterMeans(letter, c)
  {
  }

  /** What is spelled in front of a text is read in front of it. */
  lemma SpelledIsParsed(u: string, c: char, rest: string)
    requires Spelled(u, c)
    ensures ParseRest(u + rest) == Prepend(c, ParseRest(rest))
  {
    hide ParseRest, HexValue, Hex4, LetterMeans, Unescape;
    var s := u + rest;
    RestStep(s);
    assert s[|u|..] == rest;
    if |u| == 2 {
      LetterExactly(u[1], c);
      NoLetterU(c);
    } else if |u| == 6 {
      CodeIsRead(u[2..], c, s[2..]);
    } else if |u| == 12 {
      PairIsRead(u[2..6], u[8..], c, s[2..]);
    }
  }

  lemma NoLetterU(c: char)
    ensures !LetterMeans('u', c)
  {
  }

  lemma CodeIsRead(code: string, c: char, s: string)
    requires HexValue(code, c as nat) && code <= s
    ensures UnicodeEscape(s) == Some((c, 4))
  {
    hide Hex4;
    HexExactly(s, c as nat);
    assert s[..4] == code;
  }

  lemma PairIsRead(high: string, low: string, c: char, s: string)
    requires PairMeans(high, low, c) && |high| == 4 && high + ("\\u" + low) <= s && |low| == 4
    ensures UnicodeEscape(s) == Some((c, 10))
  {
    hide Hex4, HexValue;
    var h: nat, l: nat :| HexValue(high, h) && HexValue(low, l) && Surrogates(h, l, c);
    var whole := high + ("\\u" + low);
    assert s[..4] == whole[..4] == high && s[4] == whole[4] == '\\' && s[5] == whole[5] == 'u';
    assert s[6..][..4] == whole[6..] == low;
    HexExactly(s, h);
    HexExactly(s[6..], l);
  }

  /** What is read starts with a spelled character, or is the closing quote alone. */
  lemma ParsedIsSpelled(s: string) returns (n: nat)
    requires ParseRest(s).Some?
    ensures var t := ParseRest(s).value;
            if s == "\"" then t == "" else
            t != "" && 0 < n < |s| && Spelled(s[..n], t[0]) && ParseRest(s[n..]) == Some(t[1..])
  {
    hide ParseRest, Spelled, Unescape, UnicodeEscape;
    RestStep(s);
    if s[0] == '"' {
      n := 0;
      assert s == "\"";
    } else {
      n := if s[0] != '\\' then 1 else if s[1] != 'u' then 2 else 2 + UnicodeEscape(s[2..]).value.1;
      RestStep(s[n..]);
      HeadIsSpelled(s, n, ParseRest(s).value[0]);
    }
  }

  lemma HeadIsSpelled(s: string, n: nat, c: char)
    requires 0 < n <= |s| && s[0] >= ' ' && s[0] != '"'
    requires s[0] != '\\' ==> n == 1 && c == s[0]
    requires s[0] == '\\' ==> n >= 2 && if s[1] != 'u' then n == 2 && Unescape(s[1]) == Some(c) else UnicodeEscape(s[2..]) == Some((c, n - 2))
    ensures Spelled(s[..n], c)
  {
    hide HexValue, Unescape, LetterMeans, UnicodeEscape;
    var u := s[..n];
    if s[0] != '\\' {
      assert u == [c];
    } else if s[1] != 'u' {
      LetterExactly(s[1], c);
      assert u[1] == s[1];
    } else {
      CodeIsSpelled(s[2..], c, n - 2);
      assert u[0] == '\\' && u[1] == 'u';
      if n == 6 {
        assert u[2..] == s[2..][..4];
      } else {
        assert u[2..6] == s[2..][..4] && u[8..] == s[2..][6..10] && u[6] == s[2..][4] && u[7] == s[2..][5];
      }
    }
  }

  lemma CodeIsSpelled(s: string, c: char, n: nat)
    requires UnicodeEscape(s) == Some((c, n)) && n <= |s|
    ensures (n == 4 && HexValue(s[..4], c as nat)) || (n == 10 && s[4] == '\\' && s[5] == 'u' && PairMeans(s[..4], s[6..10], c))
  {
    hide HexValue, Hex4;
    var high := Hex4(s).value;
    HexExactly(s, high);
    if n == 10 {
      var low := Hex4(s[6..]).value;
      HexExactly(s[6..], low);
      assert s[6..][..4] == s[6..10];
      assert Surrogates(high, low, c);
    }
  }

  lemma {:induction false} SpelledTextIsParsed(b: string, t: string)
    requires Spells(b, t)
    ensures ParseRest(b + "\"") == Some(t)
    decreases |t|
  {
    hide ParseRest, Spelled;
    if t == "" {
      assert b + "\"" == "\"";
      ClosingQuote();
    } else {
      var n :| 0 < n <= |b| && SpellsFrom(b, t, n);
      SpelledTextIsParsed(b[n..], t[1..]);
      SpelledIsParsed(b[..n], t[0], b[n..] + "\"");
      assert b[..n] + (b[n..] + "\"") == b + "\"";
      assert [t[0]] + t[1..] == t;
    }
  }

  lemma {:induction false} ParsedTextIsSpelled(s: string)
    requires ParseRest(s).Some?
    ensures s != "" && s[|s| - 1] == '"' && Spells(s[..|s| - 1], ParseRest(s).value)
    decreases |s|
  {
    hide ParseRest, Spelled;
    RestStep(s);
    var n := ParsedIsSpelled(s);
    if s != "\"" {
      ParsedTextIsSpelled(s[n..]);
      var b := s[..|s| - 1];
      assert b[n..] == s[n..][..|s| - n - 1] && b[..n] == s[..n];
      assert SpellsFrom(b, ParseRest(s).value, n);
    }
  }

  /** A text is read from exactly what spells it, between double quotes. */
  lemma ParsesExactly(raw: string, t: string)
    ensures ParseString(raw) == Some(t) <==> |raw| >= 2 && raw[0] == '"' && raw[|raw| - 1] == '"' && Spells(raw[1..|raw| - 1], t)
  {
    hide ParseRest, Spells;
    if raw != "" && raw[0] == '"' {
      var s := raw[1..];
      if ParseRest(s) == Some(t) {
        ParsedTextIsSpelled(s);
        assert s[..|s| - 1] == raw[1..|raw| - 1];
      }
      if |raw| >= 2 && raw[|raw| - 1] == '"' && Spells(raw[1..|raw| - 1], t) {
        SpelledTextIsParsed(raw[1..|raw| - 1], t);
        assert raw[1..|raw| - 1] + "\"" == s;
      }
    }
  }

  /** A character is written in the shortest way there is, with small letters in its code. */
  lemma EscapeIsShortest(c: char, u: string)
    ensures Spelled(Escape(c), c)
    ensures Spelled(u, c) ==> |Escape(c)| <= |u|
    ensures |Escape(c)| == 6 ==> forall i :: 2 <= i < 6 ==> Escape(c)[i] in "0123456789abcdef"
  {
    hide Spelled, Escape;
    NoneIsShorter(c, u);
    if |Escape(c)| == 6 { ControlIsSpelled(c); } else { EscapeIsSpelled(c); }
  }

  lemma NoneIsShorter(c: char, u: string)
    ensures Spelled(u, c) ==> |Escape(c)| <= |u|
    ensures |Escape(c)| <= 2 || |Escape(c)| == 6
  {
    hide HexValue, HexDigit, PairMeans;
  }

  lemma EscapeIsSpelled(c: char)
    requires |Escape(c)| <= 2
    ensures Spelled(Escape(c), c)
  {
    hide HexValue, HexDigit, PairMeans;
  }

  lemma ControlIsSpelled(c: char)
    requires |Escape(c)| == 6
    ensures Spelled(Escape(c), c) && forall i :: 2 <= i < 6 ==> Escape(c)[i] in "0123456789abcdef"
  {
    hide HexValue, HexDigit, PairMeans, LetterMeans;
    var n := c as nat;
    var code := ['0', '0', HexDigit(n / 16), HexDigit(n % 16)];
    HexDigitIs(0);
    HexDigitIs(n / 16);
    HexDigitIs(n % 16);
    assert HexDigit(0) == '0' by { ZeroIs(); }
    assert HexValue(code, n) by { CodeShows(code, n); }
    assert Escape(c)[2..] == code;
  }

  lemma CodeShows(code: string, n: nat)
    requires n < 256 && code == [HexDigit(0), HexDigit(0), HexDigit(n / 16), HexDigit(n % 16)]
    ensures HexValue(code, n)
  {
    hide HexDigit, HexShows;
    HexDigitIs(0);
    HexDigitIs(n / 16);
    HexDigitIs(n % 16);
    assert FourShow(code, 0, 0, n / 16, n % 16, n);
  }

  lemma ZeroIs()
    ensures HexDigit(0) == '0'
  {
  }

  lemma HexDigitIs(n: nat)
    requires n < 16
    ensures HexDigit(n) == "0123456789abcdef"[n] && HexShows(HexDigit(n), n)
    ensures HexDigit(n) in "0123456789abcdef" && '0' in "0123456789abcdef"
  {
    assert "0123456789abcdef"[n] in "0123456789abcdef" && "0123456789abcdef"[0] == '0';
  }
}
