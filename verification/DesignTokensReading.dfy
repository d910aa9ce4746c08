/**
 * What the reader of the design tokens takes and what it refuses, in terms of the text of the document
 * (packages/design-tokens/src/design-document.ts): its fences, its lines, their keys and their scalars.
 */
module DesignTokensReading {
  import opened Options
  import opened Text
  import opened JsNumber
  import opened JsonText
  import opened DesignTokens
  import opened DesignTokensRoundTrip

  // ----- Lines without a key -----

  /** The first ink of a line, or its end. */
  ghost predicate InkAt(line: string, k: nat)
  {
    k <= |line| && (forall i :: 0 <= i < k ==> IsSpace(line[i])) && (k < |line| ==> !IsSpace(line[k]))
  }

  /** A line is passed over exactly if it is blank or its first ink is a hash. */
  lemma SkippedExactly(line: string, k: nat)
    requires InkAt(line, k)
    ensures Skipped(line) <==> k == |line| || line[k] == '#'
  {
    hide IsSpace, TrimStart, TrimEnd;
    StartIsTrimmed(line, k);
    StartIsTrimmed("", 0);
    if k < |line| { TrimEndKeeps(line[k..]); }
  }

  lemma {:induction false} StartIsTrimmed(s: string, k: nat)
    requires InkAt(s, k)
    ensures TrimStart(s) == s[k..]
    ensures TrimEnd("") == ""
  {
    hide IsSpace;
    if k > 0 {
      StartIsTrimmed(s[1..], k - 1);
    } else {
      assert s[0..] == s;
    }
  }

  /** Such a line changes nothing, wherever it stands. */
  lemma SkippedChangesNothing(stack: seq<Frame>, before: seq<string>, line: string, behind: seq<string>)
    requires stack != [] && Skipped(line)
    ensures ReadAll(stack, before + [line] + behind) == ReadAll(stack, before + behind)
  {
    hide Skipped, ReadAll;
    ReadAllAppend(stack, before + [line], behind);
    ReadAllAppend(stack, before, [line]);
    ReadAllAppend(stack, before, behind);
    var next := ReadAll(stack, before);
    if next.Some? {
      ReadAllStep(next.value, [line]);
      ReadAllStep(next.value, []);
      assert [line][1..] == [];
    }
  }

  // ----- Lines with a key -----

  ghost predicate KeyCharacters(key: string)
  {
    key != "" && forall c :: c in key ==> 'a' <= c <= 'z' || 'A' <= c <= 'Z' || '0' <= c <= '9' || c == '_' || c == '-'
  }

  /** The key alone, or between two quotes of one kind. */
  ghost predicate Names(text: string, key: string)
  {
    KeyCharacters(key) && (text == key || text == "\"" + key + "\"" || text == "'" + key + "'")
  }

  /** The end of a line that opens a mapping, or gives a value that holds no line end. */
  ghost predicate Gives(text: string, value: Option<string>)
  {
    match value
    case None => text == ":"
    case Some(v) => text == ": " + v && '\n' !in v && '\r' !in v && '\U{2028}' !in v && '\U{2029}' !in v
  }

  ghost predicate Blanks(s: string) { forall c :: c in s ==> c == ' ' }

  lemma KeyIsWord(key: string)
    ensures KeyCharacters(key) <==> Word(key)
  {
    if KeyCharacters(key) {
      forall i | 0 <= i < |key| ensures IsWord(key[i]) { assert key[i] in key; }
    }
    if Word(key) {
      forall c | c in key ensures 'a' <= c <= 'z' || 'A' <= c <= 'Z' || '0' <= c <= '9' || c == '_' || c == '-' {
        var i :| 0 <= i < |key| && key[i] == c;
        assert IsWord(key[i]);
      }
    }
  }

  lemma {:induction false} SpacesAreBlank(s: string)
    ensures Blanks(s[..Spaces(s)]) && (Spaces(s) < |s| ==> s[Spaces(s)] != ' ')
  {
    if s != "" && s[0] == ' ' {
      SpacesAreBlank(s[1..]);
      assert s[..Spaces(s)] == " " + s[1..][..Spaces(s[1..])];
    }
  }

  lemma {:induction false} BlanksAreSpaces(blanks: string, rest: string)
    requires Blanks(blanks) && rest != "" && rest[0] != ' '
    ensures Spaces(blanks + rest) == |blanks|
  {
    if blanks == "" {
      assert blanks + rest == rest;
    } else {
      assert blanks[0] in blanks;
      assert (blanks + rest)[1..] == blanks[1..] + rest;
      assert forall c :: c in blanks[1..] ==> c in blanks;
      BlanksAreSpaces(blanks[1..], rest);
    }
  }

  lemma GivesExactly(indent: nat, key: string, s: string, value: Option<string>)
    ensures AfterKey(indent, key, s) == Some(Line(indent, key, value)) <==> Gives(s, value)
    ensures AfterKey(indent, key, s).Some? ==> AfterKey(indent, key, s).value.indent == indent && AfterKey(indent, key, s).value.key == key
  {
    if ": " <= s {
      var v := s[2..];
      assert s == ": " + v;
      assert forall i :: 2 <= i < |s| ==> s[i] == v[i - 2];
      assert forall i :: 0 <= i < |v| ==> v[i] == s[i + 2];
    }
  }


  /** A line is read as indentation, key and value exactly if it is those, written one behind the other. */
  lemma LineExactly(line: string, p: Line)
    ensures ParseLine(line) == Some(p) <==> exists blanks: string, name: string, rest: string ::
              Blanks(blanks) && |blanks| == p.indent && Names(name, p.key) && Gives(rest, p.value) && line == blanks + (name + rest)
  {
    hide ParseLine, Blanks, Names, Gives;
    if ParseLine(line) == Some(p) {
      var k := Spaces(line);
      SpacesAreBlank(line);
      var n := ParsedSplits(line, p);
      assert line == line[..k] + (line[k..][..n] + line[k..][n..]);
    }
    forall blanks: string, name: string, rest: string
      | Blanks(blanks) && |blanks| == p.indent && Names(name, p.key) && Gives(rest, p.value) && line == blanks + (name + rest)
      ensures ParseLine(line) == Some(p)
    {
      WrittenIsParsed(blanks, name, rest, p);
    }
  }

  lemma ParsedSplits(line: string, p: Line) returns (n: nat)
    requires ParseLine(line) == Some(p)
    ensures Spaces(line) == p.indent
    ensures var s := line[Spaces(line)..]; n <= |s| && Names(s[..n], p.key) && Gives(s[n..], p.value)
  {
    hide AfterKey, Gives, Spaces;
    ParsedKeyIsWord(line);
    var s := line[Spaces(line)..];
    if s[0] == '"' || s[0] == '\'' {
      n := Words(s[1..]) + 2;
      var key := s[1..n - 1];
      KeyIsWord(key);
      GivesExactly(p.indent, key, s[n..], p.value);
      GivesExactly(Spaces(line), key, s[n..], p.value);
      assert s[..n] == [s[0]] + key + [s[0]];
    } else {
      n := Words(s);
      KeyIsWord(s[..n]);
      GivesExactly(Spaces(line), s[..n], s[n..], p.value);
    }
  }

  lemma WrittenIsParsed(blanks: string, name: string, rest: string, p: Line)
    requires Blanks(blanks) && |blanks| == p.indent && Names(name, p.key) && Gives(rest, p.value)
    ensures ParseLine(blanks + (name + rest)) == Some(p)
  {
    hide AfterKey, Spaces, Words, KeyCharacters, Blanks;
    var line, s := blanks + (name + rest), name + rest;
    KeyIsWord(p.key);
    assert IsWord(p.key[0]);
    BlanksAreSpaces(blanks, s);
    assert line[|blanks|..] == s;
    GivesExactly(p.indent, p.key, rest, p.value);
    assert rest[0] == ':';
    if name == p.key { BareSplits(p.key, rest); } else { QuotedSplits(p.key, name, rest); }
  }

  lemma BareSplits(key: string, rest: string)
    requires Word(key) && rest != "" && rest[0] == ':'
    ensures var s := key + rest; Words(s) == |key| && s[..|key|] == key && s[|key|..] == rest && s[0] == key[0] && IsWord(s[0])
  {
    hide Words;
    assert IsWord(key[0]);
    WordsRun(key, rest);
  }

  lemma QuotedSplits(key: string, name: string, rest: string)
    requires Word(key) && (name == "\"" + key + "\"" || name == "'" + key + "'")
    ensures var s := name + rest;
            Words(s[1..]) == |key| && s[1..|key| + 1] == key && s[|key| + 2..] == rest && |s| >= |key| + 2
            && s[0] == name[0] && s[|key| + 1] == s[0] && (s[0] == '"' || s[0] == '\'')
  {
    hide Words;
    var q, s := name[0], name + rest;
    assert s[1..] == key + ([q] + rest);
    WordsRun(key, [q] + rest);
  }

  /** A line that is not skipped is refused exactly if it is no such line, or does not fit the mappings open above it. */
  lemma RefusedExactly(stack: seq<Frame>, line: string)
    requires stack != [] && !Skipped(line)
    ensures ReadLine(stack, line).Some? <==> exists p: Line :: ParseLine(line) == Some(p) && Fits(stack, p)
  {
    hide Skipped, ParseLine, Close, HasKey, ReadScalar, Fits;
    if ParseLine(line).Some? {
      var p := ParseLine(line).value;
      var depth := p.indent / 2;
      if p.indent % 2 == 0 && depth < |stack| && depth < 3 {
        KeyIsNew(Close(stack, depth)[depth].entries, p.key);
        FitsAt(stack, p, depth);
      } else {
        NoFit(stack, p);
      }
    }
  }

  lemma KeyIsNew(entries: seq<Entry>, key: string)
    ensures !HasKey(entries, key) <==> forall e :: e in entries ==> e.key != key
  {
    if HasKey(entries, key) {
      var i :| 0 <= i < |entries| && entries[i].key == key;
      assert entries[i] in entries;
    }
  }

  /** Two blanks for each mapping around it, at most two around it, a new key, and a value that is a scalar or prose. */
  ghost predicate Fits(stack: seq<Frame>, p: Line)
  {
    exists depth: nat :: p.indent == depth + depth && depth < |stack| && depth < 3 && Accepts(stack, p, depth)
  }

  ghost predicate Accepts(stack: seq<Frame>, p: Line, depth: nat)
    requires depth < |stack|
  {
    (forall e :: e in Close(stack, depth)[depth].entries ==> e.key != p.key)
    && (p.value.None? || (depth == 0 && p.key in {"name", "description"}) || ReadScalar(p.value.value).Some?)
  }

  lemma FitsAt(stack: seq<Frame>, p: Line, depth: nat)
    requires p.indent == depth + depth && depth < |stack| && depth < 3
    ensures Fits(stack, p) <==> Accepts(stack, p, depth)
  {
    hide Accepts;
  }

  lemma NoFit(stack: seq<Frame>, p: Line)
    requires p.indent % 2 != 0 || p.indent / 2 >= |stack| || p.indent / 2 >= 3
    ensures !Fits(stack, p)
  {
  }

  /** A key that would read as a number is printed in quotes, any other as it is. */
  lemma KeyIsPrinted(key: string)
    requires KeyCharacters(key)
    ensures KeyText(key) == if forall c :: c in key ==> '0' <= c <= '9' then "\"" + key + "\"" else key
  {
    KeyIsWord(key);
    KeyTextIs(key);
    assert forall i :: 0 <= i < |key| ==> key[i] in key;
  }

  // ----- Scalars -----

  /** A text with its single quotes written twice. */
  function Doubled(t: string): string
  {
    if t == "" then "" else (if t[0] == '\'' then "''" else [t[0]]) + Doubled(t[1..])
  }

  /** Single quotes hold a text exactly if it stands between them with its own quotes doubled. */
  lemma QuotedExactly(s: string, t: string)
    ensures SingleQuoted(s) == Some(t) <==> s == Doubled(t) + "'"
  {
    DoubledIsRead(t);
    ReadIsDoubled(s);
  }

  lemma {:induction false} DoubledIsRead(t: string)
    ensures SingleQuoted(Doubled(t) + "'") == Some(t)
  {
    if t != "" {
      DoubledIsRead(t[1..]);
      var s, tail := Doubled(t) + "'", Doubled(t[1..]) + "'";
      assert t == [t[0]] + t[1..];
      if t[0] == '\'' { assert s == "''" + tail && s[2..] == tail; } else { assert s == [t[0]] + tail && s[1..] == tail; }
    }
  }

  lemma {:induction false} ReadIsDoubled(s: string)
    ensures SingleQuoted(s).Some? ==> s == Doubled(SingleQuoted(s).value) + "'"
    decreases |s|
  {
    if s != "" && s[0] != '\'' {
      ReadIsDoubled(s[1..]);
      if SingleQuoted(s[1..]).Some? {
        var t := SingleQuoted(s[1..]).value;
        assert ([s[0]] + t)[1..] == t;
        assert s == [s[0]] + (Doubled(t) + "'");
      }
    } else if |s| >= 2 && s[1] == '\'' {
      ReadIsDoubled(s[2..]);
      if SingleQuoted(s[2..]).Some? {
        var t := SingleQuoted(s[2..]).value;
        assert ("'" + t)[1..] == t;
        assert s == "''" + (Doubled(t) + "'");
      }
    } else if s == "'" {
      assert Doubled("") + "'" == "'";
    }
  }

  ghost predicate Numerals(s: string) { s != "" && forall c :: c in s ==> '0' <= c <= '9' }

  lemma {:induction false} RunOfDigits(digits: string, rest: string)
    requires forall c :: c in digits ==> '0' <= c <= '9'
    requires rest == "" || !('0' <= rest[0] <= '9')
    ensures DigitRun(digits + rest) == |digits|
  {
    if digits == "" {
      assert digits + rest == rest;
    } else {
      assert digits[0] in digits && forall c :: c in digits[1..] ==> c in digits;
      assert (digits + rest)[1..] == digits[1..] + rest;
      RunOfDigits(digits[1..], rest);
    }
  }

  lemma {:induction false} RunIsDigits(s: string)
    ensures forall c :: c in s[..DigitRun(s)] ==> '0' <= c <= '9'
  {
    if s != "" && IsDigit(s[0]) {
      RunIsDigits(s[1..]);
      assert s[..DigitRun(s)] == [s[0]] + s[1..][..DigitRun(s[1..])];
    }
  }

  /** Digits, or digits on both sides of a point. */
  ghost predicate Amount(s: string)
  {
    Numerals(s) || exists whole: string, part: string :: Pointed(s, whole, part)
  }

  ghost predicate Pointed(s: string, whole: string, part: string)
  {
    Numerals(whole) && Numerals(part) && s == whole + "." + part
  }

  /** A numeral is an amount, with or without a minus in front. */
  lemma NumeralExactly(s: string)
    ensures IsNumeral(s) <==> Amount(s) || ("-" <= s && Amount(s[1..]))
  {
    hide Amount, DigitRun;
    if "-" <= s { NoAmountInFront(s); }
    var t := if "-" <= s then s[1..] else s;
    var n := DigitRun(t);
    assert IsNumeral(s) <==> n > 0 && (n == |t| || (t[n] == '.' && n + 1 < |t| && DigitRun(t[n + 1..]) == |t| - n - 1));
    AmountExactly(t);
  }

  lemma NoAmountInFront(s: string)
    requires "-" <= s
    ensures !Amount(s)
  {
    assert s[0] in s;
    forall whole: string, part: string ensures !Pointed(s, whole, part) {
      if Numerals(whole) { assert whole[0] in whole; }
    }
  }

  lemma AmountExactly(t: string)
    ensures var n := DigitRun(t);
            Amount(t) <==> n > 0 && (n == |t| || (t[n] == '.' && n + 1 < |t| && DigitRun(t[n + 1..]) == |t| - n - 1))
  {
    hide DigitRun, Pointed, Numerals;
    var n := DigitRun(t);
    if n > 0 && n == |t| {
      RunIsNumerals(t);
      assert t[..n] == t;
    }
    if 0 < n < |t| - 1 && t[n] == '.' && DigitRun(t[n + 1..]) == |t| - n - 1 {
      RunIsNumerals(t);
      RunIsNumerals(t[n + 1..]);
      PointedAt(t, n);
    }
    if Numerals(t) { NumeralsRun(t); }
    forall whole: string, part: string | Pointed(t, whole, part)
      ensures n > 0 && n < |t| - 1 && t[n] == '.' && DigitRun(t[n + 1..]) == |t| - n - 1
    {
      PointedRuns(t, whole, part);
    }
  }

  lemma RunIsNumerals(s: string)
    requires DigitRun(s) > 0
    ensures Numerals(s[..DigitRun(s)])
  {
    RunIsDigits(s);
  }

  lemma NumeralsRun(s: string)
    requires Numerals(s)
    ensures DigitRun(s) == |s| > 0
  {
    RunOfDigits(s, "");
    assert s + "" == s;
  }

  lemma PointedAt(t: string, n: nat)
    requires n < |t| - 1 && t[n] == '.' && Numerals(t[..n]) && Numerals(t[n + 1..][..|t| - n - 1])
    ensures Pointed(t, t[..n], t[n + 1..])
  {
    hide Numerals;
    assert t[n + 1..][..|t| - n - 1] == t[n + 1..];
    assert t == t[..n] + "." + t[n + 1..];
  }

  lemma PointedRuns(t: string, whole: string, part: string)
    requires Pointed(t, whole, part)
    ensures var n := DigitRun(t); 0 < n < |t| - 1 && t[n] == '.' && DigitRun(t[n + 1..]) == |t| - n - 1
  {
    hide DigitRun;
    assert t == whole + ("." + part);
    RunOfDigits(whole, "." + part);
    assert t[|whole| + 1..] == part;
    NumeralsRun(part);
  }

  /** A scalar is read exactly if it is a string of either kind of quotes, or a numeral, which stands for itself. */
  lemma ScalarExactly(raw: string, t: string)
    ensures ReadScalar(raw) == Some(t)
            <==> (|raw| >= 2 && raw[0] == '"' && raw[|raw| - 1] == '"' && Spells(raw[1..|raw| - 1], t)) || raw == "'" + Doubled(t) + "'"
                 || (raw == t && (Amount(raw) || ("-" <= raw && Amount(raw[1..]))))
  {
    hide Doubled, SingleQuoted, ParseString, IsNumeral, Amount, Spells;
    ParsesExactly(raw, t);
    NumeralExactly(raw);
    AmountStarts(raw);
    if "'" <= raw {
      QuotedExactly(raw[1..], t);
      assert raw == "'" + raw[1..];
      assert "'" + Doubled(t) + "'" == "'" + (Doubled(t) + "'");
    }
  }

  lemma AmountStarts(s: string)
    ensures Amount(s) ==> s != "" && '0' <= s[0] <= '9'
  {
    if Amount(s) {
      if Numerals(s) {
        assert s[0] in s;
      } else {
        var whole: string, part: string :| Pointed(s, whole, part);
        assert whole[0] in whole;
      }
    }
  }

  // ----- Fences -----

  ghost predicate Newline(s: string) { s == "\n" || s == "\r\n" }

  /** An end of line, three dashes, and another end of line or the end of the text. */
  ghost predicate Closes(s: string) { exists nl: string, end: string, rest: string :: ClosedBy(s, nl, end, rest) }

  ghost predicate ClosedBy(s: string, nl: string, end: string, rest: string)
  {
    Newline(nl) && (s == nl + "---" || (Newline(end) && s == nl + ("---" + (end + rest))))
  }

  lemma FenceExactly(s: string, i: nat)
    ensures FenceAt(s, i) <==> i <= |s| && Closes(s[i..])
  {
    hide FenceAt, ClosedBy;
    if FenceAt(s, i) { FenceCloses(s, i); }
    if i <= |s| && Closes(s[i..]) {
      var nl: string, end: string, rest: string :| ClosedBy(s[i..], nl, end, rest);
      ClosingIsFence(s, i, nl, end, rest);
    }
  }

  lemma FenceCloses(s: string, i: nat)
    requires FenceAt(s, i)
    ensures i < |s| && Closes(s[i..])
  {
    hide ClosedBy;
    var u := s[i..];
    if u[0] == '\r' {
      assert s[i + 1..] == u[1..];
      assert u == "\r\n" + u[2..];
      DashesClose(u, "\r\n", u[2..]);
    } else {
      assert u == "\n" + u[1..];
      DashesClose(u, "\n", u[1..]);
    }
  }

  lemma DashesClose(u: string, nl: string, t: string)
    requires Newline(nl) && u == nl + t && "---" <= t
    requires |t| == 3 || t[3] == '\n' || (|t| > 4 && t[3] == '\r' && t[4] == '\n')
    ensures Closes(u)
  {
    if |t| == 3 {
      assert t == "---";
      assert ClosedBy(u, nl, "", "");
    } else {
      var end := if t[3] == '\r' then "\r\n" else "\n";
      var rest := t[3 + |end|..];
      assert t == "---" + (end + rest);
      assert ClosedBy(u, nl, end, rest);
    }
  }

  lemma ClosingIsFence(s: string, i: nat, nl: string, end: string, rest: string)
    requires i <= |s| && ClosedBy(s[i..], nl, end, rest)
    ensures FenceAt(s, i)
  {
    hide FenceAt;
    var t := if s[i..] == nl + "---" then "---" else "---" + (end + rest);
    assert t[0] == '-' && t[1] == '-' && t[2] == '-';
    assert t != "---" ==> t[3..] == end + rest;
    assert s[i..][|nl|..] == t;
    DashesFence(s, i, nl, t);
  }

  lemma DashesFence(s: string, i: nat, nl: string, t: string)
    requires i <= |s| && Newline(nl) && s[i..] == nl + t && "---" <= t
    requires |t| == 3 || t[3] == '\n' || (|t| > 4 && t[3] == '\r' && t[4] == '\n')
    ensures FenceAt(s, i)
  {
    var u := "\n" + t;
    assert s[i..][|nl|..] == t;
    assert s[i + |nl| - 1..] == u;
    assert u[0] == '\n' && u[1] == t[0] && u[2] == t[1] && u[3] == t[2];
    assert |nl| == 2 ==> s[i] == '\r' && s[i + 1] == '\n';
    assert |nl| == 1 ==> s[i] == '\n';
  }

  /** A document made of a fence, the block and a closing fence with the rest, and no closing fence before it. */
  ghost predicate Fenced(document: string, nl: string, block: string, rest: string)
  {
    Newline(nl) && document == "---" + (nl + (block + rest)) && Closes(rest)
    && forall k: nat :: k < |block| ==> !Closes((block + rest)[k..])
  }

  /** The front matter is the shortest text between the fence a document starts with and one that closes it. */
  lemma FrontMatterExactly(document: string, block: string)
    ensures FrontMatter(document) == Some(block) <==> exists nl: string, rest: string :: Fenced(document, nl, block, rest)
  {
    hide FrontMatter, Fenced;
    forall nl: string, rest: string | Fenced(document, nl, block, rest) ensures FrontMatter(document) == Some(block) {
      FencedIsRead(document, nl, block, rest);
    }
    if FrontMatter(document) == Some(block) { ReadIsFenced(document, block); }
  }

  lemma FencedIsRead(document: string, nl: string, block: string, rest: string)
    requires Fenced(document, nl, block, rest)
    ensures FrontMatter(document) == Some(block)
  {
    hide FenceAt, Closes;
    var s := block + rest;
    assert document[3 + |nl|..] == s && document[3] == nl[0];
    assert s[|block|..] == rest && s[..|block|] == block;
    FenceExactly(s, |block|);
    forall k: nat | k < |block| ensures !FenceAt(s, k) { FenceExactly(s, k); }
    FenceIsInside(s, |block|);
    assert FirstFence(s, 0) == Some(|block|);
  }

  lemma FenceIsInside(s: string, i: nat)
    ensures FenceAt(s, i) ==> i < |s|
  {
  }

  lemma ReadIsFenced(document: string, block: string)
    requires FrontMatter(document) == Some(block)
    ensures exists nl: string, rest: string :: Fenced(document, nl, block, rest)
  {
    hide FenceAt, Fenced;
    var nl := if "---\n" <= document then "\n" else "\r\n";
    var s := document[3 + |nl|..];
    OpeningSplits(document, nl);
    UpToFence(document, nl, s, FirstFence(s, 0).value);
  }

  lemma OpeningSplits(document: string, nl: string)
    requires ("---\n" <= document && nl == "\n") || ("---\r\n" <= document && nl == "\r\n")
    ensures document == "---" + (nl + document[3 + |nl|..])
  {
  }

  lemma UpToFence(document: string, nl: string, s: string, i: nat)
    requires Newline(nl) && document == "---" + (nl + s)
    requires FirstFence(s, 0) == Some(i)
    ensures Fenced(document, nl, s[..i], s[i..])
  {
    hide FenceAt, Closes, Newline;
    assert s[..i] + s[i..] == s;
    FenceExactly(s, i);
    forall k: nat | k < i ensures !Closes(s[k..]) { FenceExactly(s, k); }
  }

  // ----- Groups -----

  lemma GroupsCons(e: Entry, rest: seq<Entry>)
    ensures Groups([e] + rest) == (if e.key in {"colors", "typography", "rounded", "spacing"} then [e] else []) + Groups(rest)
    ensures Groups([]) == []
  {
    assert ([e] + rest)[1..] == rest;
  }

  /** Of the entries at the top, the four groups are kept, in their order. */
  lemma {:induction false} GroupsExactly(before: seq<Entry>, behind: seq<Entry>)
    ensures Groups(before + behind) == Groups(before) + Groups(behind)
  {
    hide Groups;
    if before == [] {
      assert before + behind == behind;
      GroupsCons(Entry("", Scalar("")), []);
    } else {
      var e, rest := before[0], before[1..];
      GroupsExactly(rest, behind);
      assert before == [e] + rest && before + behind == [e] + (rest + behind);
      GroupsCons(e, rest);
      GroupsCons(e, rest + behind);
    }
  }

  /**
   * A printed document without prose is refused exactly if it has a key that belongs to nothing;
   * its components are read and left out.
   */
  lemma OtherGroupsAreRefused(tree: seq<Entry>, narrative: string)
    requires Shaped(tree, 0) && AllUnbroken(tree)
    requires forall e :: e in tree ==> e.key !in {"name", "description"}
    ensures ReadDesignTokens(Document(tree, narrative))
            == if forall e :: e in tree ==> e.key in {"colors", "typography", "rounded", "spacing", "components"}
               then Some(Groups(tree)) else None
  {
    hide ReadDesignTokens, Document, ReadAll, Lines, Shaped, AllUnbroken, Close, Groups, IsAllowed;
    DocumentLines(tree, narrative);
    var start := [Frame("", [])];
    CloseAll(start, 0);
    NothingIn(tree);
    assert NoProse(tree) by { assert forall i :: 0 <= i < |tree| ==> tree[i] in tree; }
    ReadsEntries(start, 0, tree);
    assert [] + tree == tree;
    AllowedExactly(tree);
  }

  lemma AllowedExactly(tree: seq<Entry>)
    ensures (forall i :: 0 <= i < |tree| ==> IsAllowed(tree[i].key)) <==>
            forall e :: e in tree ==> e.key in {"colors", "typography", "rounded", "spacing", "components", "name", "description"}
  {
    assert forall i :: 0 <= i < |tree| ==> tree[i] in tree;
  }

  lemma ProseLine(stack: seq<Frame>, line: string, key: string, text: string)
    requires stack != [] && key in {"name", "description"} && !HasKey(Close(stack, 0)[0].entries, key)
    requires !Skipped(line) && ParseLine(line) == Some(Line(0, key, Some(text)))
    ensures ReadLine(stack, line) == Some(Close(stack, 0)[..0] + [Add(Close(stack, 0)[0], Entry(key, Scalar(text)))])
  {
    hide Close, ParseLine, Skipped, ReadScalar;
  }

  lemma ProseIsParsed(key: string, text: string)
    requires key in {"name", "description"} && Gives(": " + text, Some(text))
    ensures var line := key + (": " + text); !Skipped(line) && ParseLine(line) == Some(Line(0, key, Some(text)))
  {
    hide ParseLine, Skipped, Gives;
    var line := key + (": " + text);
    assert IsWord(key[0]) && KeyCharacters(key);
    InkIsRead(0, line);
    assert Indent(0) + line == line && "" + line == line;
    WrittenIsParsed("", key, ": " + text, Line(0, key, Some(text)));
  }

  /** The name and the description at the top are read as they stand, quotes and all. */
  lemma ProseIsKept(stack: seq<Frame>, key: string, text: string)
    requires stack != [] && key in {"name", "description"} && forall e :: e in Close(stack, 0)[0].entries ==> e.key != key
    requires Gives(": " + text, Some(text))
    ensures ReadLine(stack, key + ": " + text)
            == Some([Frame(Close(stack, 0)[0].key, Close(stack, 0)[0].entries + [Entry(key, Scalar(text))])])
  {
    hide Close, ParseLine, Skipped, Gives, ReadScalar;
    var line := key + (": " + text);
    assert line == key + ": " + text;
    KeyIsNew(Close(stack, 0)[0].entries, key);
    ProseIsParsed(key, text);
    ProseLine(stack, line, key, text);
    var root := Add(Close(stack, 0)[0], Entry(key, Scalar(text)));
    assert Close(stack, 0)[..0] + [root] == [root];
  }
}
