/**
 * The reader of the design tokens undoes the printer, exactly on the trees it can represent
 * (packages/design-tokens/src/design-document.ts).
 */
module DesignTokensRoundTrip {
  import opened Options
  import opened Text
  import opened JsNumber
  import opened JsonText
  import opened DesignTokens
  import ChunkInvariance

  // ----- The trees the reader can represent -----

  predicate Word(key: string) { key != "" && forall i :: 0 <= i < |key| ==> IsWord(key[i]) }

  predicate DistinctKeys(entries: seq<Entry>)
  {
    forall i, j :: 0 <= i < j < |entries| ==> entries[i].key != entries[j].key
  }

  /** Keys are words, distinct in their mapping, and at most three deep. */
  predicate Shaped(entries: seq<Entry>, depth: nat)
    decreases entries, 1
  {
    DistinctKeys(entries) && (entries != [] ==> depth <= 2)
    && forall i :: 0 <= i < |entries| ==> Word(entries[i].key) && ShapedValue(entries[i].value, depth + 1)
  }

  predicate ShapedValue(v: Value, depth: nat)
    decreases v, 0
  {
    v.Group? ==> Shaped(v.entries, depth)
  }

  /** No line or paragraph separator: the characters JSON leaves alone and a line cannot hold. */
  predicate Unbroken(text: string) { '\U{2028}' !in text && '\U{2029}' !in text }

  /** Every text in the tree is unbroken. */
  predicate AllUnbroken(entries: seq<Entry>)
    decreases entries, 1
  {
    forall i :: 0 <= i < |entries| ==> UnbrokenValue(entries[i].value)
  }

  predicate UnbrokenValue(v: Value)
    decreases v, 0
  {
    match v case Scalar(text) => Unbroken(text) case Group(sub) => AllUnbroken(sub)
  }

  predicate Rooted(entries: seq<Entry>) { forall i :: 0 <= i < |entries| ==> IsGroup(entries[i].key) }

  /** A token tree the front matter can carry. */
  predicate Readable(tree: seq<Entry>) { Shaped(tree, 0) && Rooted(tree) && AllUnbroken(tree) }

  lemma ShapedTail(entries: seq<Entry>, depth: nat)
    requires Shaped(entries, depth) && entries != []
    ensures Shaped(entries[1..], depth)
    ensures forall i :: 0 <= i < |entries[1..]| ==> entries[1..][i].key != entries[0].key
  {
    var rest := entries[1..];
    assert forall i :: 0 <= i < |rest| ==> rest[i] == entries[i + 1];
  }

  lemma UnbrokenTail(entries: seq<Entry>)
    requires entries != []
    ensures AllUnbroken(entries) <==> UnbrokenValue(entries[0].value) && AllUnbroken(entries[1..])
  {
    var rest := entries[1..];
    assert forall i :: 0 <= i < |rest| ==> rest[i] == entries[i + 1];
    assert forall i :: 0 < i < |entries| ==> entries[i] == rest[i - 1];
  }

  // ----- One printed line -----

  function LineOf(depth: nat, key: string, rest: string): string { Indent(depth) + (KeyText(key) + (":" + rest)) }

  lemma SpaceCons(s: string)
    ensures Spaces(" " + s) == 1 + Spaces(s) && TrimStart(" " + s) == TrimStart(s)
  {
    assert (" " + s)[1..] == s;
  }

  lemma InkStays(s: string)
    requires s != "" && !IsSpace(s[0])
    ensures Spaces(s) == 0 && TrimStart(s) == s
  {
  }

  lemma {:induction false} IndentIsBlank(depth: nat)
    ensures |Indent(depth)| == 2 * depth
    ensures forall c :: c in Indent(depth) ==> c == ' '
  {
    if depth > 0 { IndentIsBlank(depth - 1); }
  }

  lemma {:induction false} IndentIsSpace(depth: nat, s: string)
    requires s != "" && !IsSpace(s[0])
    ensures Spaces(Indent(depth) + s) == 2 * depth
    ensures TrimStart(Indent(depth) + s) == s
  {
    hide Spaces, TrimStart, IsSpace;
    if depth == 0 {
      InkStays(s);
      assert Indent(0) + s == s;
    } else {
      var t := Indent(depth - 1) + s;
      IndentIsSpace(depth - 1, s);
      SpaceCons(t);
      SpaceCons(" " + t);
      assert Indent(depth) + s == " " + (" " + t);
    }
  }

  lemma {:induction false} TrimEndKeeps(s: string)
    requires s != "" && !IsSpace(s[0])
    ensures TrimEnd(s) != ""
  {
    if IsSpace(s[|s| - 1]) { TrimEndKeeps(s[..|s| - 1]); }
  }

  lemma {:induction false} WordsRun(key: string, s: string)
    requires forall i :: 0 <= i < |key| ==> IsWord(key[i])
    requires s != "" && !IsWord(s[0])
    ensures Words(key + s) == |key|
  {
    if key == "" {
      assert key + s == s;
    } else {
      WordsRun(key[1..], s);
      assert (key + s)[1..] == key[1..] + s;
    }
  }

  lemma {:induction false} DigitsAreNotEscaped(s: string)
    requires forall i :: 0 <= i < |s| ==> IsDigit(s[i])
    ensures EscapeAll(s) == s
  {
    if s != "" {
      DigitsAreNotEscaped(s[1..]);
      assert s == [s[0]] + s[1..];
    }
  }

  lemma KeyTextIs(key: string)
    requires Word(key)
    ensures KeyText(key) == if AllDigits(key) then "\"" + key + "\"" else key
    ensures var c := KeyText(key)[0]; c == '"' || IsWord(c)
  {
    assert IsWord(key[0]);
    if AllDigits(key) { DigitsAreNotEscaped(key); }
  }

  lemma WordIsInk(c: char)
    requires c == '"' || IsWord(c)
    ensures !IsSpace(c) && c != '#'
  {
  }

  lemma InkIsRead(depth: nat, s: string)
    requires s != "" && (s[0] == '"' || IsWord(s[0]))
    ensures !Skipped(Indent(depth) + s)
    ensures Spaces(Indent(depth) + s) == 2 * depth && (Indent(depth) + s)[2 * depth..] == s
  {
    hide Spaces, TrimStart, TrimEnd, Indent, IsWord, IsSpace;
    WordIsInk(s[0]);
    IndentIsSpace(depth, s);
    IndentIsBlank(depth);
    TrimEndKeeps(s);
  }

  /** A printed line is one the reader takes, for what it is. */
  lemma KeyIsParsed(depth: nat, key: string, rest: string)
    requires Word(key)
    ensures ParseLine(LineOf(depth, key, rest)) == AfterKey(2 * depth, key, ":" + rest)
    ensures !Skipped(LineOf(depth, key, rest))
  {
    hide AfterKey, Words, Spaces, Skipped, Indent, KeyText, IsWord;
    var s := KeyText(key) + (":" + rest);
    KeyTextIs(key);
    InkIsRead(depth, s);
    if AllDigits(key) {
      QuotedIsParsed(key, rest);
    } else {
      BareIsParsed(key, rest);
    }
  }

  lemma QuotedIsParsed(key: string, rest: string)
    requires Word(key)
    ensures var s := "\"" + key + "\"" + (":" + rest);
            Words(s[1..]) == |key| && |s| > |key| + 1 && s[|key| + 1] == '"' && s[1..|key| + 1] == key
            && s[|key| + 2..] == ":" + rest
  {
    hide Words;
    var s := "\"" + key + "\"" + (":" + rest);
    var t := "\"" + (":" + rest);
    assert s[1..] == key + t;
    WordsRun(key, t);
    assert s == ("\"" + key + "\"") + (":" + rest);
  }

  lemma BareIsParsed(key: string, rest: string)
    requires Word(key)
    ensures var s := key + (":" + rest);
            s[0] != '"' && s[0] != '\'' && Words(s) == |key| && s[..|key|] == key && s[|key|..] == ":" + rest
  {
    hide Words;
    assert IsWord(key[0]);
    WordsRun(key, ":" + rest);
  }

  lemma UnbrokenIsPlain(text: string)
    ensures Unbroken(text) <==> forall c :: c in Stringify(text) ==> !IsLineEnd(c)
    ensures '\n' !in Stringify(text) && '\r' !in Stringify(text)
  {
    hide EscapeAll;
    StringifyIsPlain(text);
    var e := EscapeAll(text);
    assert forall c :: c in Stringify(text) <==> c == '"' || c in e;
    assert '\U{2028}' in text <==> '\U{2028}' in e;
    assert '\U{2029}' in text <==> '\U{2029}' in e;
  }

  lemma ScalarIsParsed(indent: nat, key: string, text: string)
    ensures AfterKey(indent, key, ": " + Stringify(text))
            == if Unbroken(text) then Some(Line(indent, key, Some(Stringify(text)))) else None
  {
    hide Stringify;
    UnbrokenIsPlain(text);
    var s := ": " + Stringify(text);
    assert s[2..] == Stringify(text);
    if !Unbroken(text) {
      var c :| c in Stringify(text) && IsLineEnd(c);
      var i :| 0 <= i < |Stringify(text)| && Stringify(text)[i] == c;
      assert s[i + 2] == c;
    } else {
      forall i | 2 <= i < |s| ensures !IsLineEnd(s[i]) { assert s[i] == Stringify(text)[i - 2]; }
    }
  }

  // ----- The stack -----

  lemma {:induction false} CloseAll(stack: seq<Frame>, depth: nat)
    requires depth < |stack|
    ensures |stack| == depth + 1 ==> Close(stack, depth) == stack
    ensures depth > 0 ==> Close(Close(stack, depth), depth - 1) == Close(stack, depth - 1)
    decreases |stack|
  {
    if |stack| > depth + 1 {
      var n := |stack| - 1;
      CloseAll(stack[..n - 1] + [Add(stack[n - 1], Entry(stack[n].key, Group(stack[n].entries)))], depth);
    }
  }

  lemma CloseStep(stack: seq<Frame>, depth: nat)
    requires depth < |stack|
    ensures Close(stack, depth) ==
            var n := |stack| - 1;
            if n == depth then stack
            else Close(stack[..n - 1] + [Add(stack[n - 1], Entry(stack[n].key, Group(stack[n].entries)))], depth)
  {
  }

  lemma CloseOne(stack: seq<Frame>, child: Frame)
    requires stack != []
    ensures Close(stack + [child], |stack| - 1)
            == stack[..|stack| - 1] + [Add(stack[|stack| - 1], Entry(child.key, Group(child.entries)))]
  {
    hide Close, Add;
    var s, n := stack + [child], |stack|;
    var last := Add(stack[n - 1], Entry(child.key, Group(child.entries)));
    var r := stack[..n - 1] + [last];
    assert |s| - 1 == n && s[n] == child && s[n - 1] == stack[n - 1] && s[..n - 1] == stack[..n - 1];
    CloseStep(s, n - 1);
    CloseWhole(r);
  }

  lemma CloseWhole(stack: seq<Frame>)
    requires stack != []
    ensures Close(stack, |stack| - 1) == stack
  {
  }

  lemma ReadGroupLine(stack: seq<Frame>, depth: nat, key: string)
    requires depth < |stack| && depth <= 2 && Word(key)
    requires !HasKey(Close(stack, depth)[depth].entries, key)
    ensures ReadLine(stack, LineOf(depth, key, "")) == Some(Close(stack, depth) + [Frame(key, [])])
  {
    hide ParseLine, Close, Skipped, LineOf, ReadScalar;
    KeyIsParsed(depth, key, "");
  }

  lemma ReadScalarLine(stack: seq<Frame>, depth: nat, key: string, text: string)
    requires depth < |stack| && depth <= 2 && Word(key)
    requires depth == 0 ==> !IsProse(key)
    requires !HasKey(Close(stack, depth)[depth].entries, key)
    requires Unbroken(text)
    ensures ReadLine(stack, LineOf(depth, key, " " + Stringify(text)))
            == Some(Close(stack, depth)[..depth] + [Add(Close(stack, depth)[depth], Entry(key, Scalar(text)))])
  {
    hide ParseLine, Close, Skipped, LineOf, EscapeAll, AfterKey;
    KeyIsParsed(depth, key, " " + Stringify(text));
    assert ":" + (" " + Stringify(text)) == ": " + Stringify(text);
    ScalarIsParsed(2 * depth, key, text);
    ParseStringify(text);
  }

  // ----- The printed lines -----

  function Lines(entries: seq<Entry>, depth: nat): (lines: seq<string>)
    ensures |lines| >= 1
    decreases entries, 1
  {
    if entries == [] then [""]
    else if |entries| == 1 then EntryLines(entries[0], depth)
    else EntryLines(entries[0], depth) + Lines(entries[1..], depth)
  }

  function EntryLines(e: Entry, depth: nat): (lines: seq<string>)
    ensures |lines| >= 1
    decreases e, 0
  {
    match e.value
    case Scalar(text) => [LineOf(depth, e.key, " " + Stringify(text))]
    case Group(sub) => [LineOf(depth, e.key, "")] + Lines(sub, depth + 1)
  }

  lemma {:induction false} JoinAppend(a: seq<string>, b: seq<string>, sep: string)
    requires |a| >= 1 && |b| >= 1
    ensures Join(a + b, sep) == Join(a, sep) + sep + Join(b, sep)
  {
    assert (a + b)[1..] == a[1..] + b;
    if |a| > 1 { JoinAppend(a[1..], b, sep); }
  }

  lemma {:induction false} EntryIsPrinted(e: Entry, depth: nat)
    ensures Join(EntryLines(e, depth), "\n") == RenderEntry(e, depth)
    decreases e, 0
  {
    hide Join, Stringify, Lines, Render;
    match e.value
    case Scalar(text) =>
      JoinOne(LineOf(depth, e.key, " " + Stringify(text)), "\n");
      assert RenderEntry(e, depth) == Indent(depth) + KeyText(e.key) + ":" + (" " + Stringify(text));
    case Group(sub) =>
      IsPrinted(sub, depth + 1);
      JoinOne(LineOf(depth, e.key, ""), "\n");
      JoinAppend([LineOf(depth, e.key, "")], Lines(sub, depth + 1), "\n");
      assert ":" + "" == ":";
      assert RenderEntry(e, depth) == Indent(depth) + KeyText(e.key) + ":" + ("\n" + Render(sub, depth + 1));
      assert LineOf(depth, e.key, "") == Indent(depth) + KeyText(e.key) + ":";
  }

  /** The printer joins the printed lines. */
  lemma {:induction false} IsPrinted(entries: seq<Entry>, depth: nat)
    ensures Join(Lines(entries, depth), "\n") == Render(entries, depth)
    decreases entries, 1
  {
    hide Join, EntryLines, RenderEntry;
    if entries == [] {
      JoinOne("", "\n");
    } else {
      EntryIsPrinted(entries[0], depth);
      if |entries| > 1 {
        IsPrinted(entries[1..], depth);
        JoinAppend(EntryLines(entries[0], depth), Lines(entries[1..], depth), "\n");
      }
    }
  }

  /** A line that stays one line and is not a fence. */
  predicate Clean(line: string) { '\n' !in line && '\r' !in line && line != "---" }

  lemma LineIsClean(depth: nat, key: string, rest: string)
    requires Word(key)
    requires '\n' !in rest && '\r' !in rest
    ensures Clean(LineOf(depth, key, rest))
  {
    hide KeyText, Indent;
    KeyTextIs(key);
    IndentIsBlank(depth);
    var line := LineOf(depth, key, rest);
    assert ':' in line;
    assert forall c :: c in KeyText(key) ==> c == '"' || IsWord(c);
  }

  lemma {:induction false} EntryIsClean(e: Entry, depth: nat)
    requires Word(e.key) && ShapedValue(e.value, depth + 1)
    ensures forall l :: l in EntryLines(e, depth) ==> Clean(l)
    decreases e, 0
  {
    hide Clean, Stringify, LineOf, Lines;
    match e.value
    case Scalar(text) =>
      UnbrokenIsPlain(text);
      LineIsClean(depth, e.key, " " + Stringify(text));
    case Group(sub) =>
      AllClean(sub, depth + 1);
      LineIsClean(depth, e.key, "");
  }

  lemma {:induction false} AllClean(entries: seq<Entry>, depth: nat)
    requires Shaped(entries, depth)
    ensures forall l :: l in Lines(entries, depth) ==> Clean(l)
    decreases entries, 1
  {
    hide EntryLines;
    if entries != [] {
      EntryIsClean(entries[0], depth);
      if |entries| > 1 {
        ShapedTail(entries, depth);
        AllClean(entries[1..], depth);
      }
    }
  }

  // ----- Reading printed lines -----

  /** The two keys whose scalars are read as they stand. */
  predicate IsProse(key: string) { key == "name" || key == "description" }

  predicate NoProse(entries: seq<Entry>) { forall i :: 0 <= i < |entries| ==> !IsProse(entries[i].key) }

  lemma {:induction false} ReadAllAppend(stack: seq<Frame>, a: seq<string>, b: seq<string>)
    requires stack != []
    ensures ReadAll(stack, a + b) ==
            match ReadAll(stack, a) case None => None case Some(next) => ReadAll(next, b)
    decreases a
  {
    hide ReadLine;
    if a == [] {
      assert a + b == b;
    } else {
      assert (a + b)[1..] == a[1..] + b;
      var next := ReadLine(stack, a[0]);
      if next.Some? { ReadAllAppend(next.value, a[1..], b); }
    }
  }

  function Extended(f: Frame, entries: seq<Entry>): Frame { Frame(f.key, f.entries + entries) }

  /** The result of reading the lines of `entries` into the mapping that is open at `depth`. */
  predicate Took(stack: seq<Frame>, depth: nat, entries: seq<Entry>, r: Option<seq<Frame>>)
  {
    depth < |stack| && r.Some? && depth < |r.value|
    && Close(r.value, depth) == Close(stack, depth)[..depth] + [Extended(Close(stack, depth)[depth], entries)]
  }

  predicate NoneOf(keys: seq<Entry>, entries: seq<Entry>)
  {
    forall i :: 0 <= i < |keys| ==> !HasKey(entries, keys[i].key)
  }

  lemma {:induction false} ReadsEntry(stack: seq<Frame>, depth: nat, e: Entry)
    requires depth < |stack| && depth <= 2 && Word(e.key) && ShapedValue(e.value, depth + 1) && UnbrokenValue(e.value)
    requires depth == 0 ==> !IsProse(e.key)
    requires !HasKey(Close(stack, depth)[depth].entries, e.key)
    ensures Took(stack, depth, [e], ReadAll(stack, EntryLines(e, depth)))
    decreases e, 0
  {
    hide ReadLine, Close, LineOf, Stringify, Lines, Shaped, AllUnbroken, HasKey, Word, IsProse;
    var open := Close(stack, depth);
    match e.value
    case Scalar(text) =>
      ReadScalarLine(stack, depth, e.key, text);
      var next := open[..depth] + [Add(open[depth], e)];
      ReadsOne(stack, LineOf(depth, e.key, " " + Stringify(text)), next);
      CloseAll(next, depth);
    case Group(sub) =>
      ReadGroupLine(stack, depth, e.key);
      var next := open + [Frame(e.key, [])];
      CloseAll(next, depth + 1);
      assert NoneOf(sub, next[depth + 1].entries) by { NothingIn(sub); }
      ReadsEntries(next, depth + 1, sub);
      var line := LineOf(depth, e.key, "");
      ReadsFirst(stack, line, Lines(sub, depth + 1), next);
      var last := ReadAll(next, Lines(sub, depth + 1)).value;
      assert [] + sub == sub;
      assert Close(last, depth + 1) == open + [Frame(e.key, sub)];
      CloseAll(last, depth + 1);
      CloseOne(open, Frame(e.key, sub));
  }

  lemma NothingIn(keys: seq<Entry>)
    ensures NoneOf(keys, [])
  {
  }

  lemma ReadsOne(stack: seq<Frame>, line: string, next: seq<Frame>)
    requires stack != [] && ReadLine(stack, line) == Some(next)
    ensures ReadAll(stack, [line]) == Some(next)
  {
    hide ReadLine;
    assert [line][1..] == [];
  }

  lemma ReadsFirst(stack: seq<Frame>, line: string, rest: seq<string>, next: seq<Frame>)
    requires stack != [] && ReadLine(stack, line) == Some(next)
    ensures ReadAll(stack, [line] + rest) == ReadAll(next, rest)
  {
    hide ReadLine;
    assert ([line] + rest)[1..] == rest;
  }

  lemma BlankIsSkipped(stack: seq<Frame>)
    requires stack != []
    ensures ReadAll(stack, [""]) == Some(stack)
  {
    ReadsOne(stack, "", stack);
  }

  /** The lines of a mapping add exactly its entries, in order, to the mapping open at their depth. */
  lemma {:induction false} ReadsEntries(stack: seq<Frame>, depth: nat, entries: seq<Entry>)
    requires depth < |stack| && Shaped(entries, depth) && AllUnbroken(entries)
    requires depth == 0 ==> NoProse(entries)
    requires NoneOf(entries, Close(stack, depth)[depth].entries)
    ensures Took(stack, depth, entries, ReadAll(stack, Lines(entries, depth)))
    decreases entries, 1
  {
    hide ReadAll, Close, EntryLines, HasKey, IsProse, Word, DistinctKeys;
    var f := Close(stack, depth)[depth];
    if entries == [] {
      BlankIsSkipped(stack);
      assert f.entries + entries == f.entries;
    } else {
      assert ShapedValue(entries[0].value, depth + 1);
      ReadsEntry(stack, depth, entries[0]);
      assert entries == [entries[0]] + entries[1..];
      if |entries| > 1 {
        var next := ReadAll(stack, EntryLines(entries[0], depth)).value;
        ShapedTail(entries, depth);
        UnbrokenTail(entries);
        assert Close(next, depth)[depth].entries == f.entries + [entries[0]];
        assert NoneOf(entries[1..], f.entries);
        NoneOfMore(entries[1..], f.entries, entries[0]);
        ReadsEntries(next, depth, entries[1..]);
        ReadAllAppend(stack, EntryLines(entries[0], depth), Lines(entries[1..], depth));
        assert f.entries + [entries[0]] + entries[1..] == f.entries + entries;
      } else {
        assert entries == [entries[0]];
      }
    }
  }

  lemma NoneOfMore(keys: seq<Entry>, entries: seq<Entry>, e: Entry)
    requires NoneOf(keys, entries)
    requires forall i :: 0 <= i < |keys| ==> keys[i].key != e.key
    ensures NoneOf(keys, entries + [e])
  {
  }

  // ----- Lines the reader refuses -----

  /** No stack lets the reader past this line. */
  predicate Torn(line: string) { !Skipped(line) && ParseLine(line).None? }

  lemma {:induction false} TornStops(stack: seq<Frame>, lines: seq<string>)
    requires stack != []
    requires exists l :: l in lines && Torn(l)
    ensures ReadAll(stack, lines).None?
    decreases lines
  {
    hide Skipped, ParseLine, Close, ReadScalar;
    if !Torn(lines[0]) {
      assert exists l :: l in lines[1..] && Torn(l);
      var next := ReadLine(stack, lines[0]);
      if next.Some? { TornStops(next.value, lines[1..]); }
    }
  }

  lemma {:induction false} BrokenEntryIsTorn(e: Entry, depth: nat)
    requires Word(e.key) && ShapedValue(e.value, depth + 1) && !UnbrokenValue(e.value)
    ensures exists l :: l in EntryLines(e, depth) && Torn(l)
    decreases e, 0
  {
    hide Skipped, ParseLine, LineOf, Stringify, AfterKey, Lines, Unbroken, Shaped, AllUnbroken, Word;
    match e.value
    case Scalar(text) =>
      var line := LineOf(depth, e.key, " " + Stringify(text));
      KeyIsParsed(depth, e.key, " " + Stringify(text));
      assert ":" + (" " + Stringify(text)) == ": " + Stringify(text);
      ScalarIsParsed(2 * depth, e.key, text);
      assert Torn(line) && line in EntryLines(e, depth);
    case Group(sub) =>
      BrokenIsTorn(sub, depth + 1);
      var l :| l in Lines(sub, depth + 1) && Torn(l);
      assert l in EntryLines(e, depth);
  }

  /** A text with a line separator is printed on a line that cannot be read. */
  lemma {:induction false} BrokenIsTorn(entries: seq<Entry>, depth: nat)
    requires Shaped(entries, depth) && !AllUnbroken(entries)
    ensures exists l :: l in Lines(entries, depth) && Torn(l)
    decreases entries, 1
  {
    hide Torn, EntryLines, UnbrokenValue, Word;
    if UnbrokenValue(entries[0].value) {
      UnbrokenTail(entries);
      ShapedTail(entries, depth);
      BrokenIsTorn(entries[1..], depth);
    } else {
      BrokenEntryIsTorn(entries[0], depth);
    }
  }

  // ----- What the reader can return -----

  lemma {:induction false} WordsAreWords(s: string)
    ensures forall i :: 0 <= i < Words(s) ==> IsWord(s[i])
  {
    if s != "" && IsWord(s[0]) { WordsAreWords(s[1..]); }
  }

  lemma ParsedKeyIsWord(line: string)
    requires ParseLine(line).Some?
    ensures Word(ParseLine(line).value.key)
  {
    var s := line[Spaces(line)..];
    WordsAreWords(s);
    WordsAreWords(s[1..]);
  }

  /** Every open mapping is shaped, and has not yet got the key of the mapping open inside it. */
  predicate Built(stack: seq<Frame>)
  {
    1 <= |stack| <= 4
    && (forall k :: 0 <= k < |stack| ==> Shaped(stack[k].entries, k))
    && (forall k :: 0 < k < |stack| ==> Word(stack[k].key) && !HasKey(stack[k - 1].entries, stack[k].key))
  }

  lemma ShapedMore(entries: seq<Entry>, depth: nat, e: Entry)
    requires Shaped(entries, depth) && depth <= 2
    requires Word(e.key) && ShapedValue(e.value, depth + 1) && !HasKey(entries, e.key)
    ensures Shaped(entries + [e], depth)
  {
    hide Word;
    var more := entries + [e];
    forall i | 0 <= i < |more| ensures Word(more[i].key) && ShapedValue(more[i].value, depth + 1) {
      if i < |entries| { assert more[i] == entries[i]; }
    }
  }

  lemma {:induction false} CloseKeepsBuilt(stack: seq<Frame>, depth: nat)
    requires Built(stack) && depth < |stack|
    ensures Built(Close(stack, depth))
    decreases |stack|
  {
    hide Word, HasKey, Shaped;
    var n := |stack| - 1;
    if n > depth {
      var e := Entry(stack[n].key, Group(stack[n].entries));
      ShapedMore(stack[n - 1].entries, n - 1, e);
      CloseKeepsBuilt(stack[..n - 1] + [Add(stack[n - 1], e)], depth);
    }
  }

  lemma BuiltWith(open: seq<Frame>, depth: nat, e: Entry)
    requires |open| == depth + 1 && depth <= 2 && Built(open)
    requires Word(e.key) && e.value.Scalar? && !HasKey(open[depth].entries, e.key)
    ensures Built(open[..depth] + [Add(open[depth], e)])
  {
    hide Word, HasKey, Shaped;
    ShapedMore(open[depth].entries, depth, e);
  }

  lemma ReadLineKeepsBuilt(stack: seq<Frame>, line: string)
    requires Built(stack)
    ensures ReadLine(stack, line).Some? ==> Built(ReadLine(stack, line).value)
  {
    hide Word, HasKey, Close, ReadScalar, ParseLine, Skipped, Built;
    assert stack != [] by { BuiltIsOpen(stack); }
    if !Skipped(line) && ParseLine(line).Some? {
      var p := ParseLine(line).value;
      ParsedKeyIsWord(line);
      var depth := p.indent / 2;
      if depth < |stack| && depth <= 2 {
        var open := Close(stack, depth);
        CloseKeepsBuilt(stack, depth);
        if !HasKey(open[depth].entries, p.key) {
          OpenMore(open, depth, p.key);
          forall t ensures Built(open[..depth] + [Add(open[depth], Entry(p.key, Scalar(t)))]) {
            BuiltWith(open, depth, Entry(p.key, Scalar(t)));
          }
        }
      }
    }
  }

  lemma BuiltIsOpen(stack: seq<Frame>)
    requires Built(stack)
    ensures stack != []
  {
  }

  lemma OpenMore(open: seq<Frame>, depth: nat, key: string)
    requires |open| == depth + 1 && depth <= 2 && Built(open)
    requires Word(key) && !HasKey(open[depth].entries, key)
    ensures Built(open + [Frame(key, [])])
  {
    hide Word, HasKey;
    assert Shaped([], depth + 1);
  }

  lemma {:induction false} ReadAllKeepsBuilt(stack: seq<Frame>, lines: seq<string>)
    requires Built(stack)
    ensures ReadAll(stack, lines).Some? ==> Built(ReadAll(stack, lines).value)
    decreases lines
  {
    hide ReadLine, Shaped, HasKey, Word;
    if lines != [] {
      ReadLineKeepsBuilt(stack, lines[0]);
      var next := ReadLine(stack, lines[0]);
      if next.Some? { ReadAllKeepsBuilt(next.value, lines[1..]); }
    }
  }

  lemma {:induction false} GroupsAreEntries(entries: seq<Entry>)
    ensures forall e :: e in Groups(entries) ==> e in entries
    ensures Rooted(Groups(entries))
  {
    hide IsGroup;
    if entries != [] {
      GroupsAreEntries(entries[1..]);
      assert forall e :: e in entries[1..] ==> e in entries;
    }
  }

  lemma {:induction false} GroupsAreAll(entries: seq<Entry>)
    requires Rooted(entries)
    ensures Groups(entries) == entries
  {
    hide IsGroup;
    if entries != [] {
      assert Rooted(entries[1..]);
      GroupsAreAll(entries[1..]);
      assert entries == [entries[0]] + entries[1..];
    }
  }

  lemma ShapedCons(e: Entry, rest: seq<Entry>)
    requires Word(e.key) && ShapedValue(e.value, 1) && Shaped(rest, 0)
    requires forall r :: r in rest ==> r.key != e.key
    ensures Shaped([e] + rest, 0)
  {
    hide Word, ShapedValue;
    var all := [e] + rest;
    assert forall i :: 0 < i < |all| ==> all[i] == rest[i - 1] && all[i] in rest;
  }

  lemma {:induction false} GroupsAreShaped(entries: seq<Entry>)
    requires Shaped(entries, 0)
    ensures Shaped(Groups(entries), 0)
  {
    hide Word, IsGroup, ShapedValue, DistinctKeys;
    if entries != [] {
      ShapedTail(entries, 0);
      GroupsAreShaped(entries[1..]);
      GroupsAreEntries(entries[1..]);
      assert forall e :: e in entries[1..] ==> e.key != entries[0].key;
      ShapedCons(entries[0], Groups(entries[1..]));
      assert [] + Groups(entries[1..]) == Groups(entries[1..]);
    }
  }

  /** Whatever the document, what is read has distinct word keys, three levels and the four groups. */
  lemma ReadIsShaped(document: string)
    ensures var r := ReadDesignTokens(document); r.Some? ==> Shaped(r.value, 0) && Rooted(r.value)
  {
    hide ReadAll, Normalised, Split, FirstFence, Groups, Close, Shaped, Rooted, IsAllowed;
    var block := FrontMatter(document);
    if block.Some? {
      var lines := Split(Normalised(block.value), '\n');
      var start := [Frame("", [])];
      assert Built(start) by { EmptyIsShaped(); }
      ReadAllKeepsBuilt(start, lines);
      var stack := ReadAll(start, lines);
      if stack.Some? {
        CloseKeepsBuilt(stack.value, 0);
        var root := Close(stack.value, 0)[0].entries;
        GroupsAreShaped(root);
        GroupsAreEntries(root);
      }
    }
  }

  lemma EmptyIsShaped()
    ensures Shaped([], 0)
  {
  }

  // ----- Documents -----

  /** A design document: the printed tokens as front matter, and the narrative. */
  function Document(tree: seq<Entry>, narrative: string): string
  {
    "---\n" + (Render(tree, 0) + ("\n---\n" + narrative))
  }

  lemma FirstPartOf(rest: string)
    requires "---" <= rest && (|rest| == 3 || rest[3] == '\n')
    ensures "---" in Split(rest, '\n')
  {
    hide Split;
    if |rest| == 3 {
      assert rest == "---";
      SplitWhole("---", '\n');
    } else {
      assert rest == "---" + ['\n'] + rest[4..];
      SplitAppend("---", '\n', rest[4..]);
    }
  }

  /** A fence inside the block is a line of three dashes. */
  lemma FenceInside(block: string, narrative: string, k: nat)
    requires k < |block| && '\r' !in block
    ensures FenceAt(block + ("\n---\n" + narrative), k) ==> "---" in Split(block, '\n')
  {
    hide Split;
    var s := block + ("\n---\n" + narrative);
    if FenceAt(s, k) {
      assert s[k] == block[k] && block[k] in block;
      var t := s[k..];
      assert t[0] == '\n' && t[1] == '-' && t[2] == '-' && t[3] == '-';
      assert s[|block|] == '\n' && s[k + 1] == '-' && s[k + 2] == '-' && s[k + 3] == '-';
      if k + 4 < |block| { assert t[4] == block[k + 4] && block[k + 4] in block; }
      DashesInside(block, k);
    }
  }

  lemma DashesInside(block: string, k: nat)
    requires k + 4 <= |block| && block[k] == '\n' && block[k + 1] == '-' && block[k + 2] == '-' && block[k + 3] == '-'
    requires k + 4 == |block| || block[k + 4] == '\n'
    ensures "---" in Split(block, '\n')
  {
    hide Split;
    var rest := block[k + 1..];
    assert rest[..3] == "---";
    FirstPartOf(rest);
    SplitConcat(block[..k], '\n', rest);
    assert block == block[..k] + (['\n'] + rest);
  }

  lemma FrontMatterIs(block: string, narrative: string)
    requires '\r' !in block && "---" !in Split(block, '\n')
    ensures FrontMatter("---\n" + (block + ("\n---\n" + narrative))) == Some(block)
  {
    hide FenceAt, Split;
    var s := block + ("\n---\n" + narrative);
    var document := "---\n" + s;
    assert document[4..] == s;
    assert FenceAt(s, |block|) by { FenceBehind(block, narrative); }
    forall k: nat | k < |block| ensures !FenceAt(s, k) { FenceInside(block, narrative, k); }
    var i := FirstFence(s, 0);
    assert i == Some(|block|);
    assert s[..|block|] == block;
  }

  lemma FenceBehind(block: string, narrative: string)
    ensures FenceAt(block + ("\n---\n" + narrative), |block|)
  {
    var s := block + ("\n---\n" + narrative);
    assert s[|block|..] == "\n---\n" + narrative;
  }

  lemma NoReturns(s: string)
    requires '\r' !in s
    ensures Normalised(s) == s
  {
    assert !ChunkInvariance.HasCrLf(s) by {
      forall i: nat ensures !ChunkInvariance.CrLfAt(s, i) { }
    }
    ChunkInvariance.NormalisedFixes(s);
  }

  lemma {:induction false} CleanJoin(lines: seq<string>)
    requires forall l :: l in lines ==> Clean(l)
    ensures '\r' !in Join(lines, "\n")
  {
    if lines != [] { assert Clean(lines[0]); }
    if |lines| > 1 {
      assert forall l :: l in lines[1..] ==> l in lines;
      CleanJoin(lines[1..]);
    }
  }

  /** The reader sees the printed lines. */
  lemma DocumentLines(tree: seq<Entry>, narrative: string)
    requires Shaped(tree, 0)
    ensures ReadDesignTokens(Document(tree, narrative)) == ReadBlock(Lines(tree, 0))
  {
    hide Shaped, Lines, Render, ReadBlock, FrontMatter, Split, Join, Normalised;
    var lines := Lines(tree, 0);
    var block := Render(tree, 0);
    AllClean(tree, 0);
    IsPrinted(tree, 0);
    CleanJoin(lines);
    SplitJoin(lines, '\n');
    FrontMatterIs(block, narrative);
    NoReturns(block);
  }

  lemma RootedIsAllowed(tree: seq<Entry>)
    requires Rooted(tree)
    ensures NoProse(tree)
    ensures forall i :: 0 <= i < |tree| ==> IsAllowed(tree[i].key)
  {
  }

  /** Reading a document gives back the tree it was printed from exactly if the tree is readable. */
  lemma ReadsBackExactly(tree: seq<Entry>, narrative: string)
    ensures ReadDesignTokens(Document(tree, narrative)) == Some(tree) <==> Readable(tree)
  {
    hide ReadDesignTokens, Document, ReadAll, Lines, Shaped, AllUnbroken, Rooted, Close, Groups, IsAllowed;
    ReadIsShaped(Document(tree, narrative));
    if Shaped(tree, 0) && Rooted(tree) {
      DocumentLines(tree, narrative);
      var start := [Frame("", [])];
      if AllUnbroken(tree) {
        CloseAll(start, 0);
        NothingIn(tree);
        RootedIsAllowed(tree);
        ReadsEntries(start, 0, tree);
        GroupsAreAll(tree);
        assert [] + tree == tree;
      } else {
        BrokenIsTorn(tree, 0);
        TornStops(start, Lines(tree, 0));
      }
    }
  }
}
