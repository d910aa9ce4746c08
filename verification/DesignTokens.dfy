/**
 * The front matter of DESIGN.md: the printer of token groups and the reader of the mapping subset it
 * prints (packages/design-tokens/src/design-document.ts). A mapping is the sequence of its entries in
 * the order they were added.
 */
module DesignTokens {
  import opened Options
  import opened Text
  import opened JsNumber
  import opened JsonText

  datatype Value = Scalar(text: string) | Group(entries: seq<Entry>)

  datatype Entry = Entry(key: string, value: Value)

  // ----- Printing -----

  function Indent(depth: nat): string { if depth == 0 then "" else "  " + Indent(depth - 1) }

  predicate AllDigits(s: string) { s != "" && forall i :: 0 <= i < |s| ==> IsDigit(s[i]) }

  /** A key as printed: quoted when it would read as a number. */
  function KeyText(key: string): string { if AllDigits(key) then Stringify(key) else key }

  /** The inner `render` of the refresh: entries joined by line feeds, groups one level deeper. */
  function Render(entries: seq<Entry>, depth: nat): string
    decreases entries, 1
  {
    if entries == [] then ""
    else if |entries| == 1 then RenderEntry(entries[0], depth)
    else RenderEntry(entries[0], depth) + "\n" + Render(entries[1..], depth)
  }

  function RenderEntry(e: Entry, depth: nat): string
    decreases e, 0
  {
    Indent(depth) + KeyText(e.key) + ":"
    + match e.value case Scalar(text) => " " + Stringify(text) case Group(sub) => "\n" + Render(sub, depth + 1)
  }

  // ----- The lines of the reader -----

  predicate IsWord(c: char) { 'a' <= c <= 'z' || 'A' <= c <= 'Z' || IsDigit(c) || c == '_' || c == '-' }

  /** The characters `.` does not match. */
  predicate IsLineEnd(c: char) { c == '\n' || c == '\r' || c == '\U{2028}' || c == '\U{2029}' }

  function Spaces(s: string): (n: nat)
    ensures n <= |s|
  {
    if s != "" && s[0] == ' ' then 1 + Spaces(s[1..]) else 0
  }

  function Words(s: string): (n: nat)
    ensures n <= |s|
  {
    if s != "" && IsWord(s[0]) then 1 + Words(s[1..]) else 0
  }

  datatype Line = Line(indent: nat, key: string, value: Option<string>)

  /** What follows the key: a colon alone, or a colon, a space and the rest of the line. */
  function AfterKey(indent: nat, key: string, s: string): Option<Line>
  {
    if s == ":" then Some(Line(indent, key, None))
    else if ": " <= s && forall i :: 2 <= i < |s| ==> !IsLineEnd(s[i]) then Some(Line(indent, key, Some(s[2..])))
    else None
  }

  /** `/^( *)([\w-]+|"[\w-]+"|'[\w-]+'):(?: (.*))?$/`, with the quotes of the key taken off. */
  function ParseLine(line: string): Option<Line>
  {
    var indent := Spaces(line);
    var s := line[indent..];
    if s == "" then None
    else if s[0] == '"' || s[0] == '\'' then
      var n := Words(s[1..]);
      if n == 0 || n + 1 >= |s| || s[n + 1] != s[0] then None else AfterKey(indent, s[1..n + 1], s[n + 2..])
    else
      var n := Words(s);
      if n == 0 then None else AfterKey(indent, s[..n], s[n..])
  }

  /** The body of a single-quoted scalar: quotes doubled inside. */
  function SingleQuoted(s: string): Option<string>
    decreases |s|
  {
    if s == "" then None
    else if s[0] != '\'' then
      match SingleQuoted(s[1..]) case None => None case Some(t) => Some([s[0]] + t)
    else if |s| == 1 then Some("")
    else if s[1] == '\'' then
      match SingleQuoted(s[2..]) case None => None case Some(t) => Some("'" + t)
    else None
  }

  function DigitRun(s: string): (n: nat)
    ensures n <= |s|
  {
    if s != "" && IsDigit(s[0]) then 1 + DigitRun(s[1..]) else 0
  }

  /** `/^-?\d+(?:\.\d+)?$/`. */
  predicate IsNumeral(s: string)
  {
    var t := if s != "" && s[0] == '-' then s[1..] else s;
    var n := DigitRun(t);
    n > 0 && (n == |t| || (t[n] == '.' && n + 1 < |t| && DigitRun(t[n + 1..]) == |t| - n - 1))
  }

  /** A scalar, or `None` where the reader throws. */
  function ReadScalar(raw: string): Option<string>
  {
    if raw != "" && raw[0] == '"' then ParseString(raw)
    else if raw != "" && raw[0] == '\'' then SingleQuoted(raw[1..])
    else if IsNumeral(raw) then Some(raw)
    else None
  }

  // ----- The stack of open mappings -----

  /** An open mapping: the key it will have in its parent, and its entries so far. */
  datatype Frame = Frame(key: string, entries: seq<Entry>)

  function Add(f: Frame, e: Entry): Frame { Frame(f.key, f.entries + [e]) }

  /** `stack.length = depth + 1`: every deeper mapping is complete and belongs to its parent. */
  function Close(stack: seq<Frame>, depth: nat): (r: seq<Frame>)
    requires depth < |stack|
    ensures |r| == depth + 1
    ensures r[..depth] == stack[..depth]
    decreases |stack|
  {
    var n := |stack| - 1;
    if n == depth then stack
    else Close(stack[..n - 1] + [Add(stack[n - 1], Entry(stack[n].key, Group(stack[n].entries)))], depth)
  }

  predicate HasKey(entries: seq<Entry>, key: string) { exists i :: 0 <= i < |entries| && entries[i].key == key }

  predicate Skipped(line: string) { Trim(line) == "" || TrimStart(line)[0] == '#' }

  /** One line, on the stack of open mappings; `None` where the reader throws. */
  function ReadLine(stack: seq<Frame>, line: string): (r: Option<seq<Frame>>)
    requires stack != []
    ensures r.Some? ==> r.value != []
  {
    if Skipped(line) then Some(stack)
    else
      match ParseLine(line)
      case None => None
      case Some(p) =>
        var depth := p.indent / 2;
        if p.indent % 2 != 0 || depth >= |stack| || depth > 2 then None
        else
          var open := Close(stack, depth);
          var parent := open[depth];
          if HasKey(parent.entries, p.key) then None
          else if p.value.None? then Some(open + [Frame(p.key, [])])
          else
            var text := if depth == 0 && (p.key == "name" || p.key == "description") then p.value else ReadScalar(p.value.value);
            match text
            case None => None
            case Some(t) => Some(open[..depth] + [Add(parent, Entry(p.key, Scalar(t)))])
  }

  function ReadAll(stack: seq<Frame>, lines: seq<string>): (r: Option<seq<Frame>>)
    requires stack != []
    ensures r.Some? ==> r.value != []
    decreases lines
  {
    if lines == [] then Some(stack)
    else match ReadLine(stack, lines[0]) case None => None case Some(next) => ReadAll(next, lines[1..])
  }

  // ----- Documents -----

  predicate IsGroup(key: string) { key == "colors" || key == "typography" || key == "rounded" || key == "spacing" }

  predicate IsAllowed(key: string) { IsGroup(key) || key == "name" || key == "description" || key == "components" }

  function Groups(entries: seq<Entry>): seq<Entry>
  {
    if entries == [] then [] else (if IsGroup(entries[0].key) then [entries[0]] else []) + Groups(entries[1..])
  }

  /** A closing fence starts at `i`: an end of line, three dashes and another end of line or the end. */
  predicate FenceAt(s: string, i: nat)
  {
    i <= |s| &&
    var t := if i + 1 < |s| && s[i] == '\r' && s[i + 1] == '\n' then s[i + 1..] else s[i..];
    "\n---" <= t && (|t| == 4 || t[4] == '\n' || (|t| > 5 && t[4] == '\r' && t[5] == '\n'))
  }

  /** The first closing fence at or behind `i`, or `None`. */
  function FirstFence(s: string, i: nat): (r: Option<nat>)
    requires i <= |s|
    ensures r.Some? ==> i <= r.value <= |s| && FenceAt(s, r.value)
    ensures forall k: nat :: i <= k < (if r.Some? then r.value else |s|) ==> !FenceAt(s, k)
    decreases |s| - i
  {
    if FenceAt(s, i) then Some(i) else if i == |s| then None else FirstFence(s, i + 1)
  }

  function FrontMatter(document: string): Option<string>
  {
    if "---\n" <= document then
      var s := document[4..];
      match FirstFence(s, 0) case None => None case Some(i) => Some(s[..i])
    else if "---\r\n" <= document then
      var s := document[5..];
      match FirstFence(s, 0) case None => None case Some(i) => Some(s[..i])
    else None
  }

  /** `readDesignTokens`: the token groups, or `None` where it throws. */
  function ReadDesignTokens(document: string): Option<seq<Entry>>
  {
    match FrontMatter(document)
    case None => None
    case Some(block) => ReadBlock(Split(Normalised(block), '\n'))
  }

  function ReadBlock(lines: seq<string>): Option<seq<Entry>>
  {
    match ReadAll([Frame("", [])], lines)
    case None => None
    case Some(stack) =>
      var root := Close(stack, 0)[0].entries;
      if forall i :: 0 <= i < |root| ==> IsAllowed(root[i].key) then Some(Groups(root)) else None
  }

  method Read(document: string) returns (tokens: Option<seq<Entry>>)
    ensures tokens == ReadDesignTokens(document)
  {
    hide Normalised, Split, FrontMatter, ReadBlock;
    var block := FrontMatter(document);
    if block.None? { return None; }
    tokens := ReadLines(Split(Normalised(block.value), '\n'));
  }

  method ReadLines(lines: seq<string>) returns (tokens: Option<seq<Entry>>)
    ensures tokens == ReadBlock(lines)
  {
    hide ReadLine, ReadAll, Close, Groups, IsAllowed;
    var start := [Frame("", [])];
    var stack := start;
    for k := 0 to |lines|
      invariant stack != []
      invariant ReadAll(stack, lines[k..]) == ReadAll(start, lines)
    {
      ReadAllStep(stack, lines[k..]);
      assert lines[k..][0] == lines[k] && lines[k..][1..] == lines[k + 1..];
      var next := ReadLine(stack, lines[k]);
      if next.None? { return None; }
      stack := next.value;
    }
    ReadAllStep(stack, []);
    var root := Close(stack, 0)[0].entries;
    for k := 0 to |root|
      invariant forall i :: 0 <= i < k ==> IsAllowed(root[i].key)
    {
      if !IsAllowed(root[k].key) { return None; }
    }
    return Some(Groups(root));
  }

  lemma ReadAllStep(stack: seq<Frame>, lines: seq<string>)
    requires stack != []
    ensures ReadAll(stack, lines)
            == if lines == [] then Some(stack)
               else match ReadLine(stack, lines[0]) case None => None case Some(next) => ReadAll(next, lines[1..])
  {
    hide ReadLine;
  }
}
