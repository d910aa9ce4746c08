/**
 * What the incremental parser returns does not depend on where the network cut the stream, exactly
 * when the stream has no carriage return before a CRLF (packages/realtime/src/wire.ts:87-119).
 */
module ChunkInvariance {
  import opened Options
  import opened Text
  import opened Wire

  function Concat(chunks: seq<string>): string
  {
    if chunks == [] then "" else chunks[0] + Concat(chunks[1..])
  }

  /** The blocks one `push` completes and the buffer it leaves. */
  function PushBlocks(buffer: string, chunk: string): Cut { Blocks(Normalised(buffer + chunk)) }

  /** Successive pushes into one parser: all blocks in order, and the final buffer. */
  function PushAll(buffer: string, chunks: seq<string>): (c: Cut)
    decreases chunks
  {
    if chunks == [] then Cut([], buffer)
    else
      var first := PushBlocks(buffer, chunks[0]);
      var later := PushAll(first.rest, chunks[1..]);
      Cut(first.blocks + later.blocks, later.rest)
  }

  predicate CrLfAt(s: string, i: nat) { i + 1 < |s| && s[i] == '\r' && s[i + 1] == '\n' }

  predicate CrCrLfAt(s: string, i: nat) { i + 2 < |s| && s[i] == '\r' && s[i + 1] == '\r' && s[i + 2] == '\n' }

  ghost predicate HasCrLf(s: string) { exists i: nat :: CrLfAt(s, i) }

  ghost predicate HasCrCrLf(s: string) { exists i: nat :: CrCrLfAt(s, i) }

  // ----- Normalisation -----

  /** One step of the pass. */
  lemma NormalisedStep(s: string)
    ensures Normalised(s) == if s == "" then "" else if CrLfAt(s, 0) then "\n" + Normalised(s[2..])
                             else [s[0]] + Normalised(s[1..])
  {
  }

  /** A text with no CRLF is left alone. */
  lemma {:induction false} NormalisedFixes(s: string)
    requires !HasCrLf(s)
    ensures Normalised(s) == s
  {
    if s != "" {
      assert !CrLfAt(s, 0);
      assert !HasCrLf(s[1..]) by {
        forall i: nat ensures !CrLfAt(s[1..], i) { assert !CrLfAt(s, i + 1); }
      }
      NormalisedFixes(s[1..]);
      assert s == [s[0]] + s[1..];
    }
  }

  lemma NormalisedCons(c: char, rest: string)
    ensures c == '\r' && rest != "" && rest[0] == '\n' ==> Normalised([c] + rest) == "\n" + Normalised(rest[1..])
    ensures !(c == '\r' && rest != "" && rest[0] == '\n') ==> Normalised([c] + rest) == [c] + Normalised(rest)
    ensures Normalised("") == ""
  {
    hide Normalised;
    var s := [c] + rest;
    NormalisedStep(s);
    NormalisedStep("");
    assert s[1..] == rest;
    if rest != "" { assert s[2..] == rest[1..]; }
  }

  lemma Associates(a: string, b: string, c: string)
    ensures a + (b + c) == a + b + c
  {
  }

  /** Normalisation distributes over a cut that does not fall inside a CRLF. */
  lemma {:induction false} NormalisedAppend(a: string, b: string)
    requires !(a != "" && b != "" && a[|a| - 1] == '\r' && b[0] == '\n')
    ensures Normalised(a + b) == Normalised(a) + Normalised(b)
    decreases |a|
  {
    hide Normalised;
    NormalisedCons('\n', "");
    if a == "" {
      assert a + b == b;
      return;
    }
    var c, rest := a[0], a[1..];
    assert a == [c] + rest && a + b == [c] + (rest + b);
    NormalisedCons(c, rest);
    NormalisedCons(c, rest + b);
    assert rest != "" ==> rest[|rest| - 1] == a[|a| - 1] && (rest + b)[0] == rest[0];
    if c == '\r' && rest != "" && rest[0] == '\n' {
      var more := rest[1..];
      assert more != "" ==> more[|more| - 1] == a[|a| - 1];
      assert (rest + b)[1..] == more + b;
      NormalisedAppend(more, b);
      Associates("\n", Normalised(more), Normalised(b));
    } else {
      NormalisedAppend(rest, b);
      Associates([c], Normalised(rest), Normalised(b));
    }
  }

  lemma {:induction false} NormalisedEnds(s: string)
    requires s != ""
    ensures Normalised(s) != ""
    ensures Normalised(s)[|Normalised(s)| - 1] == s[|s| - 1]
    ensures s[0] != '\r' ==> Normalised(s)[0] == s[0]
    ensures Normalised(s)[0] == '\n' ==> s[0] == '\n' || CrLfAt(s, 0)
  {
    if CrLfAt(s, 0) {
      if |s| > 2 { NormalisedEnds(s[2..]); }
    } else if |s| > 1 {
      NormalisedEnds(s[1..]);
    }
  }

  /** The only CRLF a normalisation can leave behind comes from a carriage return before a CRLF. */
  lemma {:induction false} NormalisedClean(s: string)
    requires !HasCrCrLf(s)
    ensures !HasCrLf(Normalised(s))
  {
    if s != "" {
      var k := if CrLfAt(s, 0) then 2 else 1;
      assert !HasCrCrLf(s[k..]) by {
        forall i: nat ensures !CrCrLfAt(s[k..], i) { assert !CrCrLfAt(s, i + k); }
      }
      NormalisedClean(s[k..]);
      var n := Normalised(s);
      assert n[1..] == Normalised(s[k..]);
      assert !CrLfAt(n, 0) by {
        assert !CrCrLfAt(s, 0);
        if |s| > k { NormalisedEnds(s[k..]); }
      }
      forall i: nat ensures !CrLfAt(n, i) {
        if i > 0 { assert !CrLfAt(n[1..], i - 1); }
      }
    }
  }

  /** Normalising a text again after more has arrived gives what normalising it whole gives. */
  lemma NormalisedAgain(a: string, c: string)
    requires !HasCrCrLf(a)
    ensures Normalised(Normalised(a) + c) == Normalised(a + c)
  {
    hide Normalised;
    NormalisedClean(a);
    NormalisedFixes(Normalised(a));
    if a == "" || c == "" || a[|a| - 1] != '\r' || c[0] != '\n' {
      NormalisedAppend(a, c);
      if a != "" { NormalisedEnds(a); }
      NormalisedStep("");
      NormalisedAppend(Normalised(a), c);
    } else {
      assert a == a[..|a| - 1] + "\r" && c == "\n" + c[1..];
      NormalisedAgainAtSeam(a[..|a| - 1], c[1..]);
    }
  }

  /** The same when the cut falls between a carriage return and its line feed. */
  lemma NormalisedAgainAtSeam(a: string, c: string)
    requires !HasCrCrLf(a + "\r")
    ensures Normalised(Normalised(a + "\r") + ("\n" + c)) == Normalised((a + "\r") + ("\n" + c))
  {
    hide Normalised, HasCrLf;
    var tail := "\r\n" + c;
    assert !HasCrCrLf(a) by {
      forall i: nat ensures !CrCrLfAt(a, i) { assert !CrCrLfAt(a + "\r", i); }
    }
    NormalisedClean(a);
    NormalisedFixes(Normalised(a));
    NormalisedAppend(a, "\r");
    NormalisedStep("\r");
    NormalisedStep("");
    assert Normalised("\r") == "\r";
    assert Normalised(a + "\r") + ("\n" + c) == Normalised(a) + tail;
    assert (a + "\r") + ("\n" + c) == a + tail;
    NormalisedAppend(a, tail);
    NormalisedAppend(Normalised(a), tail);
  }

  // ----- Blocks -----

  /** Blocks put back together, each with the blank line that ended it. */
  function Glue(blocks: seq<string>): string
  {
    if blocks == [] then "" else blocks[0] + "\n\n" + Glue(blocks[1..])
  }

  lemma BlocksStep(s: string)
    ensures var i := Boundary(s);
            Blocks(s) == if i == |s| then Cut([], s)
                         else Cut([s[..i]] + Blocks(s[i + 2..]).blocks, Blocks(s[i + 2..]).rest)
  {
    hide Boundary;
  }

  /** A text that continues behind a boundary has the same first boundary. */
  lemma BoundaryAppend(x: string, y: string)
    requires Boundary(x) != |x|
    ensures Boundary(x + y) == Boundary(x)
  {
    hide Boundary;
    var i := Boundary(x);
    assert BlankAt(x + y, i);
    forall j: nat | j < i ensures !BlankAt(x + y, j) { assert !BlankAt(x, j); }
  }

  /** Cutting a longer text: the blocks so far stay, and cutting resumes at the rest. */
  lemma {:induction false} BlocksAppend(x: string, y: string)
    ensures var c := Blocks(x);
            Blocks(x + y) == Cut(c.blocks + Blocks(c.rest + y).blocks, Blocks(c.rest + y).rest)
    decreases |x|
  {
    hide Boundary, Blocks;
    var i := Boundary(x);
    BlocksStep(x);
    if i != |x| {
      BoundaryAppend(x, y);
      BlocksStep(x + y);
      BlocksAppend(x[i + 2..], y);
      assert (x + y)[i + 2..] == x[i + 2..] + y;
      assert (x + y)[..i] == x[..i];
    }
  }

  /** Nothing is lost by cutting, and the rest holds no complete block. */
  lemma {:induction false} BlocksGlue(s: string)
    ensures var c := Blocks(s);
            && s == Glue(c.blocks) + c.rest
            && Blocks(Glue(c.blocks)) == Cut(c.blocks, "")
            && Boundary(c.rest) == |c.rest|
            && (Glue(c.blocks) == "" || BlankAt(Glue(c.blocks), |Glue(c.blocks)| - 2))
    decreases |s|
  {
    hide Boundary, Blocks, Glue;
    var i := Boundary(s);
    BlocksStep(s);
    GlueCons("", []);
    if i == |s| {
      EmptyHasNoBoundary();
      BlocksStep("");
    } else {
      var head, rest := s[..i], s[i + 2..];
      var later := Blocks(rest);
      BlocksGlue(rest);
      assert BlankAt(s, i);
      assert s == head + "\n\n" + rest;
      forall j: nat | j < i ensures !BlankAt(head + "\n\n", j) { assert !BlankAt(s, j); }
      BlocksAgain(head, later);
      GlueCons(head, later.blocks);
      GlueIsLong(later.blocks);
      EndsBlank(head + "\n\n", Glue(later.blocks));
      Associates(head + "\n\n", Glue(later.blocks), later.rest);
    }
  }

  lemma GlueIsLong(blocks: seq<string>)
    ensures Glue(blocks) == "" || |Glue(blocks)| >= 2
  {
  }

  lemma EndsBlank(head: string, tail: string)
    requires |head| >= 2 && BlankAt(head, |head| - 2)
    requires tail == "" || (|tail| >= 2 && BlankAt(tail, |tail| - 2))
    ensures BlankAt(head + tail, |head + tail| - 2)
  {
    if tail == "" { assert head + tail == head; }
  }

  lemma BlocksAgain(block: string, later: Cut)
    requires forall j: nat :: j < |block| ==> !BlankAt(block + "\n\n", j)
    requires Blocks(Glue(later.blocks)) == Cut(later.blocks, "")
    ensures Blocks(block + "\n\n" + Glue(later.blocks)) == Cut([block] + later.blocks, "")
  {
    hide Boundary, Blocks;
    var head := block + "\n\n";
    var whole := head + Glue(later.blocks);
    assert BlankAt(whole, |block|);
    forall j: nat | j < |block| ensures !BlankAt(whole, j) { assert !BlankAt(head, j); }
    assert Boundary(whole) == |block|;
    BlocksStep(whole);
    assert whole[|block| + 2..] == Glue(later.blocks);
    assert whole[..|block|] == block;
  }

  // ----- Invariance -----

  /**
   * One more push: after a text without CR CRLF has been pushed, pushing `c` adds exactly the blocks
   * that cutting the whole text at once finds, and leaves the same buffer.
   */
  lemma PushExtends(text: string, c: string)
    requires !HasCrCrLf(text)
    ensures var prior := Blocks(Normalised(text));
            var next := PushBlocks(prior.rest, c);
            PushBlocks("", text + c) == Cut(prior.blocks + next.blocks, next.rest)
  {
    hide Boundary, Blocks, Normalised;
    var n := Normalised(text);
    var prior := Blocks(n);
    var head := Glue(prior.blocks);
    NormalisedAgain(text, c);
    BlocksGlue(n);
    assert n + c == head + (prior.rest + c);
    NormalisedClean(text);
    assert !HasCrLf(head) by {
      forall i: nat ensures !CrLfAt(head, i) { assert !CrLfAt(n, i); }
    }
    NormalisedFixes(head);
    NormalisedAppend(head, prior.rest + c);
    BlocksAppend(head, Normalised(prior.rest + c));
    assert "" + Normalised(prior.rest + c) == Normalised(prior.rest + c);
    assert "" + (text + c) == text + c;
  }

  lemma CrCrLfInPrefix(a: string, b: string)
    requires HasCrCrLf(a)
    ensures HasCrCrLf(a + b)
  {
    var i: nat :| CrCrLfAt(a, i);
    assert CrCrLfAt(a + b, i);
  }

  /** Pushing the rest of a stream chunk by chunk, from the state the text so far left. */
  lemma {:induction false} PushAllExtends(text: string, chunks: seq<string>)
    requires !HasCrCrLf(text + Concat(chunks))
    ensures var prior := Blocks(Normalised(text));
            var later := PushAll(prior.rest, chunks);
            PushBlocks("", text + Concat(chunks)) == Cut(prior.blocks + later.blocks, later.rest)
    decreases chunks
  {
    hide Boundary, Blocks, Normalised;
    if chunks == [] {
      assert text + Concat(chunks) == text && "" + text == text;
    } else {
      var longer := text + chunks[0];
      assert text + Concat(chunks) == longer + Concat(chunks[1..]);
      if HasCrCrLf(text) { CrCrLfInPrefix(text, Concat(chunks)); }
      PushExtends(text, chunks[0]);
      PushAllExtends(longer, chunks[1..]);
      assert "" + longer == longer;
    }
  }

  /** However a stream without CR CRLF is cut, the parser completes the same blocks and holds back the same text. */
  lemma ChunkInvariant(s: string, chunks: seq<string>)
    requires !HasCrCrLf(s)
    requires Concat(chunks) == s
    ensures PushAll("", chunks) == PushBlocks("", s)
  {
    hide Boundary, Blocks, Normalised;
    assert "" + Concat(chunks) == s;
    PushAllExtends("", chunks);
    NormalisedStep("");
    assert Boundary("") == 0 by { EmptyHasNoBoundary(); }
    BlocksStep("");
  }

  lemma EmptyHasNoBoundary()
    ensures Boundary("") == 0
  {
  }

  // ----- Exactness -----

  /** The number of characters a cut accounts for. */
  function Size(c: Cut): nat { |Glue(c.blocks)| + |c.rest| }

  lemma GlueCons(block: string, rest: seq<string>)
    ensures Glue([block] + rest) == block + "\n\n" + Glue(rest)
    ensures Glue([]) == ""
  {
    assert ([block] + rest)[1..] == rest;
  }

  lemma {:induction false} GlueAppend(a: seq<string>, b: seq<string>)
    ensures Glue(a + b) == Glue(a) + Glue(b)
  {
    hide Glue;
    GlueCons("", []);
    if a == [] {
      assert a + b == b;
    } else {
      var block, rest := a[0], a[1..];
      GlueAppend(rest, b);
      assert a == [block] + rest && a + b == [block] + (rest + b);
      GlueCons(block, rest);
      GlueCons(block, rest + b);
      assert block + "\n\n" + (Glue(rest) + Glue(b)) == block + "\n\n" + Glue(rest) + Glue(b);
    }
  }

  /** A stream with CR CRLF at `i`, cut behind it and with an empty chunk in between. */
  function BadCut(s: string, i: nat): (chunks: seq<string>)
    requires i + 3 <= |s|
  {
    [s[..i + 3], "", s[i + 3..]]
  }

  /** The buffer left by a text that ends in CR CRLF still ends in CRLF. */
  lemma HeldBackCrLf(t: string)
    requires |t| >= 3 && CrCrLfAt(t, |t| - 3)
    ensures var p := Blocks(Normalised(t)).rest;
            |p| >= 2 && CrLfAt(p, |p| - 2)
  {
    hide Boundary, Blocks, Normalised;
    var a := t[..|t| - 2];
    assert t == a + "\r\n";
    NormalisedAppend(a, "\r\n");
    NormalisedStep("\r\n");
    NormalisedStep("");
    NormalisedEnds(a);
    var n := Normalised(t);
    assert CrLfAt(n, |n| - 2);
    var c := Blocks(n);
    BlocksGlue(n);
    var g := Glue(c.blocks);
    if g != "" { assert BlankAt(g, |g| - 2) && n[|g| - 1] == '\n' && n[|g| - 2] == '\n'; }
  }

  /** Normalising that buffer once more loses a character. */
  lemma NormalisedShrinks(p: string)
    requires |p| >= 2 && CrLfAt(p, |p| - 2)
    ensures |Normalised(p)| < |p| && Normalised(p) != "" && Normalised(p)[|Normalised(p)| - 1] == '\n'
  {
    hide Normalised;
    var q := p[..|p| - 2];
    assert p == q + "\r\n";
    NormalisedAppend(q, "\r\n");
    NormalisedStep("\r\n");
    NormalisedStep("");
  }

  /** What is left behind the last blank line ends as the text does. */
  lemma RestEnds(n: string)
    requires n != "" && n[|n| - 1] == '\n'
    ensures var p := Blocks(n).rest; p == "" || p[|p| - 1] == '\n'
    ensures Size(Blocks(n)) == |n|
  {
    hide Boundary, Blocks;
    BlocksGlue(n);
  }

  /** A stream with CR CRLF is cut into different blocks, or leaves another text, when a chunk ends right behind it. */
  lemma BadCutDiffers(s: string, i: nat)
    requires CrCrLfAt(s, i)
    ensures Concat(BadCut(s, i)) == s
    ensures PushAll("", BadCut(s, i)) != PushBlocks("", s)
  {
    hide PushBlocks, PushAll, Normalised, Size;
    var t, c := s[..i + 3], s[i + 3..];
    var chunks := BadCut(s, i);
    assert chunks[1..] == ["", c] && chunks[1..][1..] == [c] && chunks[1..][1..][1..] == [];
    assert s == t + c && Concat([c]) == c;
    assert "" + t == t && "" + s == s;
    assert CrCrLfAt(t, |t| - 3);
    var c1 := PushBlocks("", t);
    HeldBack(t);
    var c2 := PushBlocks(c1.rest, "");
    assert c1.rest + "" == c1.rest;
    var c3 := PushBlocks(c2.rest, c);
    SizeOfPush("", t);
    SizeOfPush("", s);
    SizeOfPush(c1.rest, "");
    SizeOfPush(c2.rest, c);
    NormalisedAppend(t, c);
    NormalisedAppend(c2.rest, c);
    NormalisedShorter(c2.rest);
    PushThree(t, "", c);
    SizeOfJoin(c1, c2, c3);
  }

  lemma SizeOfPush(buffer: string, chunk: string)
    ensures Size(PushBlocks(buffer, chunk)) == |Normalised(buffer + chunk)|
  {
    hide Blocks, Normalised;
    BlocksGlue(Normalised(buffer + chunk));
  }

  lemma SizeOfJoin(c1: Cut, c2: Cut, c3: Cut)
    ensures Size(Cut(c1.blocks + (c2.blocks + c3.blocks), c3.rest)) == |Glue(c1.blocks)| + |Glue(c2.blocks)| + Size(c3)
    ensures Size(c1) == |Glue(c1.blocks)| + |c1.rest| && Size(c2) == |Glue(c2.blocks)| + |c2.rest|
  {
    hide Glue;
    GlueAppend(c2.blocks, c3.blocks);
    GlueAppend(c1.blocks, c2.blocks + c3.blocks);
  }

  lemma NormalisedShorter(s: string)
    ensures |Normalised(s)| <= |s|
  {
  }

  /** The buffer left by a text that ends in CR CRLF loses a character in the next push, and ends no CR. */
  lemma HeldBack(t: string)
    requires |t| >= 3 && CrCrLfAt(t, |t| - 3)
    ensures var p := PushBlocks("", t).rest;
            && |Normalised(p)| < |p|
            && var q := PushBlocks(p, "").rest; q == "" || q[|q| - 1] == '\n'
  {
    hide Blocks, Normalised;
    assert "" + t == t;
    HeldBackCrLf(t);
    var p := PushBlocks("", t).rest;
    assert p + "" == p;
    NormalisedShrinks(p);
    RestEnds(Normalised(p));
  }

  lemma PushThree(a: string, b: string, c: string)
    ensures var c1 := PushBlocks("", a);
            var c2 := PushBlocks(c1.rest, b);
            var c3 := PushBlocks(c2.rest, c);
            PushAll("", [a, b, c]) == Cut(c1.blocks + (c2.blocks + c3.blocks), c3.rest)
  {
    hide PushBlocks;
    var c1 := PushBlocks("", a);
    var c2 := PushBlocks(c1.rest, b);
    var c3 := PushBlocks(c2.rest, c);
    assert [a, b, c][1..] == [b, c] && [b, c][1..] == [c] && [c][1..] == [];
    assert PushAll(c2.rest, [c]) == Cut(c3.blocks, c3.rest) by {
      assert PushAll(c3.rest, []) == Cut([], c3.rest);
      assert c3.blocks + [] == c3.blocks;
    }
    assert PushAll(c1.rest, [b, c]) == Cut(c2.blocks + c3.blocks, c3.rest);
  }

  /**
   * The exact condition on the raw blocks: a stream is cut into the same blocks and leaves the same
   * pending text however it is cut into chunks if and only if it never has a carriage return in front
   * of a CRLF.
   */
  lemma BlocksInvariantExactly(s: string)
    ensures (forall chunks :: Concat(chunks) == s ==> PushAll("", chunks) == PushBlocks("", s)) <==> !HasCrCrLf(s)
  {
    hide PushBlocks, PushAll;
    if HasCrCrLf(s) {
      var i: nat :| CrCrLfAt(s, i);
      BadCutDiffers(s, i);
    } else {
      forall chunks | Concat(chunks) == s ensures PushAll("", chunks) == PushBlocks("", s) {
        ChunkInvariant(s, chunks);
      }
    }
  }

  // ----- What the caller of the parser sees -----

  /** The frames `push` has returned and what `pending` returns. */
  function Seen(c: Cut): (seq<ParsedFrame>, string) { (Frames(c.blocks), c.rest) }

  /** At every point of the stream, what the caller has seen depends on the text so far and not on its chunks. */
  ghost predicate SeenAlike(s: string)
  {
    forall chunks :: Concat(chunks) <= s ==> Seen(PushAll("", chunks)) == Seen(PushBlocks("", Concat(chunks)))
  }

  lemma PushTwo(a: string, b: string)
    ensures var c1 := PushBlocks("", a);
            var c2 := PushBlocks(c1.rest, b);
            PushAll("", [a, b]) == Cut(c1.blocks + c2.blocks, c2.rest)
  {
    hide PushBlocks;
    assert [a, b][1..] == [b] && [b][1..] == [];
    var c1 := PushBlocks("", a);
    var c2 := PushBlocks(c1.rest, b);
    assert PushAll(c1.rest, [b]) == Cut(c2.blocks, c2.rest) by {
      assert PushAll(c2.rest, []) == Cut([], c2.rest);
      assert c2.blocks + [] == c2.blocks;
    }
  }

  /** Behind a CR CRLF an empty chunk changes the pending text. */
  lemma PendingDiffers(t: string)
    requires |t| >= 3 && CrCrLfAt(t, |t| - 3)
    ensures Concat([t, ""]) == t
    ensures |PushAll("", [t, ""]).rest| < |PushBlocks("", t).rest|
  {
    hide Boundary, Blocks, Normalised;
    assert [t, ""][1..] == [""] && [""][1..] == [];
    assert "" + t == t;
    HeldBackCrLf(t);
    var p := PushBlocks("", t).rest;
    NormalisedShrinks(p);
    RestEnds(Normalised(p));
    PushTwo(t, "");
    assert p + "" == p;
  }

  /**
   * The exact condition on what the caller sees: at every point of a stream the frames returned and the
   * pending text are independent of the chunks if and only if the stream has no carriage return in
   * front of a CRLF.
   */
  lemma ChunkInvarianceExactly(s: string)
    ensures SeenAlike(s) <==> !HasCrCrLf(s)
  {
    hide PushBlocks, PushAll, Frames;
    if HasCrCrLf(s) {
      var i: nat :| CrCrLfAt(s, i);
      var t := s[..i + 3];
      assert CrCrLfAt(t, |t| - 3);
      PendingDiffers(t);
      assert Seen(PushAll("", [t, ""])) != Seen(PushBlocks("", t));
    } else {
      forall chunks | Concat(chunks) <= s ensures Seen(PushAll("", chunks)) == Seen(PushBlocks("", Concat(chunks))) {
        var p := Concat(chunks);
        assert !HasCrCrLf(p) by {
          forall i: nat ensures !CrCrLfAt(p, i) { assert !CrCrLfAt(s, i); }
        }
        ChunkInvariant(p, chunks);
      }
    }
  }
}
