/** String operations of the host language that several components share. */
module Text {

  /** `s.split(sep)` for a one-character separator: always at least one part. */
  function Split(s: string, sep: char): (parts: seq<string>)
    ensures |parts| >= 1
  {
    if s == "" then [""]
    else
      var rest := Split(s[1..], sep);
      if s[0] == sep then [""] + rest else [[s[0]] + rest[0]] + rest[1..]
  }

  /** `parts.join(sep)`. */
  function Join(parts: seq<string>, sep: string): (s: string)
  {
    if |parts| == 0 then ""
    else if |parts| == 1 then parts[0]
    else parts[0] + sep + Join(parts[1..], sep)
  }

  lemma JoinOne(part: string, sep: string)
    ensures Join([part], sep) == part
  {
  }

  lemma JoinStep(parts: seq<string>, sep: string)
    requires |parts| >= 2
    ensures Join(parts, sep) == parts[0] + sep + Join(parts[1..], sep)
  {
  }

  predicate Distinct(names: seq<string>) { forall i, j :: 0 <= i < j < |names| ==> names[i] != names[j] }

  /** The first index of `c`, or the length of `s` when it does not occur. */
  function FirstIndex(s: string, c: char): (i: nat)
    ensures i <= |s|
    ensures c !in s[..i]
    ensures i < |s| ==> s[i] == c
    ensures i == |s| ==> c !in s
  {
    if s == "" then 0
    else if s[0] == c then 0
    else
      var k := FirstIndex(s[1..], c);
      assert s[..k + 1] == [s[0]] + s[1..][..k];
      k + 1
  }

  /** No part contains the separator, and joining the parts gives the text back. */
  lemma {:induction false} JoinSplit(s: string, sep: char)
    ensures Join(Split(s, sep), [sep]) == s
    ensures forall p :: p in Split(s, sep) ==> sep !in p
  {
    if s != "" {
      JoinSplit(s[1..], sep);
      var rest := Split(s[1..], sep);
      assert forall p :: p in rest[1..] ==> p in rest;
      if s[0] == sep {
        assert ([""] + rest)[1..] == rest;
        assert s == [sep] + s[1..];
      } else {
        var parts := [[s[0]] + rest[0]] + rest[1..];
        assert parts == Split(s, sep);
        assert parts[1..] == rest[1..];
        assert s == [s[0]] + s[1..];
      }
    }
  }

  /** A part without the separator stays one part. */
  lemma {:induction false} SplitWhole(s: string, sep: char)
    requires sep !in s
    ensures Split(s, sep) == [s]
  {
    if s != "" {
      SplitWhole(s[1..], sep);
      assert s == [s[0]] + s[1..];
    }
  }

  lemma SplitStep(s: string, sep: char)
    ensures Split(s, sep) == if s == "" then [""] else
            var rest := Split(s[1..], sep);
            if s[0] == sep then [""] + rest else [[s[0]] + rest[0]] + rest[1..]
  {
  }

  /** Splitting distributes over any separator. */
  lemma {:induction false} SplitConcat(a: string, sep: char, b: string)
    ensures Split(a + ([sep] + b), sep) == Split(a, sep) + Split(b, sep)
  {
    hide Split;
    var whole := a + ([sep] + b);
    SplitStep(a, sep);
    SplitStep(whole, sep);
    if a == "" {
      assert whole[1..] == b;
    } else {
      SplitConcat(a[1..], sep, b);
      assert whole[1..] == a[1..] + ([sep] + b);
      var rest, more := Split(a[1..], sep), Split(b, sep);
      assert (rest + more)[0] == rest[0] && (rest + more)[1..] == rest[1..] + more;
      assert [""] + (rest + more) == ([""] + rest) + more;
      assert [[a[0]] + rest[0]] + (rest[1..] + more) == ([[a[0]] + rest[0]] + rest[1..]) + more;
    }
  }

  lemma SplitAppend(a: string, sep: char, b: string)
    requires sep !in a
    ensures Split(a + [sep] + b, sep) == [a] + Split(b, sep)
  {
    hide Split;
    SplitWhole(a, sep);
    SplitConcat(a, sep, b);
    assert a + [sep] + b == a + ([sep] + b);
  }

  /** Splitting undoes joining, as long as no part contains the separator. */
  lemma {:induction false} SplitJoin(parts: seq<string>, sep: char)
    requires |parts| >= 1
    requires forall p :: p in parts ==> sep !in p
    ensures Split(Join(parts, [sep]), sep) == parts
  {
    if |parts| == 1 {
      SplitWhole(parts[0], sep);
    } else {
      SplitJoin(parts[1..], sep);
      SplitAppend(parts[0], sep, Join(parts[1..], [sep]));
      assert parts == [parts[0]] + parts[1..];
    }
  }

  /** A text that neither starts nor holds the separator before `k` has its first separator at `k`. */
  lemma FirstIndexAt(s: string, c: char, k: nat)
    requires k < |s| && s[k] == c && c !in s[..k]
    ensures FirstIndex(s, c) == k
  {
    var i := FirstIndex(s, c);
    forall j | 0 <= j < k ensures s[j] != c { assert s[..k][j] in s[..k]; }
    forall j | 0 <= j < i ensures s[j] != c { assert s[..i][j] in s[..i]; }
  }

  /** `s.replace(/\r\n/g, '\n')`: one left-to-right pass. */
  function Normalised(s: string): (r: string)
    ensures |r| <= |s|
  {
    if |s| >= 2 && s[0] == '\r' && s[1] == '\n' then "\n" + Normalised(s[2..])
    else if s == "" then ""
    else [s[0]] + Normalised(s[1..])
  }
}
