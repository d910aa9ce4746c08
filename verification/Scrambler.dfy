/**
 * Replacement surnames for opaque keys (packages/demo-datasets/src/scramble.ts). `fold`, the
 * lower-case accent-free form, and `hash`, the first four bytes of the digest of seed and key, are
 * functions given from outside.
 */
module Scrambler {
  import opened Options
  import opened Text

  predicate IsWordChar(c: char) { 'a' <= c <= 'z' || '0' <= c <= '9' }

  /** `s.split(/[^a-z0-9]+/)` without the empty parts: the word being read is `word`. */
  function WordsFrom(s: string, word: string): set<string>
    decreases |s|
  {
    var done := if word == "" then {} else {word};
    if s == "" then done
    else if IsWordChar(s[0]) then WordsFrom(s[1..], word + [s[0]])
    else done + WordsFrom(s[1..], "")
  }

  function Words(fold: string -> string, name: string): set<string> { WordsFrom(fold(name), "") }

  /** `s[i..j]` is a run of lower-case letters and digits that cannot be made longer. */
  predicate Run(s: string, i: nat, j: nat)
  {
    i < j <= |s|
    && (forall k :: i <= k < j ==> 'a' <= s[k] <= 'z' || '0' <= s[k] <= '9')
    && (i > 0 ==> !('a' <= s[i - 1] <= 'z' || '0' <= s[i - 1] <= '9'))
    && (j < |s| ==> !('a' <= s[j] <= 'z' || '0' <= s[j] <= '9'))
  }

  ghost predicate IsRunOf(s: string, w: string) { exists i: nat, j: nat :: Run(s, i, j) && i < j <= |s| && w == s[i..j] }

  lemma RunShifts(front: string, rest: string, i: nat, j: nat)
    requires front != "" && !IsWordChar(front[|front| - 1])
    ensures Run(front + rest, i + |front|, j + |front|) <==> Run(rest, i, j)
    ensures i <= j <= |rest| ==> (front + rest)[i + |front|..j + |front|] == rest[i..j]
  {
    var t, n := front + rest, |front|;
    assert forall k :: 0 <= k < |rest| ==> t[n + k] == rest[k];
    assert t[n - 1] == front[n - 1];
    if Run(t, i + n, j + n) {
      assert forall k :: i <= k < j ==> rest[k] == t[n + k];
      if i > 0 { assert t[i + n - 1] == rest[i - 1]; }
    }
    if Run(rest, i, j) {
      assert forall k :: i + n <= k < j + n ==> t[k] == rest[k - n];
      if i > 0 { assert t[i + n - 1] == rest[i - 1]; }
    }
  }

  lemma RunInFront(word: string, c: char, rest: string, i: nat, j: nat)
    requires (forall k :: 0 <= k < |word| ==> IsWordChar(word[k])) && !IsWordChar(c)
    ensures Run(word + [c] + rest, i, j) && i <= |word| ==> i == 0 && j == |word|
    ensures word != "" ==> Run(word + [c] + rest, 0, |word|)
    ensures (word + [c] + rest)[0..|word|] == word
  {
    var t := word + [c] + rest;
    assert forall k :: 0 <= k < |word| ==> t[k] == word[k];
    assert t[|word|] == c;
    assert 0 < i <= |word| ==> t[i - 1] == word[i - 1];
  }

  lemma RunsBehind(word: string, c: char, rest: string, w: string)
    requires (forall k :: 0 <= k < |word| ==> IsWordChar(word[k])) && !IsWordChar(c)
    ensures IsRunOf(word + [c] + rest, w) <==> (word != "" && w == word) || IsRunOf(rest, w)
  {
    hide Run, IsWordChar;
    var t, front := word + [c] + rest, word + [c];
    assert t == front + rest && front[|front| - 1] == c;
    RunInFront(word, c, rest, 0, 0);
    if i: nat, j: nat :| Run(t, i, j) && i < j <= |t| && w == t[i..j] {
      if i <= |word| {
        RunInFront(word, c, rest, i, j);
      } else {
        RunShifts(front, rest, i - |front|, j - |front|);
      }
    }
    if i: nat, j: nat :| Run(rest, i, j) && i < j <= |rest| && w == rest[i..j] {
      RunShifts(front, rest, i, j);
    }
  }

  lemma {:induction false} WordsAreRuns(s: string, word: string, w: string)
    requires forall k :: 0 <= k < |word| ==> IsWordChar(word[k])
    ensures w in WordsFrom(s, word) <==> IsRunOf(word + s, w)
    decreases |s|
  {
    hide IsRunOf;
    if s == "" {
      assert word + s == word;
      WholeRun(word, w);
    } else if IsWordChar(s[0]) {
      WordsAreRuns(s[1..], word + [s[0]], w);
      assert word + [s[0]] + s[1..] == word + s;
    } else {
      WordsAreRuns(s[1..], "", w);
      RunsBehind(word, s[0], s[1..], w);
      assert word + [s[0]] + s[1..] == word + s && "" + s[1..] == s[1..];
    }
  }

  lemma WholeRun(word: string, w: string)
    requires forall k :: 0 <= k < |word| ==> IsWordChar(word[k])
    ensures IsRunOf(word, w) <==> word != "" && w == word
  {
    if i: nat, j: nat :| Run(word, i, j) && w == word[i..j] {
      assert i == 0 && j == |word|;
    }
    if word != "" && w == word { assert Run(word, 0, |word|) && w == word[0..|word|]; }
  }

  /** The words of a name are exactly the longest runs of letters and digits in its folded form. */
  lemma WordsExactly(fold: string -> string, name: string, w: string)
    ensures w in Words(fold, name) <==> IsRunOf(fold(name), w)
  {
    WordsAreRuns(fold(name), "", w);
    assert "" + fold(name) == fold(name);
  }

  predicate SharesWord(fold: string -> string, a: string, b: string) { Words(fold, a) * Words(fold, b) != {} }

  // ----- The probe -----

  /** The slot `k` places behind `start`, around a table of `n` slots. */
  function Slot(start: nat, k: nat, n: nat): nat
    requires start < n && k <= n
  {
    if start + k < n then start + k else start + k - n
  }

  /** `index` is the first free slot at or behind `start`. */
  predicate FirstFree(taken: set<nat>, start: nat, index: nat, n: nat)
  {
    start < n && index < n && index !in taken
    && exists k: nat :: k < n && index == Slot(start, k, n) && forall j: nat :: j < k ==> Slot(start, j, n) in taken
  }

  /** Fewer than `n` slots are taken, so some slot is free. */
  lemma {:induction false} Pigeonhole(taken: set<nat>, n: nat)
    requires |taken| < n
    ensures exists f: nat :: f < n && f !in taken
  {
    if n - 1 in taken {
      var less := taken - {n - 1};
      Pigeonhole(less, n - 1);
      var f: nat :| f < n - 1 && f !in less;
      assert f !in taken;
    }
  }

  /** Every key has its own slot, the slots given are those taken, and the names are the candidates there. */
  ghost predicate Consistent(candidates: seq<string>, given: map<string, string>, taken: set<nat>, index: map<string, nat>)
  {
    index.Keys == given.Keys && taken == index.Values
    && (forall k :: k in index ==> index[k] < |candidates| && given[k] == candidates[index[k]])
    && (forall k, l :: k in index && l in index && index[k] == index[l] ==> k == l)
  }

  lemma ConsistentMore(candidates: seq<string>, given: map<string, string>, taken: set<nat>, index: map<string, nat>, key: string, slot: nat)
    requires Consistent(candidates, given, taken, index)
    requires key !in given && slot < |candidates| && slot !in taken
    ensures Consistent(candidates, given[key := candidates[slot]], taken + {slot}, index[key := slot])
    ensures index[key := slot].Keys == index.Keys + {key}
  {
    ValuesMore(index, key, slot);
    assert forall k :: k in index ==> index[k] in index.Values;
  }

  lemma TakenIsGiven(candidates: seq<string>, given: map<string, string>, taken: set<nat>, index: map<string, nat>)
    requires Consistent(candidates, given, taken, index)
    ensures |taken| == |given| && index.Keys == given.Keys
  {
    TakenIsAssigned(index);
    assert |given| == |given.Keys|;
  }

  class NameScrambler {
    const candidates: seq<string>
    const hash: string -> nat
    var given: map<string, string>
    var taken: set<nat>
    /** The slot each key was given. */
    ghost var index: map<string, nat>

    ghost predicate Valid()
      reads this
    {
      Consistent(candidates, given, taken, index)
    }

    constructor (fold: string -> string, hash: string -> nat, pool: seq<string>, realSurnames: seq<string>)
      ensures Valid() && given == map[]
      ensures this.hash == hash
      ensures candidates == Candidates(fold, pool, realSurnames)
    {
      var excluded: set<string> := {};
      for i := 0 to |realSurnames|
        invariant forall w :: w in excluded <==> exists j :: 0 <= j < i && w in Words(fold, realSurnames[j])
      {
        excluded := excluded + Words(fold, realSurnames[i]);
      }
      var kept := [];
      for i := 0 to |pool|
        invariant kept == Candidates(fold, pool[..i], realSurnames)
      {
        assert pool[..i + 1][..i] == pool[..i];
        assert Words(fold, pool[i]) * excluded == {} <==> Unrelated(fold, pool[i], realSurnames) by {
          ExcludedIsRelated(fold, pool[i], realSurnames, excluded);
        }
        if Words(fold, pool[i]) * excluded == {} { kept := kept + [pool[i]]; }
      }
      assert pool[..|pool|] == pool;
      candidates := kept;
      this.hash := hash;
      given, taken, index := map[], {}, map[];
    }

    /** The name for a key, or `None` where the pool is exhausted. */
    method ReplacementFor(key: string) returns (name: Option<string>)
      requires Valid()
      modifies this
      ensures Valid()
      ensures name.None? <==> key !in old(given) && |old(given)| >= |candidates|
      ensures name.Some? ==> key in given && name.value == given[key]
      ensures key in old(given) || name.None? ==> given == old(given) && taken == old(taken)
      ensures key !in old(given) && name.Some? ==> given == old(given)[key := name.value]
      ensures Step(|candidates|, hash, old(index), key, if name.Some? then Some(index[key]) else None, index)
    {
      hide Consistent, FirstFree, Step;
      TakenIsValues(candidates, given, taken, index);
      TakenIsGiven(candidates, given, taken, index);
      StepKnown(|candidates|, hash, index, key);
      if key in given { return Some(given[key]); }
      if |taken| >= |candidates| { return None; }
      var slot := Probe(hash(key) % |candidates|);
      ConsistentMore(candidates, given, taken, index, key, slot);
      StepFresh(|candidates|, hash, index, key, slot);
      taken := taken + {slot};
      var surname := candidates[slot];
      given := given[key := surname];
      index := index[key := slot];
      return Some(surname);
    }

    /** The probing loop; it ends because some slot is free. */
    method Probe(start: nat) returns (slot: nat)
      requires |taken| < |candidates| && start < |candidates|
      ensures slot < |candidates| && slot !in taken && FirstFree(taken, start, slot, |candidates|)
    {
      var n := |candidates|;
      Pigeonhole(taken, n);
      ghost var free: nat :| free < n && free !in taken;
      ghost var steps: nat := 0;
      slot := start;
      while slot in taken
        invariant steps < n && slot == Slot(start, steps, n)
        invariant forall j: nat :: j < steps ==> Slot(start, j, n) in taken
        invariant steps <= if free >= start then free - start else free + n - start
        decreases n - steps
      {
        assert free != slot;
        steps := steps + 1;
        slot := if slot + 1 == n then 0 else slot + 1;
      }
    }
  }

  /** One call: the slots given before and after, and the slot of the key asked for. */
  predicate Step(n: nat, hash: string -> nat, before: map<string, nat>, key: string, slot: Option<nat>, after: map<string, nat>)
  {
    if key in before then slot == Some(before[key]) && after == before
    else if |before| >= n then slot == None && after == before
    else slot.Some? && after == before[key := slot.value] && FirstFree(before.Values, hash(key) % n, slot.value, n)
  }

  lemma StepKnown(n: nat, hash: string -> nat, index: map<string, nat>, key: string)
    ensures key in index ==> Step(n, hash, index, key, Some(index[key]), index)
    ensures key !in index && |index| >= n ==> Step(n, hash, index, key, None, index)
  {
  }

  lemma StepFresh(n: nat, hash: string -> nat, index: map<string, nat>, key: string, slot: nat)
    requires key !in index && |index| < n && FirstFree(index.Values, hash(key) % n, slot, n)
    ensures Step(n, hash, index, key, Some(slot), index[key := slot])
  {
    hide FirstFree;
  }

  lemma ValuesMore(index: map<string, nat>, key: string, slot: nat)
    requires key !in index
    ensures index[key := slot].Values == index.Values + {slot}
    ensures index[key := slot].Keys == index.Keys + {key}
  {
    var more := index[key := slot];
    forall v | v in index.Values ensures v in more.Values {
      var k :| k in index && index[k] == v;
      assert more[k] == v;
    }
    assert more[key] == slot;
  }

  lemma {:induction false} TakenIsAssigned(index: map<string, nat>)
    requires forall k, l :: k in index && l in index && index[k] == index[l] ==> k == l
    ensures |index.Values| == |index.Keys|
  {
    if index.Keys != {} {
      var k :| k in index;
      var rest := index - {k};
      assert rest.Keys == index.Keys - {k};
      forall v ensures v in rest.Values <==> v in index.Values - {index[k]} {
        if l :| l in index && index[l] == v && l != k { assert l in rest && rest[l] == v; }
      }
      assert rest.Values == index.Values - {index[k]};
      TakenIsAssigned(rest);
    }
  }

  lemma TakenIsValues(candidates: seq<string>, given: map<string, string>, taken: set<nat>, index: map<string, nat>)
    requires Consistent(candidates, given, taken, index)
    ensures taken == index.Values && |index| == |given|
    ensures forall k :: k in index ==> index[k] < |candidates| && given[k] == candidates[index[k]]
  {
    assert |index.Keys| == |given.Keys|;
  }

  // ----- The candidates -----

  predicate Unrelated(fold: string -> string, name: string, realSurnames: seq<string>)
  {
    forall j :: 0 <= j < |realSurnames| ==> !SharesWord(fold, name, realSurnames[j])
  }

  /** The pool without the surnames that share a word with a real one. */
  function Candidates(fold: string -> string, pool: seq<string>, realSurnames: seq<string>): (kept: seq<string>)
    ensures forall name :: name in kept <==> name in pool && Unrelated(fold, name, realSurnames)
  {
    if pool == [] then []
    else
      var last := pool[|pool| - 1];
      var kept := Candidates(fold, pool[..|pool| - 1], realSurnames);
      assert forall name :: name in pool <==> name == last || name in pool[..|pool| - 1];
      if Unrelated(fold, last, realSurnames) then kept + [last] else kept
  }

  lemma ExcludedIsRelated(fold: string -> string, name: string, realSurnames: seq<string>, excluded: set<string>)
    requires forall w :: w in excluded <==> exists j :: 0 <= j < |realSurnames| && w in Words(fold, realSurnames[j])
    ensures Words(fold, name) * excluded == {} <==> Unrelated(fold, name, realSurnames)
  {
    hide Words;
    if Words(fold, name) * excluded == {} {
      forall j | 0 <= j < |realSurnames| ensures !SharesWord(fold, name, realSurnames[j]) {
        forall w | w in Words(fold, name) ensures w !in Words(fold, realSurnames[j]) {
          assert w in Words(fold, realSurnames[j]) ==> w in Words(fold, name) * excluded;
        }
      }
    }
    if w :| w in Words(fold, name) * excluded {
      var j :| 0 <= j < |realSurnames| && w in Words(fold, realSurnames[j]);
      assert w in Words(fold, name) * Words(fold, realSurnames[j]);
    }
  }

  // ----- Whole runs -----

  /** The calls of one scrambler, from the first. */
  predicate IsRun(n: nat, hash: string -> nat, keys: seq<string>, slots: seq<Option<nat>>, states: seq<map<string, nat>>)
  {
    |slots| == |keys| && |states| == |keys| + 1 && states[0] == map[]
    && forall i :: 0 <= i < |keys| ==> Step(n, hash, states[i], keys[i], slots[i], states[i + 1])
  }

  /** The first `n` different keys asked for. */
  function FirstKeys(keys: seq<string>, n: nat): (first: set<string>)
    ensures |first| <= n
  {
    if keys == [] then {}
    else
      var first := FirstKeys(keys[..|keys| - 1], n);
      if keys[|keys| - 1] in first || |first| >= n then first else first + {keys[|keys| - 1]}
  }

  /** They are all keys asked for until `n` different ones have been. */
  lemma {:induction false} FirstKeysAre(keys: seq<string>, n: nat)
    ensures FirstKeys(keys, n) <= (set k | k in keys)
    ensures |FirstKeys(keys, n)| == n || FirstKeys(keys, n) == set k | k in keys
  {
    if keys != [] {
      var front := keys[..|keys| - 1];
      FirstKeysAre(front, n);
      assert (set k | k in keys) == (set k | k in front) + {keys[|keys| - 1]} by {
        assert forall k :: k in keys <==> k == keys[|keys| - 1] || k in front;
      }
    }
  }

  /** The slots given out: one for each of the first `n` keys, all different. */
  predicate OneEach(index: map<string, nat>, n: nat, first: set<string>)
  {
    index.Keys == first && (forall k :: k in index ==> index[k] < n)
    && forall k, l :: k in index && l in index && index[k] == index[l] ==> k == l
  }

  lemma StepKeepsOneEach(n: nat, hash: string -> nat, before: map<string, nat>, key: string, slot: Option<nat>, after: map<string, nat>, first: set<string>)
    requires Step(n, hash, before, key, slot, after) && OneEach(before, n, first)
    ensures OneEach(after, n, if key in first || |first| >= n then first else first + {key})
    ensures slot == if key in after then Some(after[key]) else None
    ensures Within(before, after)
  {
    hide FirstFree, OneEach;
    KeysAreFirst(before, n, first);
    if key !in before && |before| < n {
      assert slot.value < n && slot.value !in before.Values by { FirstFreeIs(before.Values, hash(key) % n, slot.value, n); }
      OneMore(before, n, first, key, slot.value);
    }
  }

  lemma KeysAreFirst(index: map<string, nat>, n: nat, first: set<string>)
    requires OneEach(index, n, first)
    ensures index.Keys == first && |index| == |first|
  {
    assert |index| == |index.Keys|;
  }

  lemma FirstFreeIs(taken: set<nat>, start: nat, slot: nat, n: nat)
    requires FirstFree(taken, start, slot, n)
    ensures slot < n && slot !in taken
  {
  }

  lemma OneMore(index: map<string, nat>, n: nat, first: set<string>, key: string, slot: nat)
    requires OneEach(index, n, first) && key !in index && slot < n && slot !in index.Values
    ensures OneEach(index[key := slot], n, first + {key})
  {
    assert forall k :: k in index ==> index[k] in index.Values;
  }

  lemma {:induction false} RunState(n: nat, hash: string -> nat, keys: seq<string>, slots: seq<Option<nat>>, states: seq<map<string, nat>>, i: nat)
    requires IsRun(n, hash, keys, slots, states) && i <= |keys|
    ensures OneEach(states[i], n, FirstKeys(keys[..i], n))
    ensures forall j :: 0 <= j <= i ==> Within(states[j], states[i])
    decreases i
  {
    hide Step, OneEach, Within, FirstKeys;
    if i == 0 {
      NothingGiven(n);
      WithinSteps(states[0], states[0], states[0]);
      assert keys[..0] == [];
      NoKeys(n);
    } else {
      var before, after := states[i - 1], states[i];
      RunState(n, hash, keys, slots, states, i - 1);
      assert Step(n, hash, before, keys[i - 1], slots[i - 1], after) by { assert states[i] == states[i - 1 + 1]; }
      StepKeepsOneEach(n, hash, before, keys[i - 1], slots[i - 1], after, FirstKeys(keys[..i - 1], n));
      assert keys[..i] == keys[..i - 1] + [keys[i - 1]];
      FirstKeysMore(keys[..i - 1], keys[i - 1], n);
      WithinSteps(after, after, after);
      forall j | 0 <= j < i ensures Within(states[j], after) { WithinSteps(states[j], before, after); }
    }
  }

  lemma NoKeys(n: nat)
    ensures FirstKeys([], n) == {}
  {
  }

  lemma FirstKeysMore(keys: seq<string>, key: string, n: nat)
    ensures FirstKeys(keys + [key], n)
            == var first := FirstKeys(keys, n); if key in first || |first| >= n then first else first + {key}
  {
    assert (keys + [key])[..|keys|] == keys;
  }

  predicate Within(a: map<string, nat>, b: map<string, nat>) { forall k :: k in a ==> k in b && b[k] == a[k] }

  lemma WithinSteps(a: map<string, nat>, b: map<string, nat>, c: map<string, nat>)
    ensures Within(a, a) && (Within(a, b) && Within(b, c) ==> Within(a, c))
  {
  }

  lemma NothingGiven(n: nat)
    ensures OneEach(map[], n, {})
  {
  }

  /** Each key's answer in a run: the slot it has at the end, given exactly to the first `n` different keys. */
  lemma RunAnswers(n: nat, hash: string -> nat, keys: seq<string>, slots: seq<Option<nat>>, states: seq<map<string, nat>>, i: nat)
    requires IsRun(n, hash, keys, slots, states) && i < |keys|
    ensures slots[i].Some? <==> keys[i] in FirstKeys(keys[..i + 1], n)
    ensures slots[i].Some? ==> keys[i] in states[|keys|] && slots[i] == Some(states[|keys|][keys[i]])
  {
    hide Step, FirstKeys;
    RunState(n, hash, keys, slots, states, i + 1);
    RunState(n, hash, keys, slots, states, i);
    RunState(n, hash, keys, slots, states, |keys|);
    assert Within(states[i + 1], states[|keys|]);
    assert Step(n, hash, states[i], keys[i], slots[i], states[i + 1]);
    StepKeepsOneEach(n, hash, states[i], keys[i], slots[i], states[i + 1], FirstKeys(keys[..i], n));
  }

  /** Over any run two answered calls get the same slot exactly if they ask for the same key. */
  lemma SameSlotSameKey(n: nat, hash: string -> nat, keys: seq<string>, slots: seq<Option<nat>>, states: seq<map<string, nat>>, i: nat, j: nat)
    requires IsRun(n, hash, keys, slots, states) && i < |keys| && j < |keys|
    requires slots[i].Some? && slots[j].Some?
    ensures slots[i] == slots[j] <==> keys[i] == keys[j]
  {
    hide Step, FirstKeys, IsRun;
    RunAnswers(n, hash, keys, slots, states, i);
    RunAnswers(n, hash, keys, slots, states, j);
    assert OneEach(states[|keys|], n, FirstKeys(keys[..|keys|], n)) && |states| == |keys| + 1 by {
      assert |states| == |keys| + 1 by { RunLengths(n, hash, keys, slots, states); }
      RunState(n, hash, keys, slots, states, |keys|);
    }
  }

  lemma RunLengths(n: nat, hash: string -> nat, keys: seq<string>, slots: seq<Option<nat>>, states: seq<map<string, nat>>)
    requires IsRun(n, hash, keys, slots, states)
    ensures |states| == |keys| + 1 && |slots| == |keys|
  {
  }

  // ----- Names -----

  lemma {:induction false} AllTaken(taken: set<nat>, n: nat, f: nat)
    requires (forall t :: t in taken ==> t < n) && |taken| == n && f < n
    ensures f in taken
  {
    if f !in taken {
      Bounded(taken + {f}, n);
    }
  }

  lemma {:induction false} Bounded(taken: set<nat>, n: nat)
    requires forall t :: t in taken ==> t < n
    ensures |taken| <= n
  {
    if n > 0 {
      Bounded(taken - {n - 1}, n - 1);
    } else {
      assert taken == {};
    }
  }

  /**
   * Once every candidate is in use, no two keys share a name exactly if the candidates are distinct:
   * a surname that is twice in the pool is given to two keys.
   */
  lemma NamesDifferExactly(candidates: seq<string>, index: map<string, nat>, first: set<string>)
    requires OneEach(index, |candidates|, first) && |first| == |candidates|
    ensures (forall k, l :: k in first && l in first && candidates[index[k]] == candidates[index[l]] ==> k == l)
            <==> Distinct(candidates)
  {
    var n := |candidates|;
    TakenIsAssigned(index);
    assert index.Values == set k | k in index :: index[k];
    forall f: nat | f < n ensures f in index.Values { AllTaken(index.Values, n, f); }
    if forall k, l :: k in first && l in first && candidates[index[k]] == candidates[index[l]] ==> k == l {
      forall i, j | 0 <= i < j < n ensures candidates[i] != candidates[j] {
        assert i in index.Values && j in index.Values;
        var k :| k in index && index[k] == i;
        var l :| l in index && index[l] == j;
        assert k in first && l in first;
      }
    }
  }
}
