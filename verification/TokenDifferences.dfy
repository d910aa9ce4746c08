/** The comparison of two token trees (packages/design-tokens/src/design-document.ts). */
module TokenDifferences {
  import opened Options
  import opened Text
  import opened DesignTokens

  function Find(entries: seq<Entry>, key: string): (r: Option<Value>)
    ensures r.Some? <==> HasKey(entries, key)
    ensures r.Some? ==> Entry(key, r.value) in entries
  {
    if entries == [] then None
    else if entries[0].key == key then (assert HasKey(entries, key); Some(entries[0].value))
    else
      assert forall i :: 0 < i < |entries| ==> entries[i] == entries[1..][i - 1];
      Find(entries[1..], key)
  }

  function Keys(entries: seq<Entry>): (keys: seq<string>)
    ensures forall k :: k in keys <==> HasKey(entries, k)
  {
    if entries == [] then []
    else
      assert forall i :: 0 < i < |entries| ==> entries[i] == entries[1..][i - 1];
      [entries[0].key] + Keys(entries[1..])
  }

  function Without(keys: seq<string>, seen: seq<string>): (r: seq<string>)
    ensures forall k :: k in r <==> k in keys && k !in seen
  {
    if keys == [] then [] else (if keys[0] in seen then [] else [keys[0]]) + Without(keys[1..], seen)
  }

  datatype Difference = Missing(name: string) | Absent(name: string) | Changed(name: string, documented: Value, source: Value)

  function NameIn(path: string, key: string): string { if path == "" then key else path + "." + key }

  function AllKeys(actual: seq<Entry>, expected: seq<Entry>): (keys: seq<string>)
    ensures forall k :: k in keys <==> HasKey(expected, k) || HasKey(actual, k)
  {
    Keys(expected) + Without(Keys(actual), Keys(expected))
  }

  /** `designTokenDifferences`. */
  function Differences(actual: seq<Entry>, expected: seq<Entry>, path: string): seq<Difference>
    decreases expected, 2, 0
  {
    DifferencesOver(actual, expected, path, AllKeys(actual, expected))
  }

  function DifferencesOver(actual: seq<Entry>, expected: seq<Entry>, path: string, keys: seq<string>): seq<Difference>
    decreases expected, 1, |keys|
  {
    if keys == [] then []
    else DifferencesAt(actual, expected, path, keys[0]) + DifferencesOver(actual, expected, path, keys[1..])
  }

  function DifferencesAt(actual: seq<Entry>, expected: seq<Entry>, path: string, key: string): seq<Difference>
    decreases expected, 0, 0
  {
    var name := NameIn(path, key);
    var wanted := Find(expected, key);
    var found := Find(actual, key);
    if found.None? then [Missing(name)]
    else if wanted.None? then [Absent(name)]
    else if wanted.value.Group? && found.value.Group? then
      Differences(found.value.entries, wanted.value.entries, name)
    else if wanted.value != found.value then [Changed(name, found.value, wanted.value)]
    else []
  }

  method Compare(actual: seq<Entry>, expected: seq<Entry>, path: string) returns (differences: seq<Difference>)
    ensures differences == Differences(actual, expected, path)
    decreases expected
  {
    hide Find, AllKeys, DifferencesAt, DifferencesOver, NameIn;
    var keys := AllKeys(actual, expected);
    differences := [];
    ghost var left := DifferencesOver(actual, expected, path, keys);
    for k := 0 to |keys|
      invariant left == DifferencesOver(actual, expected, path, keys[k..])
      invariant differences + left == Differences(actual, expected, path)
    {
      hide Differences;
      var name := NameIn(path, keys[k]);
      var found := Find(actual, keys[k]);
      var wanted := Find(expected, keys[k]);
      AtStep(actual, expected, path, keys[k]);
      OverStep(actual, expected, path, keys[k..]);
      var more := [];
      if found.None? {
        more := [Missing(name)];
      } else if wanted.None? {
        more := [Absent(name)];
      } else if wanted.value.Group? && found.value.Group? {
        assert Entry(keys[k], wanted.value) in expected;
        more := Compare(found.value.entries, wanted.value.entries, name);
      } else if wanted.value != found.value {
        more := [Changed(name, found.value, wanted.value)];
      }
      differences := differences + more;
      left := DifferencesOver(actual, expected, path, keys[k + 1..]);
      assert keys[k..][1..] == keys[k + 1..];
    }
    OverStep(actual, expected, path, []);
  }

  lemma OverStep(actual: seq<Entry>, expected: seq<Entry>, path: string, keys: seq<string>)
    ensures DifferencesOver(actual, expected, path, keys) == if keys == [] then [] else
            DifferencesAt(actual, expected, path, keys[0]) + DifferencesOver(actual, expected, path, keys[1..])
  {
  }

  lemma AtStep(actual: seq<Entry>, expected: seq<Entry>, path: string, key: string)
    ensures DifferencesAt(actual, expected, path, key) ==
            var name := NameIn(path, key);
            var wanted := Find(expected, key);
            var found := Find(actual, key);
            if found.None? then [Missing(name)]
            else if wanted.None? then [Absent(name)]
            else if wanted.value.Group? && found.value.Group? then Differences(found.value.entries, wanted.value.entries, name)
            else if wanted.value != found.value then [Changed(name, found.value, wanted.value)]
            else []
  {
  }

  lemma {:induction false} OverMembers(actual: seq<Entry>, expected: seq<Entry>, path: string, keys: seq<string>, d: Difference)
    ensures d in DifferencesOver(actual, expected, path, keys)
            <==> exists k :: k in keys && d in DifferencesAt(actual, expected, path, k)
  {
    hide DifferencesAt, DifferencesOver;
    OverStep(actual, expected, path, keys);
    if keys != [] {
      OverMembers(actual, expected, path, keys[1..], d);
      assert forall k :: k in keys <==> k == keys[0] || k in keys[1..];
    }
  }

  // ----- The order of the list -----

  /** The keys of the source come first, in their order. */
  lemma {:induction false} SourceComesFirst(actual: seq<Entry>, expected: seq<Entry>, i: nat)
    requires i < |expected|
    ensures |AllKeys(actual, expected)| >= |expected| && AllKeys(actual, expected)[i] == expected[i].key
    ensures AllKeys([], expected) == Keys(expected)
  {
    KeysInOrder(expected, i);
    assert Keys([]) == [] && Without([], Keys(expected)) == [];
  }

  lemma {:induction false} KeysInOrder(entries: seq<Entry>, i: nat)
    requires i < |entries|
    ensures |Keys(entries)| == |entries| && Keys(entries)[i] == entries[i].key
  {
    if |entries| > 1 { KeysInOrder(entries[1..], if i == 0 then 0 else i - 1); }
  }

  /** The others follow in the order of the document. */
  lemma OthersFollow(actual: seq<Entry>, e: Entry, expected: seq<Entry>)
    ensures AllKeys(actual + [e], expected) == AllKeys(actual, expected) + if HasKey(expected, e.key) then [] else [e.key]
  {
    hide Keys, Without;
    KeysMore(actual, e);
    WithoutMore(Keys(actual), e.key, Keys(expected));
  }

  lemma {:induction false} KeysMore(entries: seq<Entry>, e: Entry)
    ensures Keys(entries + [e]) == Keys(entries) + [e.key]
  {
    if entries == [] {
      assert [e][1..] == [] && [] + [e] == [e];
    } else {
      KeysMore(entries[1..], e);
      assert (entries + [e])[1..] == entries[1..] + [e];
    }
  }

  lemma WithoutCons(k: string, rest: seq<string>, seen: seq<string>)
    ensures Without([k] + rest, seen) == (if k in seen then [] else [k]) + Without(rest, seen)
    ensures Without([], seen) == []
  {
    assert ([k] + rest)[1..] == rest;
  }

  lemma {:induction false} WithoutMore(keys: seq<string>, k: string, seen: seq<string>)
    ensures Without(keys + [k], seen) == Without(keys, seen) + if k in seen then [] else [k]
  {
    hide Without;
    WithoutCons(k, [], seen);
    if keys == [] {
      assert [] + [k] == [k] + [];
    } else {
      var rest := keys[1..];
      WithoutMore(rest, k, seen);
      WithoutCons(keys[0], rest, seen);
      WithoutCons(keys[0], rest + [k], seen);
      assert keys == [keys[0]] + rest && keys + [k] == [keys[0]] + (rest + [k]);
    }
  }

  /** A difference is named by the keys that lead to it, joined by points. */
  lemma {:induction false} NamesAreJoined(path: string, keys: seq<string>)
    requires path != ""
    ensures NameAt(path, keys) == Join([path] + keys, ".")
    decreases |keys|
  {
    hide Join;
    if keys == [] {
      JoinOne(path, ".");
      assert [path] + keys == [path];
    } else {
      var k, rest := keys[0], keys[1..];
      NamesAreJoined(NameIn(path, k), rest);
      assert keys == [k] + rest;
      JoinPair(path, k, rest, ".");
    }
  }

  lemma JoinPair(a: string, b: string, rest: seq<string>, sep: string)
    ensures Join([a] + ([b] + rest), sep) == Join([a + sep + b] + rest, sep)
  {
    var whole, shorter := [a] + ([b] + rest), [a + sep + b] + rest;
    assert whole[1..] == [b] + rest && ([b] + rest)[1..] == rest && shorter[1..] == rest;
    if rest != [] { assert a + sep + (b + sep + Join(rest, sep)) == a + sep + b + sep + Join(rest, sep); }
  }

  /** At the top, no path stands in front. */
  lemma TopNamesAreJoined(keys: seq<string>)
    requires keys != [] && keys[0] != ""
    ensures NameAt("", keys) == Join(keys, ".")
  {
    NamesAreJoined(keys[0], keys[1..]);
    assert keys == [keys[0]] + keys[1..];
  }

  // ----- What a list of differences says -----

  /** The value under a path of keys. */
  function At(entries: seq<Entry>, keys: seq<string>): Option<Value>
    requires keys != []
    decreases |keys|
  {
    match Find(entries, keys[0])
    case None => None
    case Some(v) => if |keys| == 1 then Some(v) else if v.Group? then At(v.entries, keys[1..]) else None
  }

  predicate GroupAt(entries: seq<Entry>, keys: seq<string>) { keys == [] || (At(entries, keys).Some? && At(entries, keys).value.Group?) }

  function NameAt(path: string, keys: seq<string>): string
    decreases |keys|
  {
    if keys == [] then path else NameAt(NameIn(path, keys[0]), keys[1..])
  }

  /** The trees hold mappings above the path and disagree under it, in the way `d` says. */
  predicate Disagrees(actual: seq<Entry>, expected: seq<Entry>, path: string, keys: seq<string>, d: Difference)
  {
    keys != [] &&
    GroupAt(actual, keys[..|keys| - 1]) && GroupAt(expected, keys[..|keys| - 1]) &&
    var name := NameAt(path, keys);
    var found := At(actual, keys);
    var wanted := At(expected, keys);
    if found.None? then wanted.Some? && d == Missing(name)
    else if wanted.None? then d == Absent(name)
    else !(found.value.Group? && wanted.value.Group?) && found.value != wanted.value
         && d == Changed(name, found.value, wanted.value)
  }

  lemma DisagreesHere(actual: seq<Entry>, expected: seq<Entry>, path: string, k: string, d: Difference)
    ensures Disagrees(actual, expected, path, [k], d) <==>
            var name := NameIn(path, k);
            var wanted := Find(expected, k);
            var found := Find(actual, k);
            if found.None? then wanted.Some? && d == Missing(name)
            else if wanted.None? then d == Absent(name)
            else !(found.value.Group? && wanted.value.Group?) && found.value != wanted.value
                 && d == Changed(name, found.value, wanted.value)
  {
    assert [k][..0] == [] && [k][1..] == [];
    assert NameAt(path, [k]) == NameIn(path, k);
  }

  lemma DisagreesBelow(actual: seq<Entry>, expected: seq<Entry>, path: string, k: string, rest: seq<string>, d: Difference)
    requires rest != []
    ensures Disagrees(actual, expected, path, [k] + rest, d) <==>
            var wanted := Find(expected, k);
            var found := Find(actual, k);
            found.Some? && wanted.Some? && found.value.Group? && wanted.value.Group?
            && Disagrees(found.value.entries, wanted.value.entries, NameIn(path, k), rest, d)
  {
    hide Find;
    var keys := [k] + rest;
    var front := rest[..|rest| - 1];
    assert keys[1..] == rest && keys[..|keys| - 1] == [k] + front && ([k] + front)[1..] == front;
    BelowAt(actual, k, rest);
    BelowAt(expected, k, rest);
    if front != [] {
      BelowAt(actual, k, front);
      BelowAt(expected, k, front);
    }
  }

  lemma BelowAt(entries: seq<Entry>, k: string, rest: seq<string>)
    requires rest != []
    ensures At(entries, [k] + rest)
            == var v := Find(entries, k); if v.Some? && v.value.Group? then At(v.value.entries, rest) else None
    ensures At(entries, [k]) == Find(entries, k)
  {
    assert ([k] + rest)[1..] == rest;
  }

  /** A difference is listed exactly if the trees disagree so under some path. */
  lemma {:induction false} ListedExactly(actual: seq<Entry>, expected: seq<Entry>, path: string, d: Difference)
    ensures d in Differences(actual, expected, path) <==> exists keys :: Disagrees(actual, expected, path, keys, d)
    decreases expected
  {
    hide Find, DifferencesAt, DifferencesOver, Disagrees, AllKeys;
    OverMembers(actual, expected, path, AllKeys(actual, expected), d);
    if d in Differences(actual, expected, path) {
      var k :| k in AllKeys(actual, expected) && d in DifferencesAt(actual, expected, path, k);
      ListedAt(actual, expected, path, k, d);
    }
    if keys :| Disagrees(actual, expected, path, keys, d) {
      assert keys != [] by { DisagreesSomewhere(actual, expected, path, keys, d); }
      assert keys == [keys[0]] + keys[1..];
      if keys[1..] == [] { assert keys == [keys[0]]; }
      var k := keys[0];
      assert HasKey(expected, k) || HasKey(actual, k) by {
        if keys[1..] == [] { DisagreesHere(actual, expected, path, k, d); }
        else { DisagreesBelow(actual, expected, path, k, keys[1..], d); }
      }
      assert k in AllKeys(actual, expected);
      FoundAt(actual, expected, path, k, keys[1..], d);
    }
  }

  lemma DisagreesSomewhere(actual: seq<Entry>, expected: seq<Entry>, path: string, keys: seq<string>, d: Difference)
    requires Disagrees(actual, expected, path, keys, d)
    ensures keys != []
  {
  }

  lemma ListedAt(actual: seq<Entry>, expected: seq<Entry>, path: string, k: string, d: Difference)
    requires d in DifferencesAt(actual, expected, path, k)
    requires HasKey(expected, k) || HasKey(actual, k)
    ensures exists keys :: Disagrees(actual, expected, path, keys, d)
    decreases expected, 0
  {
    hide Find, DifferencesAt, Disagrees;
    AtStep(actual, expected, path, k);
    DisagreesHere(actual, expected, path, k, d);
    var wanted := Find(expected, k);
    var found := Find(actual, k);
    if found.Some? && wanted.Some? && found.value.Group? && wanted.value.Group? {
      assert Entry(k, wanted.value) in expected;
      ListedExactly(found.value.entries, wanted.value.entries, NameIn(path, k), d);
      var rest :| Disagrees(found.value.entries, wanted.value.entries, NameIn(path, k), rest, d);
      DisagreesSomewhere(found.value.entries, wanted.value.entries, NameIn(path, k), rest, d);
      DisagreesBelow(actual, expected, path, k, rest, d);
    }
  }

  lemma FoundAt(actual: seq<Entry>, expected: seq<Entry>, path: string, k: string, rest: seq<string>, d: Difference)
    requires Disagrees(actual, expected, path, [k] + rest, d)
    ensures d in DifferencesAt(actual, expected, path, k)
    decreases expected, 0
  {
    hide Find, DifferencesAt, Disagrees;
    AtStep(actual, expected, path, k);
    if rest == [] {
      assert [k] + rest == [k];
      DisagreesHere(actual, expected, path, k, d);
    } else {
      DisagreesBelow(actual, expected, path, k, rest, d);
      var wanted := Find(expected, k);
      assert Entry(k, wanted.value) in expected;
      ListedExactly(Find(actual, k).value.entries, wanted.value.entries, NameIn(path, k), d);
    }
  }

  // ----- Equal trees -----

  /** A token tree without the order of its entries. */
  datatype Tree = Leaf(text: string) | Node(children: map<string, Tree>)

  function Meaning(v: Value): Tree
    decreases v, 1
  {
    match v case Scalar(text) => Leaf(text) case Group(entries) => Node(Children(entries))
  }

  function Children(entries: seq<Entry>): map<string, Tree>
    decreases entries, 0
  {
    if entries == [] then map[] else Children(entries[1..])[entries[0].key := Meaning(entries[0].value)]
  }

  lemma {:induction false} ChildIsFound(entries: seq<Entry>, k: string)
    ensures k in Children(entries) <==> Find(entries, k).Some?
    ensures k in Children(entries) ==> Children(entries)[k] == Meaning(Find(entries, k).value)
  {
    hide Meaning;
    if entries != [] { ChildIsFound(entries[1..], k); }
  }

  /** Nothing is listed exactly if the trees are equal, whatever the order of their entries. */
  lemma {:induction false} SilentExactlyOnEqual(actual: seq<Entry>, expected: seq<Entry>, path: string)
    ensures Differences(actual, expected, path) == [] <==> Children(actual) == Children(expected)
    decreases expected, 1
  {
    hide Find, DifferencesAt, Children, AllKeys;
    var keys := AllKeys(actual, expected);
    SilentOver(actual, expected, path, keys);
    forall k ensures k in keys <==> k in Children(actual) || k in Children(expected) {
      ChildIsFound(actual, k);
      ChildIsFound(expected, k);
    }
    forall k | k in keys
      ensures DifferencesAt(actual, expected, path, k) == []
              <==> k in Children(actual) && k in Children(expected) && Children(actual)[k] == Children(expected)[k]
    {
      SilentAt(actual, expected, path, k);
    }
  }

  lemma {:induction false} SilentOver(actual: seq<Entry>, expected: seq<Entry>, path: string, keys: seq<string>)
    ensures DifferencesOver(actual, expected, path, keys) == []
            <==> forall k :: k in keys ==> DifferencesAt(actual, expected, path, k) == []
  {
    hide DifferencesAt, DifferencesOver;
    OverStep(actual, expected, path, keys);
    if keys != [] {
      SilentOver(actual, expected, path, keys[1..]);
      assert forall k :: k in keys <==> k == keys[0] || k in keys[1..];
    }
  }

  lemma SilentAt(actual: seq<Entry>, expected: seq<Entry>, path: string, k: string)
    requires HasKey(expected, k) || HasKey(actual, k)
    ensures DifferencesAt(actual, expected, path, k) == []
            <==> k in Children(actual) && k in Children(expected) && Children(actual)[k] == Children(expected)[k]
    decreases expected, 0
  {
    hide Find, DifferencesAt, Children, Differences;
    AtStep(actual, expected, path, k);
    ChildIsFound(actual, k);
    ChildIsFound(expected, k);
    var wanted := Find(expected, k);
    var found := Find(actual, k);
    if found.Some? && wanted.Some? {
      if found.value.Group? && wanted.value.Group? {
        assert Entry(k, wanted.value) in expected;
        SilentExactlyOnEqual(found.value.entries, wanted.value.entries, NameIn(path, k));
      }
    }
  }
}
