/**
 * Adding marginal figures to the stored ones (packages/statistics-refold/src/merge-figures.ts). The
 * insertion-ordered map is the sequence of its slots; amounts are exact numbers.
 */
module MergeFigures {
  import opened Options
  import opened Text

  datatype Identity = Identity(collectorCode: string, actorGranularity: string, actorId: string,
                               competitionGranularity: string, competitionId: string)

  datatype Figure = Figure(identity: Identity, value: real, samples: real)

  function Parts(i: Identity): seq<string>
  {
    [i.collectorCode, i.actorGranularity, i.actorId, i.competitionGranularity, i.competitionId]
  }

  function KeyOf(f: Figure): string { Join(Parts(f.identity), " ") }

  datatype Slot = Slot(key: string, figure: Figure)

  function Get(slots: seq<Slot>, key: string): Option<Figure>
  {
    if slots == [] then None else if slots[0].key == key then Some(slots[0].figure) else Get(slots[1..], key)
  }

  /** Overwrites the slot of the key in place, or adds one at the end. */
  function Put(slots: seq<Slot>, key: string, f: Figure): seq<Slot>
  {
    if slots == [] then [Slot(key, f)]
    else if slots[0].key == key then [Slot(key, f)] + slots[1..]
    else [slots[0]] + Put(slots[1..], key, f)
  }

  function Added(current: Option<Figure>, f: Figure): Figure
  {
    match current
    case None => Figure(f.identity, 0.0 + f.value, 0.0 + f.samples)
    case Some(c) => Figure(f.identity, c.value + f.value, c.samples + f.samples)
  }

  function Add(slots: seq<Slot>, f: Figure): seq<Slot> { Put(slots, KeyOf(f), Added(Get(slots, KeyOf(f)), f)) }

  function SetAll(slots: seq<Slot>, existing: seq<Figure>): seq<Slot>
    decreases existing
  {
    if existing == [] then slots else SetAll(Put(slots, KeyOf(existing[0]), existing[0]), existing[1..])
  }

  function AddAll(slots: seq<Slot>, marginal: seq<Figure>): seq<Slot>
    decreases marginal
  {
    if marginal == [] then slots else AddAll(Add(slots, marginal[0]), marginal[1..])
  }

  function Values(slots: seq<Slot>): (r: seq<Figure>)
    ensures |r| == |slots|
    ensures forall i :: 0 <= i < |slots| ==> r[i] == slots[i].figure
  {
    if slots == [] then [] else [slots[0].figure] + Values(slots[1..])
  }

  /** The figures a merge produces. */
  function Merged(existing: seq<Figure>, marginal: seq<Figure>): seq<Figure>
  {
    Values(AddAll(SetAll([], existing), marginal))
  }

  method Merge(existing: seq<Figure>, marginal: seq<Figure>) returns (merged: seq<Figure>)
    ensures merged == Merged(existing, marginal)
  {
    hide Put, Get, KeyOf;
    var slots: seq<Slot> := [];
    for i := 0 to |existing|
      invariant SetAll(slots, existing[i..]) == SetAll([], existing)
    {
      assert existing[i..][1..] == existing[i + 1..];
      slots := Put(slots, KeyOf(existing[i]), existing[i]);
    }
    ghost var indexed := slots;
    for i := 0 to |marginal|
      invariant AddAll(slots, marginal[i..]) == AddAll(indexed, marginal)
    {
      assert marginal[i..][1..] == marginal[i + 1..];
      var key := KeyOf(marginal[i]);
      var current := Get(slots, key);
      slots := Put(slots, key, Added(current, marginal[i]));
    }
    return Values(slots);
  }

  // ----- Slots and their keys -----

  function Keys(slots: seq<Slot>): (keys: seq<string>)
    ensures |keys| == |slots|
    ensures forall i :: 0 <= i < |slots| ==> keys[i] == slots[i].key
  {
    if slots == [] then [] else [slots[0].key] + Keys(slots[1..])
  }

  function KeysOf(figures: seq<Figure>): (keys: seq<string>)
    ensures |keys| == |figures|
    ensures forall i :: 0 <= i < |figures| ==> keys[i] == KeyOf(figures[i])
  {
    if figures == [] then [] else [KeyOf(figures[0])] + KeysOf(figures[1..])
  }

  /** Every slot is filed under its figure's key, and no two under one. */
  predicate Filed(slots: seq<Slot>)
  {
    Distinct(Keys(slots)) && Labelled(slots)
  }

  predicate Labelled(slots: seq<Slot>) { forall i :: 0 <= i < |slots| ==> slots[i].key == KeyOf(slots[i].figure) }

  /** The keys in the order they first occur. */
  function FirstSeen(seen: seq<string>, keys: seq<string>): seq<string>
    decreases keys
  {
    if keys == [] then seen else FirstSeen(if keys[0] in seen then seen else seen + [keys[0]], keys[1..])
  }

  lemma {:induction false} PutKeys(slots: seq<Slot>, key: string, f: Figure)
    ensures Keys(Put(slots, key, f)) == if key in Keys(slots) then Keys(slots) else Keys(slots) + [key]
    ensures Get(slots, key).Some? <==> key in Keys(slots)
  {
    if slots != [] {
      assert Keys(slots) == [slots[0].key] + Keys(slots[1..]);
      if slots[0].key != key {
        PutKeys(slots[1..], key, f);
        var more := Put(slots, key, f);
        assert more[1..] == Put(slots[1..], key, f);
      }
    }
  }

  lemma {:induction false} PutFigures(slots: seq<Slot>, key: string, f: Figure)
    requires Labelled(slots) && KeyOf(f) == key
    ensures Labelled(Put(slots, key, f))
  {
    hide KeyOf;
    if slots != [] && slots[0].key != key {
      var rest := Put(slots[1..], key, f);
      PutFigures(slots[1..], key, f);
      assert Put(slots, key, f) == [slots[0]] + rest;
      assert Labelled([slots[0]] + rest);
    }
  }

  lemma PutFiles(slots: seq<Slot>, f: Figure)
    requires Filed(slots)
    ensures Filed(Put(slots, KeyOf(f), f))
  {
    hide KeyOf, Put;
    PutKeys(slots, KeyOf(f), f);
    PutFigures(slots, KeyOf(f), f);
  }

  lemma {:induction false} SetAllFiles(slots: seq<Slot>, existing: seq<Figure>)
    requires Filed(slots)
    ensures Filed(SetAll(slots, existing))
    ensures Keys(SetAll(slots, existing)) == FirstSeen(Keys(slots), KeysOf(existing))
    decreases existing
  {
    hide KeyOf, Put, Filed;
    if existing != [] {
      PutFiles(slots, existing[0]);
      PutKeys(slots, KeyOf(existing[0]), existing[0]);
      SetAllFiles(Put(slots, KeyOf(existing[0]), existing[0]), existing[1..]);
      assert KeysOf(existing)[1..] == KeysOf(existing[1..]);
    }
  }

  lemma SameKey(current: Option<Figure>, f: Figure)
    ensures KeyOf(Added(current, f)) == KeyOf(f)
  {
  }

  lemma {:induction false} AddAllFiles(slots: seq<Slot>, marginal: seq<Figure>)
    requires Filed(slots)
    ensures Filed(AddAll(slots, marginal))
    ensures Keys(AddAll(slots, marginal)) == FirstSeen(Keys(slots), KeysOf(marginal))
    decreases marginal
  {
    hide KeyOf, Put, Filed, Get, Added;
    if marginal != [] {
      var f := Added(Get(slots, KeyOf(marginal[0])), marginal[0]);
      SameKey(Get(slots, KeyOf(marginal[0])), marginal[0]);
      PutFiles(slots, f);
      PutKeys(slots, KeyOf(f), f);
      AddAllFiles(Add(slots, marginal[0]), marginal[1..]);
      assert KeysOf(marginal)[1..] == KeysOf(marginal[1..]);
    }
  }

  lemma FiledKeys(slots: seq<Slot>)
    requires Filed(slots)
    ensures KeysOf(Values(slots)) == Keys(slots)
  {
    hide KeyOf;
  }

  /** The merged figures: each key once, in the order the keys first occur in the two lists. */
  lemma MergedKeys(existing: seq<Figure>, marginal: seq<Figure>)
    ensures KeysOf(Merged(existing, marginal)) == FirstSeen(FirstSeen([], KeysOf(existing)), KeysOf(marginal))
    ensures Distinct(KeysOf(Merged(existing, marginal)))
  {
    hide KeyOf, SetAll, AddAll, FirstSeen;
    SetAllFiles([], existing);
    AddAllFiles(SetAll([], existing), marginal);
    FiledKeys(AddAll(SetAll([], existing), marginal));
  }

  // ----- Merging in turn -----

  lemma {:induction false} AddAllAppend(slots: seq<Slot>, a: seq<Figure>, b: seq<Figure>)
    ensures AddAll(slots, a + b) == AddAll(AddAll(slots, a), b)
    decreases a
  {
    hide Add;
    if a == [] {
      assert a + b == b;
    } else {
      assert (a + b)[1..] == a[1..] + b;
      AddAllAppend(Add(slots, a[0]), a[1..], b);
    }
  }

  lemma {:induction false} PutAtEnd(slots: seq<Slot>, key: string, f: Figure)
    requires key !in Keys(slots)
    ensures Put(slots, key, f) == slots + [Slot(key, f)]
  {
    if slots != [] {
      assert slots[0].key == Keys(slots)[0];
      PutAtEnd(slots[1..], key, f);
    }
  }

  /** Filing the figures of filed slots again gives the same slots. */
  lemma {:induction false} Refiled(done: seq<Slot>, slots: seq<Slot>)
    requires Filed(done + slots)
    ensures SetAll(done, Values(slots)) == done + slots
    decreases slots
  {
    hide KeyOf, Put;
    if slots == [] {
      assert done + slots == done;
    } else {
      var s := slots[0];
      assert (done + slots)[|done|] == s;
      assert s.key !in Keys(done) by {
        forall i | 0 <= i < |done| ensures Keys(done)[i] != s.key {
          assert Keys(done + slots)[i] == done[i].key && Keys(done + slots)[|done|] == s.key;
        }
      }
      PutAtEnd(done, s.key, s.figure);
      assert done + [Slot(s.key, s.figure)] + slots[1..] == done + slots;
      Refiled(done + [s], slots[1..]);
      assert Values(slots)[1..] == Values(slots[1..]);
    }
  }

  lemma NothingFiled()
    ensures Filed([])
  {
  }

  /** Merging two batches in turn is merging them together, order included. */
  lemma MergedInTurn(existing: seq<Figure>, first: seq<Figure>, second: seq<Figure>)
    ensures Merged(Merged(existing, first), second) == Merged(existing, first + second)
  {
    hide KeyOf, SetAll, AddAll, Filed;
    var start := SetAll([], existing);
    NothingFiled();
    SetAllFiles([], existing);
    AddAllFiles(start, first);
    assert [] + AddAll(start, first) == AddAll(start, first);
    Refiled([], AddAll(start, first));
    AddAllAppend(start, first, second);
  }

  // ----- Conservation -----

  /** The value and the samples filed under a key. */
  function SumAt(figures: seq<Figure>, key: string): (real, real)
  {
    if figures == [] then (0.0, 0.0)
    else
      var rest := SumAt(figures[1..], key);
      if KeyOf(figures[0]) == key then (figures[0].value + rest.0, figures[0].samples + rest.1) else rest
  }

  function Total(figures: seq<Figure>): (real, real)
  {
    if figures == [] then (0.0, 0.0)
    else
      var rest := Total(figures[1..]);
      (figures[0].value + rest.0, figures[0].samples + rest.1)
  }

  function Plus(a: (real, real), b: (real, real)): (real, real) { (a.0 + b.0, a.1 + b.1) }

  lemma FiledTail(slots: seq<Slot>)
    requires Filed(slots) && slots != []
    ensures Filed(slots[1..]) && slots[0].key !in Keys(slots[1..]) && slots[0].key == KeyOf(slots[0].figure)
  {
    hide KeyOf;
    assert forall i :: 0 <= i < |slots[1..]| ==> Keys(slots)[i + 1] == Keys(slots[1..])[i];
    assert Keys(slots)[0] == slots[0].key;
  }

  lemma {:induction false} NothingAt(slots: seq<Slot>, key: string)
    requires Filed(slots) && key !in Keys(slots)
    ensures SumAt(Values(slots), key) == (0.0, 0.0)
  {
    hide KeyOf, Filed;
    if slots != [] {
      FiledTail(slots);
      assert slots[0].key == Keys(slots)[0];
      assert Keys(slots) == [slots[0].key] + Keys(slots[1..]);
      NothingAt(slots[1..], key);
      assert Values(slots)[1..] == Values(slots[1..]);
    }
  }

  lemma SumStep(slots: seq<Slot>, key: string)
    requires slots != []
    ensures SumAt(Values(slots), key)
            == Plus(if KeyOf(slots[0].figure) == key then (slots[0].figure.value, slots[0].figure.samples) else (0.0, 0.0),
                    SumAt(Values(slots[1..]), key))
    ensures Total(Values(slots)) == Plus((slots[0].figure.value, slots[0].figure.samples), Total(Values(slots[1..])))
  {
    hide KeyOf;
    assert Values(slots)[1..] == Values(slots[1..]);
  }

  lemma SumOne(f: Figure, key: string)
    ensures SumAt([f], key) == if KeyOf(f) == key then (f.value, f.samples) else (0.0, 0.0)
  {
    hide KeyOf;
    assert [f][1..] == [];
  }

  lemma AddStep(slots: seq<Slot>, f: Figure)
    requires slots != []
    ensures slots[0].key == KeyOf(f) ==> Add(slots, f) == [Slot(KeyOf(f), Added(Some(slots[0].figure), f))] + slots[1..]
    ensures slots[0].key != KeyOf(f) ==> Add(slots, f) == [slots[0]] + Add(slots[1..], f)
  {
    hide KeyOf, Added;
  }

  lemma AddSumsHere(s: Slot, rest: seq<Slot>, f: Figure, key: string)
    requires s.key == KeyOf(f) == KeyOf(s.figure)
    ensures var more := Add([s] + rest, f);
            SumAt(Values(more), key) == Plus(SumAt(Values([s] + rest), key), SumAt([f], key))
            && Total(Values(more)) == Plus(Total(Values([s] + rest)), (f.value, f.samples))
  {
    hide KeyOf, Add, SumAt, Total, Values;
    var g := Added(Some(s.figure), f);
    var slots := [s] + rest;
    var more := [Slot(s.key, g)] + rest;
    assert slots[1..] == rest && more[1..] == rest;
    AddStep(slots, f);
    SameKey(Some(s.figure), f);
    SumOne(f, key);
    SumStep(slots, key);
    SumStep(more, key);
  }

  /** One added figure adds its amounts under its key and nowhere else. */
  lemma {:induction false} AddSums(slots: seq<Slot>, f: Figure, key: string)
    requires Filed(slots)
    ensures SumAt(Values(Add(slots, f)), key) == Plus(SumAt(Values(slots), key), SumAt([f], key))
    ensures Total(Values(Add(slots, f))) == Plus(Total(Values(slots)), (f.value, f.samples))
  {
    hide KeyOf, Filed, Add, SumAt, Total, Values, Added;
    if slots == [] {
      AddFirst(f);
      SumOne(f, key);
      SumStep([Slot(KeyOf(f), Figure(f.identity, f.value, f.samples))], key);
      NoSum(key);
    } else {
      var s, rest := slots[0], slots[1..];
      FiledTail(slots);
      assert slots == [s] + rest;
      if s.key == KeyOf(f) {
        AddSumsHere(s, rest, f, key);
      } else {
        AddStep(slots, f);
        AddSums(rest, f, key);
        var more := [s] + Add(rest, f);
        assert more[1..] == Add(rest, f);
        SumStep(slots, key);
        SumStep(more, key);
      }
    }
  }

  lemma AddFirst(f: Figure)
    ensures var s := Slot(KeyOf(f), Figure(f.identity, f.value, f.samples));
            Add([], f) == [s] && [s][1..] == [] && KeyOf(s.figure) == KeyOf(f)
  {
  }

  lemma NoSum(key: string)
    ensures SumAt(Values([]), key) == (0.0, 0.0) && Total(Values([])) == (0.0, 0.0)
  {
  }

  lemma SumFirst(figures: seq<Figure>, key: string)
    requires figures != []
    ensures SumAt(figures, key) == Plus(SumAt([figures[0]], key), SumAt(figures[1..], key))
    ensures Total(figures) == Plus((figures[0].value, figures[0].samples), Total(figures[1..]))
  {
    hide KeyOf, SumAt, Total;
    SumOne(figures[0], key);
    SumUnfolds(figures, key);
  }

  lemma SumUnfolds(figures: seq<Figure>, key: string)
    requires figures != []
    ensures SumAt(figures, key) == var rest := SumAt(figures[1..], key);
              if KeyOf(figures[0]) == key then (figures[0].value + rest.0, figures[0].samples + rest.1) else rest
    ensures Total(figures) == var rest := Total(figures[1..]); (figures[0].value + rest.0, figures[0].samples + rest.1)
  {
    hide KeyOf;
  }

  lemma {:induction false} AddAllSums(slots: seq<Slot>, marginal: seq<Figure>, key: string)
    requires Filed(slots)
    ensures SumAt(Values(AddAll(slots, marginal)), key) == Plus(SumAt(Values(slots), key), SumAt(marginal, key))
    ensures Total(Values(AddAll(slots, marginal))) == Plus(Total(Values(slots)), Total(marginal))
    decreases marginal
  {
    hide KeyOf, Filed, Put, Get, Added, SumAt, Total, Values;
    if marginal == [] {
      NoSum(key);
      assert Values([]) == [] by { assert |Values([])| == 0; }
    } else {
      var f := marginal[0];
      AddSums(slots, f, key);
      SameKey(Get(slots, KeyOf(f)), f);
      PutFiles(slots, Added(Get(slots, KeyOf(f)), f));
      AddAllSums(Add(slots, f), marginal[1..], key);
      SumFirst(marginal, key);
    }
  }

  /** With distinct keys the stored figures are filed as they are. */
  lemma DistinctAreFiled(existing: seq<Figure>)
    requires Distinct(KeysOf(existing))
    ensures Values(SetAll([], existing)) == existing
  {
    hide KeyOf, SetAll, Keys, KeysOf, Values;
    var slots := seq(|existing|, i requires 0 <= i < |existing| => Slot(KeyOf(existing[i]), existing[i]));
    assert Keys(slots) == KeysOf(existing);
    assert Values(slots) == existing;
    assert [] + slots == slots;
    Refiled([], slots);
  }

  /** Whatever was stored, a batch adds its own amounts to what the stored figures alone amount to. */
  lemma MergedAdds(existing: seq<Figure>, marginal: seq<Figure>, key: string)
    ensures SumAt(Merged(existing, marginal), key) == Plus(SumAt(Merged(existing, []), key), SumAt(marginal, key))
    ensures Total(Merged(existing, marginal)) == Plus(Total(Merged(existing, [])), Total(marginal))
  {
    hide KeyOf, SetAll, SumAt, Total, KeysOf, Filed, Add;
    NothingFiled();
    SetAllFiles([], existing);
    AddAllSums(SetAll([], existing), marginal, key);
  }

  /** A merge adds up: under every key, and in all. */
  lemma MergedSums(existing: seq<Figure>, marginal: seq<Figure>, key: string)
    requires Distinct(KeysOf(existing))
    ensures SumAt(Merged(existing, marginal), key) == Plus(SumAt(existing, key), SumAt(marginal, key))
    ensures Total(Merged(existing, marginal)) == Plus(Total(existing), Total(marginal))
  {
    hide KeyOf, SetAll, AddAll, SumAt, Total, KeysOf, Filed;
    NothingFiled();
    DistinctAreFiled(existing);
    SetAllFiles([], existing);
    AddAllSums(SetAll([], existing), marginal, key);
  }

  // ----- Keys and identities -----

  predicate SpaceFree(i: Identity) { forall p :: p in Parts(i) ==> ' ' !in p }

  /** The key names this identity alone. */
  ghost predicate KeyNames(i: Identity) { forall j :: Join(Parts(j), " ") == Join(Parts(i), " ") ==> j == i }

  lemma KeyOfParts(i: Identity)
    ensures Join(Parts(i), " ") == i.collectorCode + " " + (i.actorGranularity + " " + (i.actorId + " "
                                   + (i.competitionGranularity + " " + i.competitionId)))
  {
    var p := Parts(i);
    JoinStep(p, " ");
    JoinStep(p[1..], " ");
    JoinStep(p[1..][1..], " ");
    JoinStep(p[1..][1..][1..], " ");
    JoinOne(i.competitionId, " ");
  }

  lemma PartsInjective(i: Identity, j: Identity)
    requires Parts(i) == Parts(j)
    ensures i == j
  {
    var p, q := Parts(i), Parts(j);
    assert p[0] == q[0] && p[1] == q[1] && p[2] == q[2] && p[3] == q[3] && p[4] == q[4];
  }

  /** The words of a key: those of its parts. */
  lemma KeyWords(i: Identity)
    ensures Split(Join(Parts(i), " "), ' ')
            == Split(i.collectorCode, ' ') + (Split(i.actorGranularity, ' ') + (Split(i.actorId, ' ')
               + (Split(i.competitionGranularity, ' ') + Split(i.competitionId, ' '))))
  {
    hide Split, Join;
    KeyOfParts(i);
    var last := i.competitionGranularity + ([' '] + i.competitionId);
    var middle := i.actorId + ([' '] + last);
    var tail := i.actorGranularity + ([' '] + middle);
    SplitConcat(i.competitionGranularity, ' ', i.competitionId);
    SplitConcat(i.actorId, ' ', last);
    SplitConcat(i.actorGranularity, ' ', middle);
    SplitConcat(i.collectorCode, ' ', tail);
    assert i.competitionGranularity + " " + i.competitionId == last;
    assert i.actorId + " " + last == middle;
    assert i.actorGranularity + " " + middle == tail;
    assert i.collectorCode + " " + tail == i.collectorCode + ([' '] + tail);
  }

  lemma OneWord(s: string)
    ensures |Split(s, ' ')| == 1 <==> ' ' !in s
    ensures ' ' !in s ==> Split(s, ' ') == [s]
  {
    JoinSplit(s, ' ');
    JoinOne(Split(s, ' ')[0], " ");
    if ' ' !in s { SplitWhole(s, ' '); }
    if |Split(s, ' ')| == 1 { assert Split(s, ' ') == [Split(s, ' ')[0]]; }
  }

  lemma WordsOfParts(i: Identity)
    ensures SpaceFree(i) <==> |Split(Join(Parts(i), " "), ' ')| == 5
    ensures SpaceFree(i) ==> Split(Join(Parts(i), " "), ' ') == Parts(i)
  {
    hide Split, Join;
    KeyWords(i);
    OneWord(i.collectorCode);
    OneWord(i.actorGranularity);
    OneWord(i.actorId);
    OneWord(i.competitionGranularity);
    OneWord(i.competitionId);
    assert forall p :: p in Parts(i) <==> p == i.collectorCode || p == i.actorGranularity || p == i.actorId
                                          || p == i.competitionGranularity || p == i.competitionId;
  }

  /** A word at the boundary of two parts can belong to either. */
  lemma {:induction false} WordMoves(before: seq<string>, x: string, word: string, z: string, behind: seq<string>)
    ensures Join(before + [x + " " + word, z] + behind, " ") == Join(before + [x, word + " " + z] + behind, " ")
    decreases before
  {
    hide Join;
    var p, q := before + [x + " " + word, z] + behind, before + [x, word + " " + z] + behind;
    JoinStep(p, " ");
    JoinStep(q, " ");
    if before == [] {
      assert p[1..] == [z] + behind && q[1..] == [word + " " + z] + behind;
      FirstGrows(word + " ", z, behind);
      var tail := Join([z] + behind, " ");
      assert x + " " + word + " " + tail == x + " " + (word + " " + tail);
    } else {
      WordMoves(before[1..], x, word, z, behind);
      assert p[1..] == before[1..] + [x + " " + word, z] + behind && q[1..] == before[1..] + [x, word + " " + z] + behind;
    }
  }

  lemma FirstGrows(more: string, z: string, behind: seq<string>)
    ensures Join([more + z] + behind, " ") == more + Join([z] + behind, " ")
  {
    hide Join;
    if behind == [] {
      assert [more + z] + behind == [more + z] && [z] + behind == [z];
      JoinOne(more + z, " ");
      JoinOne(z, " ");
    } else {
      JoinStep([more + z] + behind, " ");
      JoinStep([z] + behind, " ");
      assert ([more + z] + behind)[1..] == behind && ([z] + behind)[1..] == behind;
      assert more + z + " " + Join(behind, " ") == more + (z + " " + Join(behind, " "));
    }
  }

  function OfParts(p: seq<string>): Identity
    requires |p| == 5
  {
    Identity(p[0], p[1], p[2], p[3], p[4])
  }

  lemma AtSpace(part: string) returns (a: string, b: string)
    requires ' ' in part
    ensures part == a + " " + b && |a| < |part|
  {
    var k := FirstIndex(part, ' ');
    a, b := part[..k], part[k + 1..];
  }

  /** The first part gives a word to the second. */
  lemma SharedFirst(p: seq<string>) returns (q: seq<string>)
    requires |p| >= 2 && ' ' in p[0]
    ensures |q| == |p| && q != p && Join(q, " ") == Join(p, " ")
  {
    hide Join;
    var a, b := AtSpace(p[0]);
    WordMoves([], a, b, p[1], p[2..]);
    q := [] + [a, b + " " + p[1]] + p[2..];
    assert p == [] + [a + " " + b, p[1]] + p[2..];
    assert q[0] == a;
  }

  /** A later part gives a word to the one before. */
  lemma SharedLater(p: seq<string>, k: nat) returns (q: seq<string>)
    requires 0 < k < |p| && ' ' in p[k]
    ensures |q| == |p| && q != p && Join(q, " ") == Join(p, " ")
  {
    hide Join;
    var a, b := AtSpace(p[k]);
    WordMoves(p[..k - 1], p[k - 1], a, b, p[k + 1..]);
    q := p[..k - 1] + [p[k - 1] + " " + a, b] + p[k + 1..];
    assert p == p[..k - 1] + [p[k - 1], a + " " + b] + p[k + 1..];
    assert q[k - 1] == p[k - 1] + " " + a;
  }

  /** An identity with a space in a part shares its key with another. */
  lemma KeyShared(i: Identity) returns (j: Identity)
    requires !SpaceFree(i)
    ensures j != i && Join(Parts(j), " ") == Join(Parts(i), " ")
  {
    hide Join;
    var p := Parts(i);
    var k :| 0 <= k < 5 && ' ' in p[k];
    var q;
    if k == 0 { q := SharedFirst(p); } else { q := SharedLater(p, k); }
    j := OfParts(q);
    assert Parts(j) == q;
  }

  /** The exact condition: a key names one identity alone if and only if no part of it has a space. */
  lemma KeyNamesExactly(i: Identity)
    ensures KeyNames(i) <==> SpaceFree(i)
  {
    hide Join, Split;
    if SpaceFree(i) {
      forall j | Join(Parts(j), " ") == Join(Parts(i), " ") ensures j == i {
        WordsOfParts(i);
        WordsOfParts(j);
        PartsInjective(i, j);
      }
    } else {
      var j := KeyShared(i);
    }
  }

  /** The last four parts have no space: granularities are words and ids are UUIDs. */
  predicate TailSpaceFree(i: Identity)
  {
    ' ' !in i.actorGranularity && ' ' !in i.actorId && ' ' !in i.competitionGranularity && ' ' !in i.competitionId
  }

  /** Among such identities a key names one, whatever the collector's code. */
  lemma KeyNamesIdentity(f: Figure, g: Figure)
    requires TailSpaceFree(f.identity) && TailSpaceFree(g.identity)
    ensures KeyOf(f) == KeyOf(g) <==> f.identity == g.identity
  {
    hide Join, Split, KeyOf;
    var i, j := f.identity, g.identity;
    assert KeyOf(f) == Join(Parts(i), " ") && KeyOf(g) == Join(Parts(j), " ") by { KeyIs(f); KeyIs(g); }
    if KeyOf(f) == KeyOf(g) {
      TailWords(i);
      TailWords(j);
      var v, w := Split(i.collectorCode, ' '), Split(j.collectorCode, ' ');
      var p, q := v + Parts(i)[1..], w + Parts(j)[1..];
      assert |v| == |w| && p[..|v|] == v && q[..|v|] == w && p[|v|..] == Parts(i)[1..] && q[|v|..] == Parts(j)[1..];
      JoinSplit(i.collectorCode, ' ');
      JoinSplit(j.collectorCode, ' ');
      assert Parts(i) == [i.collectorCode] + Parts(i)[1..] && Parts(j) == [j.collectorCode] + Parts(j)[1..];
      PartsInjective(i, j);
    }
  }

  lemma KeyIs(f: Figure)
    ensures KeyOf(f) == Join(Parts(f.identity), " ")
  {
  }

  lemma TailWords(i: Identity)
    requires TailSpaceFree(i)
    ensures Split(Join(Parts(i), " "), ' ') == Split(i.collectorCode, ' ') + Parts(i)[1..]
  {
    hide Join, Split;
    KeyWords(i);
    OneWord(i.actorGranularity);
    OneWord(i.actorId);
    OneWord(i.competitionGranularity);
    OneWord(i.competitionId);
  }

  lemma AddAllOne(slots: seq<Slot>, f: Figure, later: seq<Figure>)
    ensures AddAll(slots, [f] + later) == AddAll(Add(slots, f), later) && AddAll(slots, []) == slots
  {
    hide Add;
    assert ([f] + later)[1..] == later;
  }

  /** What sharing a key means: the merge returns one figure, with the later identity and both amounts. */
  lemma SharedKeyMerges(f: Figure, g: Figure)
    ensures Merged([], [f, g]) == if KeyOf(f) == KeyOf(g) then [Figure(g.identity, f.value + g.value, f.samples + g.samples)] else [f, g]
  {
    hide KeyOf, Add, AddAll;
    var one := Add([], f);
    AddFirst(f);
    assert one == [Slot(KeyOf(f), f)] && one[1..] == [];
    AddAllOne([], f, [g]);
    AddAllOne(one, g, []);
    AddAllOne(Add(one, g), g, []);
    assert [f] + [g] == [f, g] && [g] + [] == [g];
    AddStep(one, g);
    AddFirst(g);
    var two := Add(one, g);
    assert two == if KeyOf(f) == KeyOf(g) then [Slot(KeyOf(g), Added(Some(f), g))] else [Slot(KeyOf(f), f), Slot(KeyOf(g), g)];
  }
}
