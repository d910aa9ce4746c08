/** Canonical URLs (packages/routing/src/paths.ts). A scoped number is an integer. */
module Paths {
  import opened Options
  import opened Text
  import opened JsNumber

  datatype RouteInput = RouteInput(organizationAlias: string, tournamentAlias: Option<string>, stageNumber: Option<int>,
                                   roundNumber: Option<int>, matchNumber: Option<int>, participantAlias: Option<string>,
                                   locale: Option<string>)

  datatype RouteError = RawIdentifier(field: string) | BadAlias(field: string) | BadNumber(field: string)
                      | StageWithoutTournament | MatchWithoutStage | BadLocale

  datatype Result<T> = Ok(value: T) | Err(error: RouteError)

  predicate IsLower(c: char) { 'a' <= c <= 'z' }

  predicate IsUpper(c: char) { 'A' <= c <= 'Z' }

  predicate IsHex(c: char) { IsDigit(c) || 'a' <= c <= 'f' || 'A' <= c <= 'F' }

  /** `/^[a-z0-9]+(-[a-z0-9]+)*$/`: single hyphens between letters and digits. */
  predicate IsAlias(s: string)
  {
    s != "" && forall i :: 0 <= i < |s| ==> AliasCharAt(s, i)
  }

  predicate AliasCharAt(s: string, i: nat)
    requires i < |s|
  {
    IsLower(s[i]) || IsDigit(s[i]) || (s[i] == '-' && 0 < i < |s| - 1 && s[i + 1] != '-')
  }

  /** The eight-four-four-four-twelve form of an identifier. */
  predicate IsUuid(s: string)
  {
    |s| == 36 && forall i :: 0 <= i < 36 ==> if i == 8 || i == 13 || i == 18 || i == 23 then s[i] == '-' else IsHex(s[i])
  }

  /** `/^[a-z]{2}(-[A-Z]{2})?$/`. */
  predicate IsLocale(s: string)
  {
    (|s| == 2 || (|s| == 5 && s[2] == '-' && IsUpper(s[3]) && IsUpper(s[4]))) && IsLower(s[0]) && IsLower(s[1])
  }

  // ----- What the patterns accept -----

  /** Lower-case letters and digits. */
  predicate Small(s: string) { forall i :: 0 <= i < |s| ==> 'a' <= s[i] <= 'z' || '0' <= s[i] <= '9' }

  predicate Hex(s: string) { forall i :: 0 <= i < |s| ==> '0' <= s[i] <= '9' || 'a' <= s[i] <= 'f' || 'A' <= s[i] <= 'F' }

  /** An alias without its first character, behind a character that is no hyphen. */
  predicate AliasRest(s: string) { forall i :: 0 <= i < |s| ==> RestCharAt(s, i) }

  predicate RestCharAt(s: string, i: nat)
    requires i < |s|
  {
    IsLower(s[i]) || IsDigit(s[i]) || (s[i] == '-' && i < |s| - 1 && s[i + 1] != '-')
  }

  lemma RestCons(c: char, s: string)
    ensures AliasRest([c] + s) <==> AliasRest(s) && (IsLower(c) || IsDigit(c) || (c == '-' && s != "" && s[0] != '-'))
    ensures AliasRest("")
  {
    var t := [c] + s;
    if AliasRest(t) {
      assert RestCharAt(t, 0);
      forall i | 0 <= i < |s| ensures RestCharAt(s, i) { assert RestCharAt(t, i + 1); }
    }
    if AliasRest(s) {
      forall i | 0 < i < |t| ensures RestCharAt(t, i) { assert RestCharAt(s, i - 1); }
    }
  }

  /** Parts joined by hyphens: the first may be cut short, the others are not empty, and all are small. */
  ghost predicate SmallParts(parts: seq<string>)
    requires parts != []
  {
    Small(parts[0]) && forall k :: 0 < k < |parts| ==> parts[k] != "" && Small(parts[k])
  }

  lemma SmallCons(c: char, s: string)
    ensures Small([c] + s) <==> Small(s) && (IsLower(c) || IsDigit(c))
    ensures Small("")
  {
    var t := [c] + s;
    assert t[0] == c && forall i :: 0 <= i < |s| ==> t[i + 1] == s[i];
    assert forall i :: 0 < i < |t| ==> t[i] == s[i - 1];
  }

  lemma {:induction false} RestIsParts(s: string)
    ensures AliasRest(s) <==> SmallParts(Split(s, '-'))
    ensures Split(s, '-')[0] == "" <==> s == "" || s[0] == '-'
  {
    hide AliasRest, Small, Split;
    SplitStep(s, '-');
    RestCons('-', "");
    SmallCons('-', "");
    if s != "" {
      var c, rest := s[0], s[1..];
      var parts := Split(rest, '-');
      assert s == [c] + rest;
      RestIsParts(rest);
      RestCons(c, rest);
      SmallCons(c, parts[0]);
      if c == '-' {
        var more := [""] + parts;
        assert more[1..] == parts;
        assert forall k :: 0 < k < |more| ==> more[k] == parts[k - 1];
        assert SmallParts(more) ==> more[1] != "" && Small(more[1]) && forall k :: 0 < k < |parts| ==> parts[k] == more[k + 1];
      } else {
        var more := [[c] + parts[0]] + parts[1..];
        assert forall k :: 0 < k < |parts| ==> more[k] == parts[k];
      }
    }
  }

  /** An alias is one or more non-empty runs of lower-case letters and digits, joined by single hyphens. */
  lemma AliasExactly(s: string)
    ensures IsAlias(s) <==> forall p :: p in Split(s, '-') ==> p != "" && Small(p)
  {
    hide Small, Split;
    RestIsParts(s);
    var parts := Split(s, '-');
    if forall p :: p in parts ==> p != "" && Small(p) {
      assert forall k :: 0 <= k < |parts| ==> parts[k] in parts;
    }
    if SmallParts(parts) && parts[0] != "" {
      assert forall k :: 0 <= k < |parts| ==> parts[k] != "" && Small(parts[k]);
    }
    if IsAlias(s) {
      assert AliasCharAt(s, 0);
      forall i | 0 <= i < |s| ensures RestCharAt(s, i) { assert AliasCharAt(s, i); }
    }
    if AliasRest(s) && s != "" && s[0] != '-' {
      forall i | 0 <= i < |s| ensures AliasCharAt(s, i) { assert RestCharAt(s, i); }
    }
  }

  lemma HyphenSplits(a: string, b: string)
    requires '-' !in a
    ensures Split(a + "-" + b, '-') == [a] + Split(b, '-')
  {
    hide Split;
    SplitAppend(a, '-', b);
  }

  lemma HexHasNoHyphen(s: string)
    requires Hex(s)
    ensures '-' !in s
  {
  }

  /** An identifier is five runs of hexadecimal digits, joined by hyphens. */
  lemma UuidExactly(s: string)
    ensures var parts := Split(s, '-');
            IsUuid(s) <==> |parts| == 5 && (forall p :: p in parts ==> Hex(p))
                           && |parts[0]| == 8 && |parts[1]| == 4 && |parts[2]| == 4 && |parts[3]| == 4 && |parts[4]| == 12
  {
    hide Split, Join;
    var parts := Split(s, '-');
    if IsUuid(s) { UuidSplits(s); }
    if |parts| == 5 && (forall p :: p in parts ==> Hex(p))
       && |parts[0]| == 8 && |parts[1]| == 4 && |parts[2]| == 4 && |parts[3]| == 4 && |parts[4]| == 12 {
      JoinSplit(s, '-');
      JoinFive(parts, "-");
      HexJoined(parts[0], parts[1], parts[2], parts[3], parts[4]);
    }
  }

  lemma UuidSplits(s: string)
    requires IsUuid(s)
    ensures Split(s, '-') == [s[..8], s[9..13], s[14..18], s[19..23], s[24..]]
    ensures Hex(s[..8]) && Hex(s[9..13]) && Hex(s[14..18]) && Hex(s[19..23]) && Hex(s[24..])
  {
    hide Split, Hex;
    var a, b, c, d, e := s[..8], s[9..13], s[14..18], s[19..23], s[24..];
    assert Hex(a) && Hex(b) && Hex(c) && Hex(d) && Hex(e) by { UuidRuns(s); }
    HexHasNoHyphen(a);
    HexHasNoHyphen(b);
    HexHasNoHyphen(c);
    HexHasNoHyphen(d);
    HexHasNoHyphen(e);
    assert s[19..] == d + "-" + e && s[14..] == c + "-" + s[19..] && s[9..] == b + "-" + s[14..] && s == a + "-" + s[9..];
    HyphenSplits(a, s[9..]);
    HyphenSplits(b, s[14..]);
    HyphenSplits(c, s[19..]);
    HyphenSplits(d, e);
    SplitWhole(e, '-');
  }

  lemma UuidRuns(s: string)
    requires IsUuid(s)
    ensures Hex(s[..8]) && Hex(s[9..13]) && Hex(s[14..18]) && Hex(s[19..23]) && Hex(s[24..])
  {
    assert forall i :: 0 <= i < 36 && i != 8 && i != 13 && i != 18 && i != 23 ==> IsHex(s[i]);
  }

  lemma JoinFive(parts: seq<string>, sep: string)
    requires |parts| == 5
    ensures Join(parts, sep) == parts[0] + sep + (parts[1] + sep + (parts[2] + sep + (parts[3] + sep + parts[4])))
  {
    hide Join;
    JoinStep(parts, sep);
    JoinStep(parts[1..], sep);
    JoinStep(parts[2..], sep);
    JoinStep(parts[3..], sep);
    JoinOne(parts[4], sep);
    assert parts[1..][1..] == parts[2..] && parts[2..][1..] == parts[3..] && parts[3..][1..] == [parts[4]];
  }

  lemma HexJoined(a: string, b: string, c: string, d: string, e: string)
    requires Hex(a) && Hex(b) && Hex(c) && Hex(d) && Hex(e)
    requires |a| == 8 && |b| == 4 && |c| == 4 && |d| == 4 && |e| == 12
    ensures IsUuid(a + "-" + (b + "-" + (c + "-" + (d + "-" + e))))
  {
    var s := a + "-" + (b + "-" + (c + "-" + (d + "-" + e)));
    assert s[..8] == a && s[9..13] == b && s[14..18] == c && s[19..23] == d && s[24..] == e;
    assert s[8] == '-' && s[13] == '-' && s[18] == '-' && s[23] == '-';
    forall i | 0 <= i < 36 && i != 8 && i != 13 && i != 18 && i != 23 ensures IsHex(s[i]) {
      if i < 8 { assert s[i] == a[i]; }
      else if i < 13 { assert s[i] == b[i - 9]; }
      else if i < 18 { assert s[i] == c[i - 14]; }
      else if i < 23 { assert s[i] == d[i - 19]; }
      else { assert s[i] == e[i - 24]; }
    }
  }

  /** A locale is two lower-case letters, alone or with a hyphen and two upper-case letters. */
  lemma LocaleExactly(s: string)
    ensures IsLocale(s) <==> exists language: string, region: string ::
              LettersFrom(language, 'a', 'z') && LettersFrom(region, 'A', 'Z') && (s == language || s == language + "-" + region)
  {
    if IsLocale(s) {
      var language, region := s[..2], if |s| == 5 then s[3..] else "GB";
      assert LettersFrom(language, 'a', 'z') && LettersFrom(region, 'A', 'Z');
      assert s == language || s == language + "-" + region;
    }
  }

  /** Two letters of a range. */
  ghost predicate LettersFrom(s: string, first: char, last: char) { |s| == 2 && first <= s[0] <= last && first <= s[1] <= last }

  // ----- Validation -----

  function AliasError(field: string, value: Option<string>): Option<RouteError>
  {
    if value.None? then None
    else if IsUuid(value.value) then Some(RawIdentifier(field))
    else if !IsAlias(value.value) then Some(BadAlias(field))
    else None
  }

  function NumberError(field: string, value: Option<int>): Option<RouteError>
  {
    if value.Some? && value.value < 1 then Some(BadNumber(field)) else None
  }

  predicate GoodAlias(value: Option<string>) { value.None? || (IsAlias(value.value) && !IsUuid(value.value)) }

  predicate GoodNumber(value: Option<int>) { value.None? || value.value >= 1 }

  /** The inputs that name something. */
  predicate Valid(input: RouteInput)
  {
    GoodAlias(Some(input.organizationAlias)) && GoodAlias(input.tournamentAlias) && GoodAlias(input.participantAlias)
    && GoodNumber(input.stageNumber) && GoodNumber(input.roundNumber) && GoodNumber(input.matchNumber)
    && (input.stageNumber.Some? ==> input.tournamentAlias.Some?)
    && (input.matchNumber.Some? ==> input.stageNumber.Some?)
  }

  /** The first of two errors. */
  function Either(first: Option<RouteError>, second: Option<RouteError>): Option<RouteError>
  {
    if first.Some? then first else second
  }

  function AliasErrors(input: RouteInput): Option<RouteError>
  {
    Either(AliasError("organizationAlias", Some(input.organizationAlias)),
           Either(AliasError("tournamentAlias", input.tournamentAlias), AliasError("participantAlias", input.participantAlias)))
  }

  function NumberErrors(input: RouteInput): Option<RouteError>
  {
    Either(NumberError("stageNumber", input.stageNumber),
           Either(NumberError("roundNumber", input.roundNumber), NumberError("matchNumber", input.matchNumber)))
  }

  /** Aliases are looked at before numbers, and both before the order of the fields. */
  function FirstError(input: RouteInput): (error: Option<RouteError>)
    ensures error.None? <==> Valid(input)
  {
    hide IsUuid, IsAlias;
    if AliasErrors(input).Some? then AliasErrors(input)
    else if NumberErrors(input).Some? then NumberErrors(input)
    else if input.tournamentAlias.None? && input.stageNumber.Some? then Some(StageWithoutTournament)
    else if input.stageNumber.None? && input.matchNumber.Some? then Some(MatchWithoutStage)
    else None
  }

  /** `validateRouteInput`: the first error, or `None`. */
  method Validate(input: RouteInput) returns (error: Option<RouteError>)
    ensures error == FirstError(input)
    ensures error.None? <==> Valid(input)
  {
    hide IsUuid, IsAlias;
    var aliases := [("organizationAlias", Some(input.organizationAlias)), ("tournamentAlias", input.tournamentAlias),
                    ("participantAlias", input.participantAlias)];
    for i := 0 to |aliases|
      invariant forall j :: 0 <= j < i ==> AliasError(aliases[j].0, aliases[j].1).None?
    {
      error := AliasError(aliases[i].0, aliases[i].1);
      if error.Some? {
        assert i >= 1 ==> AliasError(aliases[0].0, aliases[0].1).None?;
        assert i >= 2 ==> AliasError(aliases[1].0, aliases[1].1).None?;
        assert error == AliasErrors(input);
        return;
      }
    }
    assert AliasError(aliases[0].0, aliases[0].1).None? && AliasError(aliases[1].0, aliases[1].1).None?
           && AliasError(aliases[2].0, aliases[2].1).None?;
    var numbers := [("stageNumber", input.stageNumber), ("roundNumber", input.roundNumber), ("matchNumber", input.matchNumber)];
    for i := 0 to |numbers|
      invariant forall j :: 0 <= j < i ==> NumberError(numbers[j].0, numbers[j].1).None?
    {
      error := NumberError(numbers[i].0, numbers[i].1);
      if error.Some? {
        assert i >= 1 ==> NumberError(numbers[0].0, numbers[0].1).None?;
        assert i >= 2 ==> NumberError(numbers[1].0, numbers[1].1).None?;
        assert error == NumberErrors(input);
        return;
      }
    }
    assert NumberError(numbers[0].0, numbers[0].1).None? && NumberError(numbers[1].0, numbers[1].1).None?
           && NumberError(numbers[2].0, numbers[2].1).None?;
    if input.tournamentAlias.None? && input.stageNumber.Some? { return Some(StageWithoutTournament); }
    if input.stageNumber.None? && input.matchNumber.Some? { return Some(MatchWithoutStage); }
    return None;
  }

  // ----- Paths -----

  function Named(part: string, value: Option<string>): seq<(string, string)>
  {
    if value.Some? then [(part, value.value)] else []
  }

  function Numbered(part: string, value: Option<int>): seq<(string, string)>
  {
    if value.Some? then [(part, ShowInt(value.value))] else []
  }

  /** The scoped fields behind the organization, each with its label. */
  function Pairs(input: RouteInput): seq<(string, string)>
  {
    Named("tournaments", input.tournamentAlias) + Numbered("stages", input.stageNumber) + Numbered("rounds", input.roundNumber)
    + Numbered("matches", input.matchNumber) + Named("participants", input.participantAlias)
  }

  function Flat(pairs: seq<(string, string)>): (flat: seq<string>)
    ensures |flat| == 2 * |pairs|
  {
    if pairs == [] then [] else [pairs[0].0, pairs[0].1] + Flat(pairs[1..])
  }

  function Segments(input: RouteInput): seq<string> { [input.organizationAlias] + Flat(Pairs(input)) }

  /** The path of an input without its locale. */
  function BarePath(input: RouteInput): string { "/" + Join(Segments(input), "/") }

  /** The locale that gets a prefix: any but the primary one. */
  function PrefixLocale(locale: Option<string>): Option<string> { if locale == Some("en") then None else locale }

  function WithLocale(path: string, locale: Option<string>): Result<string>
  {
    if locale.None? || locale.value == "en" then Ok(path)
    else if !IsLocale(locale.value) then Err(BadLocale)
    else Ok(if path == "/" then "/" + locale.value else "/" + locale.value + path)
  }

  /** `path.replace(/^\/[a-z]{2}(-[A-Z]{2})?(?=\/)/, '')`. */
  function StripLocale(path: string): string
  {
    if |path| >= 4 && path[0] == '/' && IsLower(path[1]) && IsLower(path[2]) then
      if |path| >= 7 && path[3] == '-' && IsUpper(path[4]) && IsUpper(path[5]) && path[6] == '/' then path[6..]
      else if path[3] == '/' then path[3..]
      else path
    else path
  }

  /** The inputs for which a path is built. */
  predicate Buildable(input: RouteInput)
  {
    Valid(input) && (PrefixLocale(input.locale).Some? ==> IsLocale(PrefixLocale(input.locale).value))
  }

  function CanonicalPath(input: RouteInput): string
  {
    match PrefixLocale(input.locale) case None => BarePath(input) case Some(l) => "/" + l + BarePath(input)
  }

  method PublicPath(input: RouteInput) returns (path: Result<string>)
    ensures path.Ok? <==> Buildable(input)
    ensures path.Ok? ==> path.value == CanonicalPath(input)
    ensures path.Err? ==> path.error == if Valid(input) then BadLocale else FirstError(input).value
  {
    hide Valid, IsLocale, Flat, Join, Pairs, FirstError;
    var error := Validate(input);
    if error.Some? { return Err(error.value); }
    var segments := PublicSegments(input);
    path := WithLocale("/" + Join(segments, "/"), input.locale);
    assert "/" + Join(segments, "/") != "/" by { BarePathIsLong(input); }
  }

  method PublicSegments(input: RouteInput) returns (segments: seq<string>)
    ensures segments == Segments(input)
  {
    hide Flat, Named, Numbered, ShowInt, Pairs;
    segments := [input.organizationAlias];
    ghost var t := Flat(Named("tournaments", input.tournamentAlias));
    FlatNamed("tournaments", input.tournamentAlias);
    segments := Push(segments, input.tournamentAlias.Some?, "tournaments", if input.tournamentAlias.Some? then input.tournamentAlias.value else "", t);
    ghost var s := Flat(Numbered("stages", input.stageNumber));
    FlatNumbered("stages", input.stageNumber);
    segments := Push(segments, input.stageNumber.Some?, "stages", if input.stageNumber.Some? then ShowInt(input.stageNumber.value) else "", s);
    ghost var r := Flat(Numbered("rounds", input.roundNumber));
    FlatNumbered("rounds", input.roundNumber);
    segments := Push(segments, input.roundNumber.Some?, "rounds", if input.roundNumber.Some? then ShowInt(input.roundNumber.value) else "", r);
    ghost var m := Flat(Numbered("matches", input.matchNumber));
    FlatNumbered("matches", input.matchNumber);
    segments := Push(segments, input.matchNumber.Some?, "matches", if input.matchNumber.Some? then ShowInt(input.matchNumber.value) else "", m);
    ghost var p := Flat(Named("participants", input.participantAlias));
    FlatNamed("participants", input.participantAlias);
    segments := Push(segments, input.participantAlias.Some?, "participants", if input.participantAlias.Some? then input.participantAlias.value else "", p);
    Associate([input.organizationAlias], t, s, r, m, p);
    FlatPairs(input);
  }

  /** Pushes a part and its value, if there is one. */
  method Push(segments: seq<string>, given: bool, part: string, value: string, ghost more: seq<string>) returns (r: seq<string>)
    requires more == if given then [part, value] else []
    ensures r == segments + more
  {
    r := segments;
    if given { r := r + [part, value]; }
  }

  lemma Associate(o: seq<string>, t: seq<string>, s: seq<string>, r: seq<string>, m: seq<string>, p: seq<string>)
    ensures o + t + s + r + m + p == o + (t + s + r + m + p)
  {
    assert o + t + s + r == o + (t + s + r);
    assert o + (t + s + r) + m + p == o + (t + s + r + m + p);
  }

  /** Every part and value behind a slash. */
  ghost function Slashed(pairs: seq<(string, string)>): string
  {
    if pairs == [] then "" else "/" + pairs[0].0 + "/" + pairs[0].1 + Slashed(pairs[1..])
  }

  lemma SlashedStep(pair: (string, string), rest: seq<(string, string)>)
    ensures Slashed([pair] + rest) == "/" + pair.0 + "/" + pair.1 + Slashed(rest)
    ensures Slashed([]) == ""
  {
    assert ([pair] + rest)[1..] == rest;
  }

  lemma {:induction false} SlashedConcat(a: seq<(string, string)>, b: seq<(string, string)>)
    ensures Slashed(a + b) == Slashed(a) + Slashed(b)
  {
    hide Slashed;
    if a == [] {
      SlashedStep(("", ""), []);
      assert a + b == b;
    } else {
      SlashedConcat(a[1..], b);
      SlashedStep(a[0], a[1..]);
      SlashedStep(a[0], a[1..] + b);
      assert a == [a[0]] + a[1..] && a + b == [a[0]] + (a[1..] + b);
      Grouped("/" + a[0].0 + "/" + a[0].1, Slashed(a[1..]), Slashed(b));
    }
  }

  lemma Grouped(a: string, b: string, c: string)
    ensures a + (b + c) == a + b + c
  {
  }

  lemma {:induction false} JoinedFlat(first: string, pairs: seq<(string, string)>)
    ensures Join([first] + Flat(pairs), "/") == first + Slashed(pairs)
    decreases pairs
  {
    hide Join, Flat, Slashed;
    FlatStep(pairs);
    SlashedStep(("", ""), []);
    if pairs == [] {
      JoinOne(first, "/");
      assert [first] + Flat(pairs) == [first];
    } else {
      var part, value, rest := pairs[0].0, pairs[0].1, Flat(pairs[1..]);
      JoinedFlat(value, pairs[1..]);
      JoinTwoMore(first, part, value, rest);
      SlashedStep(pairs[0], pairs[1..]);
      assert pairs == [pairs[0]] + pairs[1..];
      assert [first] + Flat(pairs) == [first, part, value] + rest;
      Regrouped(first, part, value, Slashed(pairs[1..]));
    }
  }

  lemma JoinTwoMore(first: string, part: string, value: string, rest: seq<string>)
    ensures Join([first, part, value] + rest, "/") == first + "/" + (part + "/" + Join([value] + rest, "/"))
  {
    hide Join;
    var whole := [first, part, value] + rest;
    JoinStep(whole, "/");
    JoinStep(whole[1..], "/");
    assert whole[1..][1..] == [value] + rest;
  }

  lemma Regrouped(first: string, part: string, value: string, rest: string)
    ensures first + "/" + (part + "/" + (value + rest)) == first + ("/" + part + "/" + value + rest)
  {
  }

  lemma SlashedOne(part: string, value: string)
    ensures Slashed([(part, value)]) == "/" + part + "/" + value && Slashed([]) == ""
  {
    assert [(part, value)][1..] == [];
  }

  /** A path spells out the fields that are given, in this order, behind the organization. */
  lemma PathReads(input: RouteInput)
    ensures BarePath(input) == "/" + input.organizationAlias
              + (if input.tournamentAlias.Some? then "/tournaments/" + input.tournamentAlias.value else "")
              + (if input.stageNumber.Some? then "/stages/" + ShowInt(input.stageNumber.value) else "")
              + (if input.roundNumber.Some? then "/rounds/" + ShowInt(input.roundNumber.value) else "")
              + (if input.matchNumber.Some? then "/matches/" + ShowInt(input.matchNumber.value) else "")
              + (if input.participantAlias.Some? then "/participants/" + input.participantAlias.value else "")
  {
    hide Join, Flat, Slashed, ShowInt, Named, Numbered;
    var t, s := Named("tournaments", input.tournamentAlias), Numbered("stages", input.stageNumber);
    var r, m := Numbered("rounds", input.roundNumber), Numbered("matches", input.matchNumber);
    var p := Named("participants", input.participantAlias);
    JoinedFlat(input.organizationAlias, Pairs(input));
    SlashedPairs(t, s, r, m, p);
    NamedReads("tournaments", "/tournaments/", input.tournamentAlias);
    NumberedReads("stages", "/stages/", input.stageNumber);
    NumberedReads("rounds", "/rounds/", input.roundNumber);
    NumberedReads("matches", "/matches/", input.matchNumber);
    NamedReads("participants", "/participants/", input.participantAlias);
    Together(input.organizationAlias, Slashed(t), Slashed(s), Slashed(r), Slashed(m), Slashed(p));
  }

  lemma SlashedPairs(t: seq<(string, string)>, s: seq<(string, string)>, r: seq<(string, string)>, m: seq<(string, string)>, p: seq<(string, string)>)
    ensures Slashed(t + s + r + m + p) == Slashed(t) + Slashed(s) + Slashed(r) + Slashed(m) + Slashed(p)
  {
    hide Slashed;
    SlashedConcat(t + s + r + m, p);
    SlashedConcat(t + s + r, m);
    SlashedConcat(t + s, r);
    SlashedConcat(t, s);
  }

  lemma Together(o: string, t: string, s: string, r: string, m: string, p: string)
    ensures "/" + (o + (t + s + r + m + p)) == "/" + o + t + s + r + m + p
  {
    Grouped(o, t + s + r + m, p);
    Grouped(o, t + s + r, m);
    Grouped(o, t + s, r);
    Grouped(o, t, s);
    assert "/" + (o + t + s + r + m + p) == "/" + o + t + s + r + m + p;
  }

  lemma NamedReads(part: string, prefix: string, value: Option<string>)
    requires prefix == "/" + part + "/"
    ensures Slashed(Named(part, value)) == if value.Some? then prefix + value.value else ""
  {
    if value.Some? { SlashedOne(part, value.value); }
  }

  lemma NumberedReads(part: string, prefix: string, value: Option<int>)
    requires prefix == "/" + part + "/"
    ensures Slashed(Numbered(part, value)) == if value.Some? then prefix + ShowInt(value.value) else ""
  {
    hide ShowInt;
    if value.Some? { SlashedOne(part, ShowInt(value.value)); }
  }

  /** Only a locale other than English is spelled out, in front. */
  lemma LocaleReads(input: RouteInput)
    ensures CanonicalPath(input)
            == if input.locale.None? || input.locale.value == "en" then BarePath(input) else "/" + input.locale.value + BarePath(input)
  {
    hide BarePath;
  }

  lemma FlatStep(p: seq<(string, string)>)
    ensures Flat(p) == if p == [] then [] else [p[0].0, p[0].1] + Flat(p[1..])
  {
  }

  lemma {:induction false} FlatAppend(p: seq<(string, string)>, q: seq<(string, string)>)
    ensures Flat(p + q) == Flat(p) + Flat(q)
  {
    hide Flat;
    FlatStep(p);
    FlatStep(p + q);
    if p == [] {
      assert p + q == q;
    } else {
      FlatAppend(p[1..], q);
      assert (p + q)[1..] == p[1..] + q;
      assert [p[0].0, p[0].1] + (Flat(p[1..]) + Flat(q)) == Flat(p) + Flat(q);
    }
  }

  lemma FlatNamed(part: string, value: Option<string>)
    ensures Flat(Named(part, value)) == if value.Some? then [part, value.value] else []
  {
    if value.Some? { assert [(part, value.value)][1..] == []; }
  }

  lemma FlatNumbered(part: string, value: Option<int>)
    ensures Flat(Numbered(part, value)) == if value.Some? then [part, ShowInt(value.value)] else []
  {
    hide ShowInt;
    if value.Some? { assert [(part, ShowInt(value.value))][1..] == []; }
  }

  lemma FlatPairs(input: RouteInput)
    ensures Flat(Pairs(input))
            == Flat(Named("tournaments", input.tournamentAlias)) + Flat(Numbered("stages", input.stageNumber))
               + Flat(Numbered("rounds", input.roundNumber)) + Flat(Numbered("matches", input.matchNumber))
               + Flat(Named("participants", input.participantAlias))
  {
    hide Flat, Named, Numbered, ShowInt;
    var t, s, r, m := Named("tournaments", input.tournamentAlias), Numbered("stages", input.stageNumber),
                      Numbered("rounds", input.roundNumber), Numbered("matches", input.matchNumber);
    var p := Named("participants", input.participantAlias);
    FlatAppend(t, s);
    FlatAppend(t + s, r);
    FlatAppend(t + s + r, m);
    FlatAppend(t + s + r + m, p);
  }

  lemma BarePathIsLong(input: RouteInput)
    requires Valid(input)
    ensures |BarePath(input)| > 1 && BarePath(input)[0] == '/'
  {
  }

  // ----- A path names one input -----

  lemma {:induction false} FlatInjective(p: seq<(string, string)>, q: seq<(string, string)>)
    requires Flat(p) == Flat(q)
    ensures p == q
  {
    if p != [] {
      var f, g := Flat(p), Flat(q);
      assert |q| == |p|;
      assert f[0] == p[0].0 && f[1] == p[0].1 && g[0] == q[0].0 && g[1] == q[0].1;
      assert f[2..] == Flat(p[1..]) && g[2..] == Flat(q[1..]);
      FlatInjective(p[1..], q[1..]);
      assert p == [p[0]] + p[1..] && q == [q[0]] + q[1..];
    }
  }

  function ValueOf(pairs: seq<(string, string)>, part: string): Option<string>
  {
    if pairs == [] then None else if pairs[0].0 == part then Some(pairs[0].1) else ValueOf(pairs[1..], part)
  }

  lemma {:induction false} ValueOfAppend(p: seq<(string, string)>, q: seq<(string, string)>, part: string)
    ensures ValueOf(p + q, part) == if ValueOf(p, part).Some? then ValueOf(p, part) else ValueOf(q, part)
  {
    if p == [] {
      assert p + q == q;
    } else {
      ValueOfAppend(p[1..], q, part);
      assert (p + q)[1..] == p[1..] + q;
    }
  }

  function Shown(value: Option<int>): Option<string> { if value.Some? then Some(ShowInt(value.value)) else None }

  lemma ValueOfNamed(own: string, value: Option<string>, part: string)
    ensures ValueOf(Named(own, value), part) == if own == part then value else None
  {
    if value.Some? { assert Named(own, value)[1..] == []; }
  }

  lemma ValueOfNumbered(own: string, value: Option<int>, part: string)
    ensures ValueOf(Numbered(own, value), part) == if own == part then Shown(value) else None
  {
    if value.Some? { assert Numbered(own, value)[1..] == []; }
  }

  lemma PairsTell(input: RouteInput, part: string)
    ensures ValueOf(Pairs(input), part)
            == if part == "tournaments" then input.tournamentAlias
               else if part == "stages" then Shown(input.stageNumber)
               else if part == "rounds" then Shown(input.roundNumber)
               else if part == "matches" then Shown(input.matchNumber)
               else if part == "participants" then input.participantAlias else None
  {
    hide ValueOf, Named, Numbered, Shown;
    var t, s, r, m := Named("tournaments", input.tournamentAlias), Numbered("stages", input.stageNumber),
                      Numbered("rounds", input.roundNumber), Numbered("matches", input.matchNumber);
    var p := Named("participants", input.participantAlias);
    ValueOfAppend(t, s, part);
    ValueOfAppend(t + s, r, part);
    ValueOfAppend(t + s + r, m, part);
    ValueOfAppend(t + s + r + m, p, part);
    ValueOfNamed("tournaments", input.tournamentAlias, part);
    ValueOfNumbered("stages", input.stageNumber, part);
    ValueOfNumbered("rounds", input.roundNumber, part);
    ValueOfNumbered("matches", input.matchNumber, part);
    ValueOfNamed("participants", input.participantAlias, part);
  }

  lemma ShownInjective(a: Option<int>, b: Option<int>)
    requires Shown(a) == Shown(b)
    ensures a == b
  {
    hide ShowInt, ToNumber;
    if a.Some? && b.Some? {
      NumberOfShow(a.value);
      NumberOfShow(b.value);
    }
  }

  predicate SameFields(a: RouteInput, b: RouteInput)
  {
    a.organizationAlias == b.organizationAlias && a.tournamentAlias == b.tournamentAlias && a.stageNumber == b.stageNumber
    && a.roundNumber == b.roundNumber && a.matchNumber == b.matchNumber && a.participantAlias == b.participantAlias
  }

  lemma SegmentsTell(a: RouteInput, b: RouteInput)
    requires Segments(a) == Segments(b)
    ensures SameFields(a, b)
  {
    hide Pairs, Flat, ValueOf, Shown;
    assert Segments(a)[1..] == Flat(Pairs(a)) && Segments(b)[1..] == Flat(Pairs(b));
    assert Segments(a)[0] == a.organizationAlias && Segments(b)[0] == b.organizationAlias;
    FlatInjective(Pairs(a), Pairs(b));
    PairsTell(a, "tournaments");
    PairsTell(b, "tournaments");
    PairsTell(a, "stages");
    PairsTell(b, "stages");
    PairsTell(a, "rounds");
    PairsTell(b, "rounds");
    PairsTell(a, "matches");
    PairsTell(b, "matches");
    PairsTell(a, "participants");
    PairsTell(b, "participants");
    ShownInjective(a.stageNumber, b.stageNumber);
    ShownInjective(a.roundNumber, b.roundNumber);
    ShownInjective(a.matchNumber, b.matchNumber);
  }

  predicate Plain(s: string) { '/' !in s }

  lemma PlainAlias(s: string)
    requires IsAlias(s)
    ensures Plain(s)
  {
    forall i | 0 <= i < |s| ensures s[i] != '/' { assert AliasCharAt(s, i); }
  }

  lemma PlainNumber(n: int)
    ensures Plain(ShowInt(n))
  {
    hide ShowNat;
  }

  lemma PlainLocale(s: string)
    requires IsLocale(s)
    ensures Plain(s)
  {
  }

  lemma {:induction false} FlatPlain(pairs: seq<(string, string)>)
    requires forall p :: p in pairs ==> Plain(p.0) && Plain(p.1)
    ensures forall s :: s in Flat(pairs) ==> Plain(s)
  {
    hide Plain;
    if pairs != [] {
      assert pairs[0] in pairs;
      FlatPlain(pairs[1..]);
    }
  }

  lemma PairsPlain(input: RouteInput)
    requires Valid(input)
    ensures forall p :: p in Pairs(input) ==> Plain(p.0) && Plain(p.1)
  {
    hide IsAlias, IsUuid, ShowInt, Plain;
    LabelsPlain();
    if input.tournamentAlias.Some? { PlainAlias(input.tournamentAlias.value); }
    if input.participantAlias.Some? { PlainAlias(input.participantAlias.value); }
    if input.stageNumber.Some? { PlainNumber(input.stageNumber.value); }
    if input.roundNumber.Some? { PlainNumber(input.roundNumber.value); }
    if input.matchNumber.Some? { PlainNumber(input.matchNumber.value); }
  }

  lemma LabelsPlain()
    ensures Plain("tournaments") && Plain("stages") && Plain("rounds") && Plain("matches") && Plain("participants")
  {
  }

  /** The parts of a path: an odd number of segments, behind an empty part and, with a locale, one more. */
  lemma PathParts(input: RouteInput)
    requires Buildable(input)
    ensures Split(BarePath(input), '/') == [""] + Segments(input)
    ensures Split(CanonicalPath(input), '/')
            == match PrefixLocale(input.locale) case None => [""] + Segments(input) case Some(l) => ["", l] + Segments(input)
  {
    hide Split, Join, Flat, Pairs, IsAlias, IsUuid, IsLocale;
    var segments := Segments(input);
    PairsPlain(input);
    FlatPlain(Pairs(input));
    PlainAlias(input.organizationAlias);
    forall s | s in segments ensures '/' !in s { assert Plain(s); }
    SplitJoin(segments, '/');
    var tail := Join(segments, "/");
    SplitAppend("", '/', tail);
    assert "" + ['/'] + tail == BarePath(input);
    if PrefixLocale(input.locale).Some? {
      var l := PrefixLocale(input.locale).value;
      PlainLocale(l);
      SplitAppend(l, '/', tail);
      SplitAppend("", '/', l + ['/'] + tail);
      assert "" + ['/'] + (l + ['/'] + tail) == "/" + l + BarePath(input);
      assert [""] + ([l] + segments) == ["", l] + segments;
    }
  }

  /** Equal paths name the same fields and the same locale, the primary one standing for none. */
  lemma PathsAreInjective(a: RouteInput, b: RouteInput)
    requires Buildable(a) && Buildable(b)
    ensures CanonicalPath(a) == CanonicalPath(b) <==> SameFields(a, b) && PrefixLocale(a.locale) == PrefixLocale(b.locale)
  {
    hide Split, Join, Pairs, PrefixLocale, Buildable, SameFields;
    if CanonicalPath(a) == CanonicalPath(b) {
      PathParts(a);
      PathParts(b);
      var parts := Split(CanonicalPath(a), '/');
      var la, lb := PrefixLocale(a.locale), PrefixLocale(b.locale);
      assert |Segments(a)| % 2 == 1 && |Segments(b)| % 2 == 1;
      assert la.Some? <==> |parts| % 2 == 1;
      assert lb.Some? <==> |parts| % 2 == 1;
      var k := if la.Some? then 2 else 1;
      assert parts[k..] == Segments(a) && parts[k..] == Segments(b);
      if la.Some? { assert parts[1] == la.value && parts[1] == lb.value; }
      SegmentsTell(a, b);
    }
    if SameFields(a, b) { SameSegments(a, b); }
  }

  lemma SameSegments(a: RouteInput, b: RouteInput)
    requires SameFields(a, b)
    ensures Segments(a) == Segments(b)
  {
    hide Flat, ShowInt;
  }

  // ----- The console and the overlay -----

  function ControlPath(input: RouteInput): string { "/control" + StripLocale(CanonicalPath(input)) }

  function TvPath(input: RouteInput): string { "/tv" + StripLocale(CanonicalPath(input)) }

  /** The organization's alias is taken for a locale: two letters, no locale before it and something behind it. */
  predicate Mistaken(input: RouteInput)
  {
    var org := input.organizationAlias;
    PrefixLocale(input.locale).None? && |org| == 2 && IsLower(org[0]) && IsLower(org[1]) && Pairs(input) != []
  }

  lemma BarePathIs(input: RouteInput)
    requires Valid(input)
    ensures Pairs(input) == [] ==> BarePath(input) == "/" + input.organizationAlias
    ensures Pairs(input) != [] ==> exists rest :: BarePath(input) == "/" + input.organizationAlias + "/" + rest
  {
    hide Pairs, Valid;
    var segments := Segments(input);
    if Pairs(input) != [] {
      var rest := Join(segments[1..], "/");
      assert BarePath(input) == "/" + (input.organizationAlias + "/" + rest);
      assert BarePath(input) == "/" + input.organizationAlias + "/" + rest;
    }
  }

  lemma StripsPrefix(l: string, bare: string)
    requires IsLocale(l) && |bare| > 1 && bare[0] == '/'
    ensures StripLocale("/" + l + bare) == bare
  {
    var path := "/" + l + bare;
    assert path[|l| + 1] == '/' && path[1] == l[0] && path[2] == l[1];
    assert path[|l| + 1..] == bare;
    if |l| == 5 { assert path[3] == l[2] && path[4] == l[3] && path[5] == l[4]; }
  }

  lemma StripsAlias(org: string, tail: string)
    requires IsAlias(org) && (tail == "" || tail[0] == '/')
    ensures StripLocale("/" + org + tail)
            == if |org| == 2 && IsLower(org[0]) && IsLower(org[1]) && tail != "" then tail else "/" + org + tail
  {
    var path := "/" + org + tail;
    assert forall i :: 0 <= i < |org| ==> path[i + 1] == org[i];
    assert tail != "" ==> path[|org| + 1] == '/';
    if |org| == 2 && tail != "" { assert path[3..] == tail; }
    if |org| > 3 { assert AliasCharAt(org, 3) && path[3] == org[2] && path[4] == org[3]; }
    if |org| > 2 { assert AliasCharAt(org, 2) && path[3] == org[2]; }
  }

  /** The console and overlay paths are the prefix and the path without locale, exactly unless the alias is mistaken. */
  lemma PrefixesExactly(input: RouteInput)
    requires Buildable(input)
    ensures ControlPath(input) == "/control" + BarePath(input) <==> !Mistaken(input)
    ensures TvPath(input) == "/tv" + BarePath(input) <==> !Mistaken(input)
  {
    hide StripLocale, CanonicalPath, Mistaken, BarePath, Buildable;
    StrippedExactly(input);
    SamePrefix("/control", StripLocale(CanonicalPath(input)), BarePath(input));
    SamePrefix("/tv", StripLocale(CanonicalPath(input)), BarePath(input));
  }

  lemma SamePrefix(prefix: string, a: string, b: string)
    ensures prefix + a == prefix + b <==> a == b
  {
    assert (prefix + a)[|prefix|..] == a && (prefix + b)[|prefix|..] == b;
  }

  lemma StrippedExactly(input: RouteInput)
    requires Buildable(input)
    ensures StripLocale(CanonicalPath(input)) == BarePath(input) <==> !Mistaken(input)
  {
    hide StripLocale, IsLocale, IsAlias, IsUuid, Pairs, BarePath;
    BarePathIsLong(input);
    BarePathIs(input);
    var bare := BarePath(input);
    var org := input.organizationAlias;
    if PrefixLocale(input.locale).Some? {
      StripsPrefix(PrefixLocale(input.locale).value, bare);
    } else if Pairs(input) == [] {
      StripsAlias(org, "");
      assert "/" + org + "" == "/" + org;
    } else {
      var rest :| bare == "/" + org + "/" + rest;
      StripsAlias(org, "/" + rest);
      assert "/" + org + ("/" + rest) == bare;
    }
  }

  /** Where no alias is mistaken, equal console paths name the same fields. */
  lemma ControlPathsAreInjective(a: RouteInput, b: RouteInput)
    requires Buildable(a) && Buildable(b) && !Mistaken(a) && !Mistaken(b)
    ensures ControlPath(a) == ControlPath(b) <==> SameFields(a, b)
  {
    hide Split, Join, Pairs, Buildable, SameFields, Mistaken, ControlPath;
    PrefixesExactly(a);
    PrefixesExactly(b);
    assert ("/control" + BarePath(a))[8..] == BarePath(a) && ("/control" + BarePath(b))[8..] == BarePath(b);
    if BarePath(a) == BarePath(b) {
      PathParts(a);
      PathParts(b);
      assert ([""] + Segments(a))[1..] == Segments(a) && ([""] + Segments(b))[1..] == Segments(b);
      SegmentsTell(a, b);
    }
    if SameFields(a, b) { SameSegments(a, b); }
  }

  /** Two organizations with two-letter aliases get one console path for their tournaments of the same alias. */
  lemma TwoLettersCollide(org: string, other: string, tournament: string)
    requires |org| == 2 && IsLower(org[0]) && IsLower(org[1]) && |other| == 2 && IsLower(other[0]) && IsLower(other[1])
    ensures var a := RouteInput(org, Some(tournament), None, None, None, None, None);
            var b := RouteInput(other, Some(tournament), None, None, None, None, None);
            ControlPath(a) == ControlPath(b) == "/control/tournaments/" + tournament
  {
    TwoLetterPath(org, tournament);
    TwoLetterPath(other, tournament);
  }

  lemma TwoLetterPath(org: string, tournament: string)
    requires |org| == 2 && IsLower(org[0]) && IsLower(org[1])
    ensures ControlPath(RouteInput(org, Some(tournament), None, None, None, None, None)) == "/control/tournaments/" + tournament
  {
    hide StripLocale, Join, Flat, Pairs, Named, Numbered;
    var input := RouteInput(org, Some(tournament), None, None, None, None, None);
    TwoLetterSegments(org, tournament);
    JoinThree(org, "tournaments", tournament);
    var tail := "/tournaments/" + tournament;
    assert CanonicalPath(input) == "/" + org + tail;
    StripsAlias(org, tail);
    assert "/control" + tail == "/control/tournaments/" + tournament;
  }

  lemma TwoLetterSegments(org: string, tournament: string)
    ensures Segments(RouteInput(org, Some(tournament), None, None, None, None, None)) == [org, "tournaments", tournament]
  {
    hide Flat;
    var input := RouteInput(org, Some(tournament), None, None, None, None, None);
    FlatPairs(input);
    FlatNamed("tournaments", Some(tournament));
    assert Flat([]) == [] by { assert |Flat([])| == 0; }
  }

  lemma JoinThree(a: string, b: string, c: string)
    ensures Join([a, b, c], "/") == a + ("/" + b + "/" + c)
  {
    assert [a, b, c][1..] == [b, c] && [b, c][1..] == [c];
    assert Join([b, c], "/") == b + "/" + c;
    assert a + "/" + (b + "/" + c) == a + ("/" + b + "/" + c);
  }
}
