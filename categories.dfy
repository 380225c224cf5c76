/**
 * The category configuration (frontend/src/App.tsx:89-164): cleaning the
 * entries of categories.json, the alias lookup table, the lists offered
 * by the category and compatibility selects, and `formatCategoryLabel`
 * (frontend/src/App.tsx:796-802).
 */
module Categories {
  import opened Common
  import opened Sorting
  import opened JsText

  /** One entry of categories.json. */
  datatype RawCategoryEntry =
    | CategoryText(text: string)
    | CategoryObject(labelValue: Option<string>, aliases: Option<seq<Option<string>>>)
      // `labelValue` is None when it is not a string, `aliases` when it is not an
      // array, and an alias when it is not a string
    | CategoryOther
      // null, a number or a boolean

  /** A cleaned category (`CategoryDefinition`). */
  datatype CategoryDefinition = CategoryDefinition(
    labelText: string,
    normalizedLabel: string,
    aliases: seq<string>,
    normalizedAliases: seq<string>)

  /** `typeof alias === 'string' ? alias.trim() : ''`. */
  function AliasText(alias: Option<string>): string {
    if alias.Some? then Trim(alias.value) else ""
  }

  function AliasTexts(aliases: seq<Option<string>>): (r: seq<string>)
    ensures |r| == |aliases|
    ensures forall k :: 0 <= k < |aliases| ==> r[k] == AliasText(aliases[k])
  {
    seq(|aliases|, k requires 0 <= k < |aliases| => AliasText(aliases[k]))
  }

  /** The trimmed string aliases, without the empty ones, in their order. */
  function CleanAliases(aliases: seq<Option<string>>): seq<string> {
    Filter(AliasTexts(aliases), (a: string) => a != [])
  }

  /** Every kept alias is non-empty and already trimmed. */
  lemma CleanAliasesTrimmed(aliases: seq<Option<string>>)
    ensures forall k :: 0 <= k < |CleanAliases(aliases)| ==>
              CleanAliases(aliases)[k] != [] && Trim(CleanAliases(aliases)[k]) == CleanAliases(aliases)[k]
  {
    var r := CleanAliases(aliases);
    forall k | 0 <= k < |r| ensures r[k] != [] && Trim(r[k]) == r[k] {
      assert r[k] in r;
      var m :| 0 <= m < |aliases| && AliasTexts(aliases)[m] == r[k];
      if aliases[m].Some? {
        TrimIdempotent(aliases[m].value);
      }
    }
  }

  function NormalizeAll(lower: string -> string, s: seq<string>): (r: seq<string>)
    ensures |r| == |s|
    ensures forall k :: 0 <= k < |s| ==> r[k] == NormalizeQuery(lower, s[k])
  {
    seq(|s|, k requires 0 <= k < |s| => NormalizeQuery(lower, s[k]))
  }

  function Definition(lower: string -> string, owner: string, aliases: seq<string>): CategoryDefinition {
    CategoryDefinition(owner, NormalizeQuery(lower, owner), aliases, NormalizeAll(lower, aliases))
  }

  /** The cleaned form of one entry, None when the entry is dropped. */
  function ConfigOf(lower: string -> string, entry: RawCategoryEntry): Option<CategoryDefinition> {
    match entry
    case CategoryText(text) =>
      var owner := Trim(text);
      if |owner| == 0 then None else Some(Definition(lower, owner, []))
    case CategoryObject(l, al) =>
      var owner := if l.Some? then Trim(l.value) else "";
      if |owner| == 0 then None
      else Some(Definition(lower, owner, if al.Some? then CleanAliases(al.value) else []))
    case CategoryOther => None
  }

  /** The cleaned entries in their order. */
  function ConfigsOf(lower: string -> string, entries: seq<RawCategoryEntry>): seq<CategoryDefinition> {
    FilterMap(entries, (e: RawCategoryEntry) => ConfigOf(lower, e))
  }

  /** `categoryConfigs`; a document that is not an array (None) gives no categories. */
  function CategoryConfigs(lower: string -> string, data: Option<seq<RawCategoryEntry>>): seq<CategoryDefinition> {
    if data.Some? then ConfigsOf(lower, data.value) else []
  }

  /**
   * A kept category has a non-empty trimmed label and non-empty trimmed
   * aliases, and its normalised forms are the normalised label and aliases.
   */
  ghost predicate WellFormed(lower: string -> string, c: CategoryDefinition) {
    c.labelText != [] && Trim(c.labelText) == c.labelText &&
    (forall k :: 0 <= k < |c.aliases| ==> c.aliases[k] != [] && Trim(c.aliases[k]) == c.aliases[k]) &&
    c.normalizedLabel == NormalizeQuery(lower, c.labelText) &&
    c.normalizedAliases == NormalizeAll(lower, c.aliases)
  }

  /** A definition built from a trimmed label and trimmed aliases is well formed. */
  lemma DefinitionWellFormed(lower: string -> string, owner: string, aliases: seq<string>)
    requires owner != [] && Trim(owner) == owner
    requires forall k :: 0 <= k < |aliases| ==> aliases[k] != [] && Trim(aliases[k]) == aliases[k]
    ensures WellFormed(lower, Definition(lower, owner, aliases))
  {
  }

  /** A kept label with its cleaned aliases makes a well-formed definition. */
  lemma LabelWellFormed(lower: string -> string, text: string, al: Option<seq<Option<string>>>)
    requires Trim(text) != []
    ensures WellFormed(lower, Definition(lower, Trim(text), if al.Some? then CleanAliases(al.value) else []))
  {
    TrimIdempotent(text);
    if al.Some? {
      CleanAliasesTrimmed(al.value);
    }
    DefinitionWellFormed(lower, Trim(text), if al.Some? then CleanAliases(al.value) else []);
  }

  lemma ConfigOfWellFormed(lower: string -> string, entry: RawCategoryEntry)
    ensures ConfigOf(lower, entry).Some? ==> WellFormed(lower, ConfigOf(lower, entry).value)
  {
    match entry
    case CategoryText(text) =>
      if Trim(text) != [] {
        LabelWellFormed(lower, text, None);
      }
    case CategoryObject(l, al) =>
      if l.Some? && Trim(l.value) != [] {
        LabelWellFormed(lower, l.value, al);
      }
    case CategoryOther =>
  }

  /** The configurations are exactly the cleaned entries that survive, in order. */
  lemma ConfigsOfMembers(lower: string -> string, entries: seq<RawCategoryEntry>, c: CategoryDefinition)
    ensures c in ConfigsOf(lower, entries) <==> exists k :: 0 <= k < |entries| && ConfigOf(lower, entries[k]) == Some(c)
  {
    FilterMapMembers(entries, (e: RawCategoryEntry) => ConfigOf(lower, e), c);
  }

  /** Every configuration is well formed. */
  lemma ConfigsWellFormed(lower: string -> string, data: Option<seq<RawCategoryEntry>>, c: CategoryDefinition)
    requires c in CategoryConfigs(lower, data)
    ensures WellFormed(lower, c)
  {
    ConfigsOfMembers(lower, data.value, c);
    var k :| 0 <= k < |data.value| && ConfigOf(lower, data.value[k]) == Some(c);
    ConfigOfWellFormed(lower, data.value[k]);
  }

  // ---------------------------------------------------------------------
  // The alias lookup table
  // ---------------------------------------------------------------------

  /** `map.get(key)`: None for `undefined`. */
  function Lookup(m: map<string, string>, key: string): Option<string> {
    if key in m then Some(m[key]) else None
  }

  /** Sets each alias that has no entry yet to `owner`. */
  function AliasesStep(m: map<string, string>, owner: string, aliases: seq<string>): map<string, string>
    decreases |aliases|
  {
    if aliases == [] then m
    else
      var m' := AliasesStep(m, owner, aliases[..|aliases| - 1]);
      var alias := aliases[|aliases| - 1];
      if alias in m' then m' else m'[alias := owner]
  }

  /** What one config adds: its label unconditionally, then its new aliases. */
  function ConfigStep(m: map<string, string>, c: CategoryDefinition): map<string, string> {
    AliasesStep(m[c.normalizedLabel := c.normalizedLabel], c.normalizedLabel, c.normalizedAliases)
  }

  /** The table after processing `configs` in order. */
  function AliasLookup(configs: seq<CategoryDefinition>): map<string, string>
    decreases |configs|
  {
    if configs == [] then map[]
    else ConfigStep(AliasLookup(configs[..|configs| - 1]), configs[|configs| - 1])
  }

  /** `aliasLookup`: a `Map` filled with `set` for labels and `has`/`set` for aliases. */
  method BuildAliasLookup(configs: seq<CategoryDefinition>) returns (m: map<string, string>)
    ensures m == AliasLookup(configs)
    ensures forall key :: Lookup(m, key) == Resolve(configs, key)
  {
    m := map[];
    var i := 0;
    while i < |configs|
      invariant 0 <= i <= |configs|
      invariant m == AliasLookup(configs[..i])
    {
      assert configs[..i + 1][..i] == configs[..i];
      var config := configs[i];
      m := m[config.normalizedLabel := config.normalizedLabel];
      ghost var start := m;
      var aliases := config.normalizedAliases;
      var j := 0;
      while j < |aliases|
        invariant 0 <= j <= |aliases|
        invariant m == AliasesStep(start, config.normalizedLabel, aliases[..j])
      {
        assert aliases[..j + 1][..j] == aliases[..j];
        if !(aliases[j] in m) {
          m := m[aliases[j] := config.normalizedLabel];
        }
        j := j + 1;
      }
      assert aliases[..j] == aliases;
      i := i + 1;
    }
    assert configs[..i] == configs;
    forall key ensures Lookup(m, key) == Resolve(configs, key) {
      AliasLookupSpec(configs, key);
    }
  }

  /** `key` is the normalised label of some config. */
  ghost predicate IsLabel(configs: seq<CategoryDefinition>, key: string) {
    exists c :: c in configs && c.normalizedLabel == key
  }

  /** The label of the first config listing `key` among its normalised aliases. */
  function FirstOwner(configs: seq<CategoryDefinition>, key: string): Option<string>
    decreases |configs|
  {
    if configs == [] then None
    else
      var earlier := FirstOwner(configs[..|configs| - 1], key);
      var last := configs[|configs| - 1];
      if earlier.Some? then earlier
      else if key in last.normalizedAliases then Some(last.normalizedLabel)
      else None
  }

  /** What the table should give for `key`: itself when it is a label, else its first owner. */
  ghost function Resolve(configs: seq<CategoryDefinition>, key: string): Option<string> {
    if IsLabel(configs, key) then Some(key) else FirstOwner(configs, key)
  }

  lemma {:induction false} AliasesStepSpec(m: map<string, string>, owner: string, aliases: seq<string>, key: string)
    ensures Lookup(AliasesStep(m, owner, aliases), key) ==
            if key in m then Some(m[key]) else if key in aliases then Some(owner) else None
    decreases |aliases|
  {
    if aliases != [] {
      var init := aliases[..|aliases| - 1];
      AliasesStepSpec(m, owner, init, key);
      assert aliases == init + [aliases[|aliases| - 1]];
    }
  }

  /**
   * The table maps every normalised label to itself, even when an earlier
   * config had that text as an alias; an alias that is no label maps to the
   * first config that listed it; any other key is absent.
   */
  lemma {:induction false} AliasLookupSpec(configs: seq<CategoryDefinition>, key: string)
    ensures Lookup(AliasLookup(configs), key) == Resolve(configs, key)
    decreases |configs|
  {
    if configs != [] {
      var init, last := configs[..|configs| - 1], configs[|configs| - 1];
      AliasLookupSpec(init, key);
      var m0 := AliasLookup(init);
      AliasesStepSpec(m0[last.normalizedLabel := last.normalizedLabel], last.normalizedLabel, last.normalizedAliases, key);
      assert configs == init + [last];
      assert IsLabel(configs, key) <==> IsLabel(init, key) || last.normalizedLabel == key;
      if IsLabel(init, key) {
        var c :| c in init && c.normalizedLabel == key;
        assert c in configs;
      }
    }
  }

  /** FirstOwner picks the config with the smallest index listing `key`. */
  lemma {:induction false} FirstOwnerIsFirst(configs: seq<CategoryDefinition>, key: string, i: int)
    requires 0 <= i < |configs| && key in configs[i].normalizedAliases
    requires forall j :: 0 <= j < i ==> key !in configs[j].normalizedAliases
    ensures FirstOwner(configs, key) == Some(configs[i].normalizedLabel)
    decreases |configs|
  {
    var init := configs[..|configs| - 1];
    if i < |init| {
      assert forall j :: 0 <= j < |init| ==> init[j] == configs[j];
      FirstOwnerIsFirst(init, key, i);
    } else {
      FirstOwnerNone(init, key);
    }
  }

  lemma {:induction false} FirstOwnerNone(configs: seq<CategoryDefinition>, key: string)
    requires forall j :: 0 <= j < |configs| ==> key !in configs[j].normalizedAliases
    ensures FirstOwner(configs, key).None?
    decreases |configs|
  {
    if configs != [] {
      var init := configs[..|configs| - 1];
      assert forall j :: 0 <= j < |init| ==> init[j] == configs[j];
      FirstOwnerNone(init, key);
    }
  }

  /** A label that is also an earlier alias of another config still maps to itself. */
  lemma LabelWins(configs: seq<CategoryDefinition>, i: int)
    requires 0 <= i < |configs|
    ensures Lookup(AliasLookup(configs), configs[i].normalizedLabel) == Some(configs[i].normalizedLabel)
  {
    AliasLookupSpec(configs, configs[i].normalizedLabel);
    assert configs[i] in configs;
  }

  /** An alias that is no label maps to the first config that listed it. */
  lemma AliasFirstWins(configs: seq<CategoryDefinition>, key: string, i: int)
    requires !IsLabel(configs, key)
    requires 0 <= i < |configs| && key in configs[i].normalizedAliases
    requires forall j :: 0 <= j < i ==> key !in configs[j].normalizedAliases
    ensures Lookup(AliasLookup(configs), key) == Some(configs[i].normalizedLabel)
  {
    AliasLookupSpec(configs, key);
    FirstOwnerIsFirst(configs, key, i);
  }

  /** A key that is neither a label nor an alias is absent. */
  lemma UnknownAbsent(configs: seq<CategoryDefinition>, key: string)
    requires !IsLabel(configs, key)
    requires forall j :: 0 <= j < |configs| ==> key !in configs[j].normalizedAliases
    ensures Lookup(AliasLookup(configs), key).None?
  {
    AliasLookupSpec(configs, key);
    FirstOwnerNone(configs, key);
  }

  // ---------------------------------------------------------------------
  // The select lists
  // ---------------------------------------------------------------------

  function NormalizedLabels(configs: seq<CategoryDefinition>): (r: seq<string>)
    ensures |r| == |configs|
    ensures forall k :: 0 <= k < |configs| ==> r[k] == configs[k].normalizedLabel
  {
    seq(|configs|, k requires 0 <= k < |configs| => configs[k].normalizedLabel)
  }

  /** `availableCategories`: 'all', the distinct labels in collation order, 'other'. */
  function AvailableCategories(collate: (string, string) -> int, configs: seq<CategoryDefinition>): seq<string> {
    ["all"] + SortBy(collate, Dedupe(NormalizedLabels(configs))) + ["other"]
  }

  /**
   * The list starts with 'all' and ends with 'other'; in between, each
   * normalised label occurs once, nothing else occurs, and with a
   * consistent collation the labels are in collation order.
   */
  lemma AvailableCategoriesSpec(collate: (string, string) -> int, configs: seq<CategoryDefinition>)
    ensures var r := AvailableCategories(collate, configs);
            |r| >= 2 && r[0] == "all" && r[|r| - 1] == "other"
    ensures var middle := AvailableCategories(collate, configs)[1..|AvailableCategories(collate, configs)| - 1];
            NoDup(middle) &&
            (forall x :: x in middle <==> exists c :: c in configs && c.normalizedLabel == x) &&
            (Consistent(collate) ==> Sorted(collate, middle))
  {
    var labels := NormalizedLabels(configs);
    var middle := SortBy(collate, Dedupe(labels));
    var r := AvailableCategories(collate, configs);
    assert r[1..|r| - 1] == middle;
    PermutationKeepsNoDup(Dedupe(labels), middle);
    forall x ensures x in middle <==> exists c :: c in configs && c.normalizedLabel == x {
      SortByMembers(collate, Dedupe(labels), x);
      assert x in Dedupe(labels) <==> x in Elements(labels);
      if x in labels {
        var k :| 0 <= k < |labels| && labels[k] == x;
        assert configs[k] in configs;
      }
      if exists c :: c in configs && c.normalizedLabel == x {
        var c :| c in configs && c.normalizedLabel == x;
        var k :| 0 <= k < |configs| && configs[k] == c;
        assert labels[k] == x;
      }
    }
    if Consistent(collate) {
      SortBySorted(collate, Dedupe(labels));
    }
  }

  /** `availableCompatibilities`: the document's versions in code-point order, or none. */
  function AvailableCompatibilities(data: Option<seq<string>>): seq<string> {
    if data.Some? then SortBy(CodePointCompare, data.value) else []
  }

  /** The offered versions are a code-point-sorted permutation of the document's. */
  lemma AvailableCompatibilitiesSpec(data: Option<seq<string>>)
    ensures data.None? ==> AvailableCompatibilities(data) == []
    ensures data.Some? ==> multiset(AvailableCompatibilities(data)) == multiset(data.value)
    ensures Sorted(CodePointCompare, AvailableCompatibilities(data))
  {
    if data.Some? {
      CodePointCompareConsistent();
      SortBySorted(CodePointCompare, data.value);
    }
  }

  // ---------------------------------------------------------------------
  // formatCategoryLabel
  // ---------------------------------------------------------------------

  /** The characters of `/[_\-\s]+/`. */
  predicate IsSeparator(c: char) {
    c == '_' || c == '-' || IsJsSpace(c)
  }

  predicate NoSeparator(s: string) {
    forall i :: 0 <= i < |s| ==> !IsSeparator(s[i])
  }

  /** Text that is only separators. */
  predicate AllSeparators(s: string) {
    forall i :: 0 <= i < |s| ==> IsSeparator(s[i])
  }

  /**
   * `value.split(/[_\-\s]+/).filter(Boolean)`: the maximal runs of
   * non-separator characters, in order.
   */
  function Words(s: string): (r: seq<string>)
    ensures s != [] && !IsSeparator(s[|s| - 1]) ==> r != []
    decreases |s|
  {
    if s == [] then []
    else
      var init, c := s[..|s| - 1], s[|s| - 1];
      var w := Words(init);
      if IsSeparator(c) then w
      else if init == [] || IsSeparator(init[|init| - 1]) then w + [[c]]
      else w[..|w| - 1] + [w[|w| - 1] + [c]]
  }

  /** Every word is non-empty and free of separators. */
  lemma {:induction false} WordsShape(s: string)
    ensures forall k :: 0 <= k < |Words(s)| ==> Words(s)[k] != [] && NoSeparator(Words(s)[k])
    decreases |s|
  {
    if s != [] {
      var init, c := s[..|s| - 1], s[|s| - 1];
      WordsShape(init);
      var w := Words(init);
      if !IsSeparator(c) && !(init == [] || IsSeparator(init[|init| - 1])) {
        var last := w[|w| - 1] + [c];
        assert NoSeparator(last) by {
          forall i | 0 <= i < |last| ensures !IsSeparator(last[i]) {
            if i < |w[|w| - 1]| {
              assert last[i] == w[|w| - 1][i];
            }
          }
        }
      }
    }
  }

  /** Appending a separator adds no word. */
  lemma WordsAppendSeparator(s: string, sep: char)
    requires IsSeparator(sep)
    ensures Words(s + [sep]) == Words(s)
  {
    assert (s + [sep])[..|s|] == s;
  }

  /** Appending a character after a separator starts a new word. */
  lemma WordsAppendStart(s: string, c: char)
    requires !IsSeparator(c)
    requires s == [] || IsSeparator(s[|s| - 1])
    ensures Words(s + [c]) == Words(s) + [[c]]
  {
    assert (s + [c])[..|s|] == s;
  }

  /** Appending a character to a word extends that word. */
  lemma WordsAppendContinue(s: string, c: char)
    requires !IsSeparator(c)
    requires s != [] && !IsSeparator(s[|s| - 1])
    ensures Words(s) != []
    ensures Words(s + [c]) == Words(s)[..|Words(s)| - 1] + [Words(s)[|Words(s)| - 1] + [c]]
  {
    assert (s + [c])[..|s|] == s;
  }

  /** The step of WordsSplit for a trailing separator. */
  lemma SplitStepSeparator(pre: string, rest: string, a: seq<string>, c: char)
    requires IsSeparator(c) && Words(pre) == a + Words(rest)
    ensures Words(pre + [c]) == a + Words(rest + [c])
  {
    WordsAppendSeparator(pre, c);
    WordsAppendSeparator(rest, c);
  }

  /** The step of WordsSplit for a character that starts a word. */
  lemma SplitStepStart(pre: string, rest: string, a: seq<string>, c: char)
    requires !IsSeparator(c) && Words(pre) == a + Words(rest)
    requires pre == [] || IsSeparator(pre[|pre| - 1])
    requires rest == [] || IsSeparator(rest[|rest| - 1])
    ensures Words(pre + [c]) == a + Words(rest + [c])
  {
    WordsAppendStart(pre, c);
    WordsAppendStart(rest, c);
  }

  /** The step of WordsSplit for a character that continues a word. */
  lemma SplitStepContinue(pre: string, rest: string, a: seq<string>, c: char)
    requires !IsSeparator(c) && Words(pre) == a + Words(rest)
    requires pre != [] && !IsSeparator(pre[|pre| - 1])
    requires rest != [] && !IsSeparator(rest[|rest| - 1])
    ensures Words(pre + [c]) == a + Words(rest + [c])
  {
    WordsAppendContinue(pre, c);
    WordsAppendContinue(rest, c);
    var b := Words(rest);
    ReplaceLast(a, b, b[|b| - 1] + [c]);
  }

  lemma ReplaceLast<T>(a: seq<T>, b: seq<T>, x: T)
    requires b != []
    ensures (a + b)[|a + b| - 1] == b[|b| - 1]
    ensures (a + b)[..|a + b| - 1] + [x] == a + (b[..|b| - 1] + [x])
  {
    assert (a + b)[..|a + b| - 1] == a + b[..|b| - 1];
  }

  /** A separator splits the text: the words of both sides, in order. */
  lemma {:induction false} WordsSplit(s1: string, sep: char, s2: string)
    requires IsSeparator(sep)
    ensures Words(s1 + [sep] + s2) == Words(s1) + Words(s2)
    decreases |s2|
  {
    if s2 == [] {
      assert s1 + [sep] + s2 == s1 + [sep];
      WordsAppendSeparator(s1, sep);
    } else {
      var rest, c := s2[..|s2| - 1], s2[|s2| - 1];
      WordsSplit(s1, sep, rest);
      var pre := s1 + [sep] + rest;
      assert s1 + [sep] + s2 == pre + [c];
      assert s2 == rest + [c];
      assert pre[|pre| - 1] == if rest == [] then sep else rest[|rest| - 1];
      if IsSeparator(c) {
        SplitStepSeparator(pre, rest, Words(s1), c);
      } else if rest == [] || IsSeparator(rest[|rest| - 1]) {
        SplitStepStart(pre, rest, Words(s1), c);
      } else {
        SplitStepContinue(pre, rest, Words(s1), c);
      }
    }
  }

  /** A non-empty separator-free text is one word. */
  lemma {:induction false} WordsSingle(w: string)
    requires w != [] && NoSeparator(w)
    ensures Words(w) == [w]
    decreases |w|
  {
    var init, c := w[..|w| - 1], w[|w| - 1];
    assert w == init + [c];
    if init == [] {
      WordsAppendStart(init, c);
    } else {
      assert NoSeparator(init) by {
        forall i | 0 <= i < |init| ensures !IsSeparator(init[i]) {
          assert init[i] == w[i];
        }
      }
      WordsSingle(init);
      WordsAppendContinue(init, c);
    }
  }

  /** Text made only of separators has no words. */
  lemma {:induction false} WordsNone(s: string)
    requires AllSeparators(s)
    ensures Words(s) == []
    decreases |s|
  {
    if s != [] {
      WordsNone(s[..|s| - 1]);
    }
  }

  /** `segment.charAt(0).toUpperCase() + segment.slice(1)`, with the host's `toUpperCase`. */
  function Capitalize(upper: string -> string, segment: string): string {
    if segment == [] then [] else upper(segment[..1]) + segment[1..]
  }

  function JoinWithSpace(words: seq<string>): string
    decreases |words|
  {
    if words == [] then []
    else if |words| == 1 then words[0]
    else JoinWithSpace(words[..|words| - 1]) + " " + words[|words| - 1]
  }

  /** Two words joined are the first, a space, and the second. */
  lemma JoinTwo(x: string, y: string)
    ensures JoinWithSpace([x, y]) == x + " " + y
  {
    assert [x, y][..1] == [x];
  }

  /** Every word capitalised. */
  function CapitalizeAll(upper: string -> string, words: seq<string>): (r: seq<string>)
    ensures |r| == |words|
    ensures forall k :: 0 <= k < |words| ==> r[k] == Capitalize(upper, words[k])
  {
    seq(|words|, k requires 0 <= k < |words| => Capitalize(upper, words[k]))
  }

  /** `formatCategoryLabel`. */
  function FormatCategoryLabel(upper: string -> string, value: string): string {
    JoinWithSpace(CapitalizeAll(upper, Words(value)))
  }

  /** Trailing separators add no word. */
  lemma {:induction false} WordsTrailingSeparators(a: string, seps: string)
    requires AllSeparators(seps)
    ensures Words(a + seps) == Words(a)
    decreases |seps|
  {
    if seps == [] {
      assert a + seps == a;
    } else {
      var init, x := seps[..|seps| - 1], seps[|seps| - 1];
      assert a + seps == (a + init) + [x];
      WordsAppendSeparator(a + init, x);
      WordsTrailingSeparators(a, init);
    }
  }

  /** A run of separators splits like a single one. */
  lemma WordsSplitRun(a: string, seps: string, b: string)
    requires seps != [] && AllSeparators(seps)
    ensures Words(a + seps + b) == Words(a) + Words(b)
  {
    var init, x := seps[..|seps| - 1], seps[|seps| - 1];
    assert a + seps + b == (a + init) + [x] + b;
    WordsSplit(a + init, x, b);
    WordsTrailingSeparators(a, init);
  }

  /**
   * Runs of separators act as one: two separator-free words around any run
   * of separators format as the two capitalised words joined by one space.
   */
  lemma FormatTwoWords(upper: string -> string, a: string, seps: string, b: string)
    requires a != [] && NoSeparator(a) && b != [] && NoSeparator(b)
    requires seps != [] && AllSeparators(seps)
    ensures FormatCategoryLabel(upper, a + seps + b) == Capitalize(upper, a) + " " + Capitalize(upper, b)
  {
    WordsSplitRun(a, seps, b);
    WordsSingle(a);
    WordsSingle(b);
    assert Words(a + seps + b) == [a, b];
    var caps := CapitalizeAll(upper, [a, b]);
    assert caps == [Capitalize(upper, a), Capitalize(upper, b)];
    JoinTwo(Capitalize(upper, a), Capitalize(upper, b));
  }

  /** A single separator-free word is only capitalised. */
  lemma FormatOneWord(upper: string -> string, a: string)
    requires a != [] && NoSeparator(a)
    ensures FormatCategoryLabel(upper, a) == upper(a[..1]) + a[1..]
  {
    WordsSingle(a);
    assert CapitalizeAll(upper, [a]) == [Capitalize(upper, a)];
  }
}
