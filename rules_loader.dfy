/**
  The rule-table loader (rules/rules_loader.py): it checks a parsed rules
  document and builds the cleaned table that maps a lower-cased, trimmed
  symptom token to an ordered dictionary from trimmed condition name to
  positive integer weight. Reading the file and parsing JSON are not
  modelled; their outcome is the `Source` given to the loader.
*/
module RulesLoader {
  import opened Wrappers
  import opened Text
  import opened OrderedDict

  /**
    A value produced by `json.loads`. An object keeps its members as written
    in the document; `AsDict` turns them into the Python dict the parser builds.
  */
  datatype Json =
    | JNull
    | JBool(b: bool)
    | JInt(n: int)
    | JFloat(x: real)
    | JString(s: string)
    | JArray(items: seq<Json>)
    | JObject(members: seq<(string, Json)>)

  /** What reading and parsing the rules file produced. */
  datatype Source =
    | Missing            // the path does not exist
    | Unparsable         // reading the file or `json.loads` raised
    | Parsed(doc: Json)

  /** The exceptions `load_rules` can raise. All but `TypeError` are a `RulesLoadError`. */
  datatype LoadError =
    | NotFound
    | ParseFailure
    | MissingRulesDict
    | BadMapping(token: string)
    | BadWeight(token: string, cond: string)
    | TypeError          // `"rules" in data` or `data["rules"]` on a document that is not an object

  predicate IsRulesLoadError(e: LoadError) {
    !e.TypeError?
  }

  /** token -> (condition -> weight), both levels in insertion order. */
  type RuleTable = Dict<string, Dict<string, int>>

  /** An inner mapping of a loaded table: trimmed condition names, positive weights. */
  ghost predicate GoodInner(d: Dict<string, int>) {
    && d.Valid()
    && forall c | c in d.vals :: IsStripped(c) && d.vals[c] > 0
  }

  /** The invariant the loader establishes: tokens are lower-case and trimmed, weights positive. */
  ghost predicate NormalisedTable(t: RuleTable) {
    && t.Valid()
    && forall tok | tok in t.vals :: IsToken(tok) && GoodInner(t.vals[tok])
  }

  /** `dict(pairs)` as `json.loads` builds an object: a repeated name keeps its first place and its last value. */
  function AsDict(members: seq<(string, Json)>): (d: Dict<string, Json>)
    ensures d.Valid()
  {
    if members == [] then Empty()
    else
      var last := members[|members| - 1];
      Put(AsDict(members[..|members| - 1]), last.0, last.1)
  }

  /** The names of an object's members, in document order. */
  function Names(members: seq<(string, Json)>): seq<string> {
    seq(|members|, i requires 0 <= i < |members| => members[i].0)
  }

  /** No later member has the same name as the `i`-th. */
  ghost predicate LastOfName(members: seq<(string, Json)>, i: nat)
    requires i < |members|
  {
    forall j | i < j < |members| :: members[j].0 != members[i].0
  }

  /** The dict's keys are the member names in order of first occurrence. */
  lemma {:induction false} AsDictKeys(members: seq<(string, Json)>)
    ensures AsDict(members).keys == Dedup([], Names(members))
    decreases |members|
  {
    if members != [] {
      var n := |members| - 1;
      var init := members[..n];
      AsDictKeys(init);
      assert AsDict(members) == Put(AsDict(init), members[n].0, members[n].1);
      assert Names(members) == Names(init) + [members[n].0];
      DedupConcat([], Names(init), [members[n].0]);
      PutKeysDedup(AsDict(init), members[n].0, members[n].1);
    }
  }

  /** The bindings `dict(pairs)` ends with, each name assigned in turn. */
  function Bindings(members: seq<(string, Json)>): map<string, Json> {
    if members == [] then map[]
    else
      var n := |members| - 1;
      Bindings(members[..n])[members[n].0 := members[n].1]
  }

  /** The dict's bindings are the members assigned in document order. */
  lemma {:induction false} AsDictBindings(members: seq<(string, Json)>)
    ensures AsDict(members).vals == Bindings(members)
    decreases |members|
  {
    if members != [] {
      AsDictBindings(members[..|members| - 1]);
    }
  }

  /** A name is bound in the dict exactly when some member carries it. */
  lemma AsDictBound(members: seq<(string, Json)>, k: string)
    ensures k in AsDict(members).vals <==> k in Names(members)
  {
    AsDictBindings(members);
    BindingsBound(members, k);
  }

  lemma {:induction false} BindingsBound(members: seq<(string, Json)>, k: string)
    ensures k in Bindings(members) <==> k in Names(members)
    decreases |members|
  {
    if members != [] {
      var n := |members| - 1;
      BindingsBound(members[..n], k);
      assert Names(members) == Names(members[..n]) + [members[n].0];
    }
  }

  /** Each name is bound to the value of its last member. */
  lemma AsDictLastValue(members: seq<(string, Json)>, i: nat)
    requires i < |members| && LastOfName(members, i)
    ensures members[i].0 in AsDict(members).vals
    ensures AsDict(members).vals[members[i].0] == members[i].1
  {
    AsDictBindings(members);
    BindingsLastValue(members, i);
  }

  lemma {:induction false} BindingsLastValue(members: seq<(string, Json)>, i: nat)
    requires i < |members| && LastOfName(members, i)
    ensures members[i].0 in Bindings(members)
    ensures Bindings(members)[members[i].0] == members[i].1
    decreases |members|
  {
    var n := |members| - 1;
    if i < n {
      var init := members[..n];
      LastOfNameInit(members, i);
      assert init[i] == members[i];
      BindingsLastValue(init, i);
    }
  }

  lemma LastOfNameInit(members: seq<(string, Json)>, i: nat)
    requires i < |members| - 1 && LastOfName(members, i)
    ensures LastOfName(members[..|members| - 1], i)
    ensures members[|members| - 1].0 != members[i].0
  {
    var init := members[..|members| - 1];
    forall j | i < j < |init| ensures init[j].0 != init[i].0 {
      assert init[j] == members[j];
    }
  }

  /**
    `isinstance(weight, int) and weight > 0`, with the weight it gives:
    a JSON `true` is a Python `bool`, an `int`, and is accepted as 1.
  */
  function WeightValue(v: Json): (w: Option<int>)
    ensures w.Some? ==> w.value > 0
    ensures w.Some? <==> (v.JInt? && v.n > 0) || v == JBool(true)
    ensures w.Some? ==> w.value == if v.JInt? then v.n else 1
  {
    match v
    case JInt(n) => if n > 0 then Some(n) else None
    case JBool(b) => if b then Some(1) else None
    case _ => None
  }

  /**
    The top-level check `"rules" not in data or not isinstance(data["rules"], dict)`.
    On a list `in` tests the elements and on a string it tests for a
    substring; indexing either with "rules" then raises `TypeError`, as
    does `in` on a number, a boolean or `null`.
  */
  function RulesDictOf(data: Json): (r: Result<Dict<string, Json>, LoadError>)
    ensures r.Success? <==>
              data.JObject? && "rules" in AsDict(data.members).vals &&
              AsDict(data.members).vals["rules"].JObject?
    ensures r.Success? ==> r.value == AsDict(AsDict(data.members).vals["rules"].members)
    ensures r.Failure? && data.JObject? ==> r.error == MissingRulesDict
    ensures r.Failure? ==> r.error == MissingRulesDict || r.error == TypeError
    ensures r == Failure(TypeError) <==>
              match data
              case JObject(_) => false
              case JArray(items) => JString("rules") in items
              case JString(s) => Contains(s, "rules")
              case _ => true
  {
    match data
    case JObject(ms) =>
      var d := AsDict(ms);
      if "rules" in d.vals && d.vals["rules"].JObject? then Success(AsDict(d.vals["rules"].members))
      else Failure(MissingRulesDict)
    case JArray(items) =>
      if JString("rules") in items then Failure(TypeError) else Failure(MissingRulesDict)
    case JString(s) =>
      if Contains(s, "rules") then Failure(TypeError) else Failure(MissingRulesDict)
    case _ => Failure(TypeError)
  }

  /** Every listed key is bound: the part of `Dict.Valid` the loops need to look values up. */
  predicate KeysBound(d: Dict<string, Json>) {
    forall i | 0 <= i < |d.keys| :: d.keys[i] in d.vals
  }

  /**
    The inner loop from the `j`-th condition of `m` on: each condition, in
    order, is checked and stored under its trimmed name, stopping at the
    first bad weight. The only error it raises is a bad weight of this token.
  */
  function CleanWeights(token: string, m: Dict<string, Json>, j: nat, inner: Dict<string, int>)
    : (r: Result<Dict<string, int>, LoadError>)
    requires KeysBound(m) && inner.Valid() && j <= |m.keys|
    ensures r.Failure? ==> r.error.BadWeight? && r.error.token == token
    decreases |m.keys| - j
  {
    if j == |m.keys| then Success(inner)
    else match WeightValue(m.vals[m.keys[j]])
      case None => Failure(BadWeight(token, m.keys[j]))
      case Some(w) => CleanWeights(token, m, j + 1, Put(inner, Strip(m.keys[j]), w))
  }

  /**
    The cleaned inner dict for one token's mapping, or the error it raises:
    a bad mapping or a bad weight, both naming this token.
  */
  function InnerOf(token: string, mapping: Json): (r: Result<Dict<string, int>, LoadError>)
    ensures r.Failure? ==> r.error == BadMapping(token) || (r.error.BadWeight? && r.error.token == token)
    ensures r.Failure? && r.error.BadMapping? <==> !mapping.JObject?
  {
    if !mapping.JObject? then Failure(BadMapping(token))
    else CleanWeights(token, AsDict(mapping.members), 0, Empty())
  }

  /**
    The outer loop from the `i`-th token of `rules` on, storing each under
    its normalised key. The only errors it raises are a bad mapping or a bad
    weight.
  */
  function CleanTokens(rules: Dict<string, Json>, i: nat, cleaned: RuleTable)
    : (r: Result<RuleTable, LoadError>)
    requires KeysBound(rules) && cleaned.Valid() && i <= |rules.keys|
    ensures r.Failure? ==> r.error.BadMapping? || r.error.BadWeight?
    decreases |rules.keys| - i
  {
    if i == |rules.keys| then Success(cleaned)
    else match InnerOf(rules.keys[i], rules.vals[rules.keys[i]])
      case Failure(e) => Failure(e)
      case Success(inner) => CleanTokens(rules, i + 1, Put(cleaned, Normalise(rules.keys[i]), inner))
  }

  /** What `load_rules` returns or raises for a given outcome of reading and parsing. */
  function LoadResult(src: Source): (r: Result<RuleTable, LoadError>)
    ensures src == Missing ==> r == Failure(NotFound)
    ensures src == Unparsable ==> r == Failure(ParseFailure)
    ensures r.Failure? && r.error.TypeError? ==> src.Parsed? && !src.doc.JObject?
    ensures src.Parsed? && RulesDictOf(src.doc).Success? && RulesDictOf(src.doc).value.keys == [] ==>
              r == Success(Empty())
  {
    match src
    case Missing => Failure(NotFound)
    case Unparsable => Failure(ParseFailure)
    case Parsed(doc) =>
      match RulesDictOf(doc)
      case Failure(e) => Failure(e)
      case Success(rules) => CleanTokens(rules, 0, Empty())
  }

  /**
    The inner loop of `load_rules` for one token: each condition of the
    mapping, in order, is checked and stored under its trimmed name in a
    fresh `inner` dict, stopping at the first bad weight.
  */
  method CleanMapping(token: string, m: Dict<string, Json>) returns (r: Result<Dict<string, int>, LoadError>)
    requires m.Valid()
    ensures r == CleanWeights(token, m, 0, Empty())
  {
    var inner: Dict<string, int> := Empty();
    for j := 0 to |m.keys|
      invariant inner.Valid()
      invariant CleanWeights(token, m, 0, Empty()) == CleanWeights(token, m, j, inner)
    {
      var cond := m.keys[j];
      var weight := WeightValue(m.vals[cond]);
      if weight.None? {
        return Failure(BadWeight(token, cond));
      }
      inner := Put(inner, Strip(cond), weight.value);
    }
    return Success(inner);
  }

  /**
    `load_rules`: the outer loop of the source, building `cleaned` token by
    token and returning the first error met.
  */
  method LoadRules(src: Source) returns (r: Result<RuleTable, LoadError>)
    ensures r == LoadResult(src)
  {
    if src.Missing? {
      return Failure(NotFound);
    }
    if src.Unparsable? {
      return Failure(ParseFailure);
    }
    var top := RulesDictOf(src.doc);
    if top.Failure? {
      return Failure(top.error);
    }
    var rules := top.value;
    var cleaned: RuleTable := Empty();
    for i := 0 to |rules.keys|
      invariant cleaned.Valid()
      invariant CleanTokens(rules, 0, Empty()) == CleanTokens(rules, i, cleaned)
    {
      var token := rules.keys[i];
      var mapping := rules.vals[token];
      if !mapping.JObject? {
        return Failure(BadMapping(token));
      }
      var inner := CleanMapping(token, AsDict(mapping.members));
      if inner.Failure? {
        return Failure(inner.error);
      }
      cleaned := Put(cleaned, Normalise(token), inner.value);
    }
    return Success(cleaned);
  }

  // ---------------------------------------------------------------------
  // When loading succeeds
  // ---------------------------------------------------------------------

  /** Every weight of a token's mapping is a positive integer (or `true`). */
  ghost predicate ValidWeights(m: Dict<string, Json>) {
    forall c | c in m.vals :: WeightValue(m.vals[c]).Some?
  }

  /** A token's value is an object whose weights are all acceptable. */
  ghost predicate ValidMapping(v: Json) {
    v.JObject? && ValidWeights(AsDict(v.members))
  }

  ghost predicate ValidRules(rules: Dict<string, Json>) {
    forall t | t in rules.vals :: ValidMapping(rules.vals[t])
  }

  lemma {:induction false} CleanWeightsSucceedsIff(token: string, m: Dict<string, Json>, j: nat, inner: Dict<string, int>)
    requires KeysBound(m) && inner.Valid() && j <= |m.keys|
    ensures CleanWeights(token, m, j, inner).Success? <==>
              forall k | j <= k < |m.keys| :: WeightValue(m.vals[m.keys[k]]).Some?
    decreases |m.keys| - j
  {
    if j < |m.keys| {
      AllWeightsStep(m, j);
      match WeightValue(m.vals[m.keys[j]])
      case None =>
        assert CleanWeights(token, m, j, inner) == Failure(BadWeight(token, m.keys[j]));
      case Some(w) =>
        CleanWeightsSucceedsIff(token, m, j + 1, Put(inner, Strip(m.keys[j]), w));
        assert CleanWeights(token, m, j, inner) == CleanWeights(token, m, j + 1, Put(inner, Strip(m.keys[j]), w));
    } else {
      assert CleanWeights(token, m, j, inner) == Success(inner);
    }
  }

  lemma AllWeightsStep(m: Dict<string, Json>, j: nat)
    requires KeysBound(m) && j < |m.keys|
    ensures (forall k | j <= k < |m.keys| :: WeightValue(m.vals[m.keys[k]]).Some?) <==>
              WeightValue(m.vals[m.keys[j]]).Some? && forall k | j + 1 <= k < |m.keys| :: WeightValue(m.vals[m.keys[k]]).Some?
  {
  }

  /** The inner loop finishes exactly when the token's value is an object of valid weights. */
  lemma InnerSucceedsIff(token: string, mapping: Json)
    ensures InnerOf(token, mapping).Success? <==> ValidMapping(mapping)
  {
    if mapping.JObject? {
      var m := AsDict(mapping.members);
      CleanWeightsSucceedsIff(token, m, 0, Empty());
      if forall k | 0 <= k < |m.keys| :: WeightValue(m.vals[m.keys[k]]).Some? {
        forall c | c in m.vals ensures WeightValue(m.vals[c]).Some? {
          var k :| 0 <= k < |m.keys| && m.keys[k] == c;
        }
      }
    }
  }

  lemma {:induction false} CleanTokensSucceedsIff(rules: Dict<string, Json>, i: nat, cleaned: RuleTable)
    requires KeysBound(rules) && cleaned.Valid() && i <= |rules.keys|
    ensures CleanTokens(rules, i, cleaned).Success? <==>
              forall k | i <= k < |rules.keys| :: ValidMapping(rules.vals[rules.keys[k]])
    decreases |rules.keys| - i
  {
    if i < |rules.keys| {
      var tok := rules.keys[i];
      InnerSucceedsIff(tok, rules.vals[tok]);
      AllValidStep(rules, i);
      match InnerOf(tok, rules.vals[tok])
      case Failure(e) =>
        assert CleanTokens(rules, i, cleaned) == Failure(e);
      case Success(inner) =>
        CleanTokensSucceedsIff(rules, i + 1, Put(cleaned, Normalise(tok), inner));
        assert CleanTokens(rules, i, cleaned) == CleanTokens(rules, i + 1, Put(cleaned, Normalise(tok), inner));
    } else {
      assert CleanTokens(rules, i, cleaned) == Success(cleaned);
    }
  }

  lemma AllValidStep(rules: Dict<string, Json>, i: nat)
    requires KeysBound(rules) && i < |rules.keys|
    ensures (forall k | i <= k < |rules.keys| :: ValidMapping(rules.vals[rules.keys[k]])) <==>
              ValidMapping(rules.vals[rules.keys[i]]) && forall k | i + 1 <= k < |rules.keys| :: ValidMapping(rules.vals[rules.keys[k]])
  {
  }

  /**
    Loading succeeds exactly when the file exists and parses, the document
    holds a `rules` object, every token's value is an object and every
    weight is a positive integer; a missing file, a parse failure, a
    missing `rules` dict, a non-dict mapping, or a zero, negative or
    non-integer weight each raise.
  */
  lemma LoadSucceedsIff(src: Source)
    ensures LoadResult(src).Success? <==>
              src.Parsed? && RulesDictOf(src.doc).Success? && ValidRules(RulesDictOf(src.doc).value)
  {
    if src.Parsed? && RulesDictOf(src.doc).Success? {
      var rules := RulesDictOf(src.doc).value;
      CleanTokensSucceedsIff(rules, 0, Empty());
      if forall k | 0 <= k < |rules.keys| :: ValidMapping(rules.vals[rules.keys[k]]) {
        forall t | t in rules.vals ensures ValidMapping(rules.vals[t]) {
          var k :| 0 <= k < |rules.keys| && rules.keys[k] == t;
        }
      }
    }
  }

  /** A weight of zero or below, anywhere in the rules, makes loading raise a `RulesLoadError`. */
  lemma NonPositiveWeightRaises(doc: Json, token: string, cond: string, n: int)
    requires RulesDictOf(doc).Success?
    requires token in RulesDictOf(doc).value.vals
    requires RulesDictOf(doc).value.vals[token].JObject?
    requires cond in AsDict(RulesDictOf(doc).value.vals[token].members).vals
    requires AsDict(RulesDictOf(doc).value.vals[token].members).vals[cond] == JInt(n)
    requires n <= 0
    ensures LoadResult(Parsed(doc)).Failure?
    ensures IsRulesLoadError(LoadResult(Parsed(doc)).error)
  {
    LoadSucceedsIff(Parsed(doc));
  }

  /** The trimmed names of the conditions of `m` from the `j`-th on. */
  ghost function TrimmedFrom(m: Dict<string, Json>, j: nat): set<string> {
    set k | j <= k < |m.keys| :: Strip(m.keys[k])
  }

  /** The normalised names of the tokens of `rules` from the `i`-th on. */
  ghost function NormalisedFrom(rules: Dict<string, Json>, i: nat): set<string> {
    set k | i <= k < |rules.keys| :: Normalise(rules.keys[k])
  }

  lemma TrimmedFromStep(m: Dict<string, Json>, j: nat)
    requires j < |m.keys|
    ensures TrimmedFrom(m, j) == {Strip(m.keys[j])} + TrimmedFrom(m, j + 1)
  {
  }

  lemma NormalisedFromStep(rules: Dict<string, Json>, i: nat)
    requires i < |rules.keys|
    ensures NormalisedFrom(rules, i) == {Normalise(rules.keys[i])} + NormalisedFrom(rules, i + 1)
  {
  }

  lemma TrimmedFromAll(m: Dict<string, Json>)
    ensures TrimmedFrom(m, 0) == set c | c in m.keys :: Strip(c)
  {
    forall c | c in m.keys ensures Strip(c) in TrimmedFrom(m, 0) {
      var n :| 0 <= n < |m.keys| && m.keys[n] == c;
    }
  }

  lemma NormalisedFromAll(rules: Dict<string, Json>)
    ensures NormalisedFrom(rules, 0) == set t | t in rules.keys :: Normalise(t)
  {
    forall t | t in rules.keys ensures Normalise(t) in NormalisedFrom(rules, 0) {
      var n :| 0 <= n < |rules.keys| && rules.keys[n] == t;
    }
  }

  lemma {:induction false} CleanWeightsGood(token: string, m: Dict<string, Json>, j: nat, inner: Dict<string, int>)
    requires KeysBound(m) && inner.Valid() && j <= |m.keys|
    requires GoodInner(inner)
    requires CleanWeights(token, m, j, inner).Success?
    ensures GoodInner(CleanWeights(token, m, j, inner).value)
    ensures CleanWeights(token, m, j, inner).value.vals.Keys == inner.vals.Keys + TrimmedFrom(m, j)
    decreases |m.keys| - j
  {
    if j < |m.keys| {
      var w := WeightValue(m.vals[m.keys[j]]).value;
      var next := Put(inner, Strip(m.keys[j]), w);
      assert CleanWeights(token, m, j, inner) == CleanWeights(token, m, j + 1, next);
      CleanWeightsGood(token, m, j + 1, next);
      TrimmedFromStep(m, j);
    }
  }

  lemma PutKeepsNormalised(cleaned: RuleTable, tok: string, inner: Dict<string, int>)
    requires NormalisedTable(cleaned) && IsToken(tok) && GoodInner(inner)
    ensures NormalisedTable(Put(cleaned, tok, inner))
  {
  }

  lemma {:induction false} CleanTokensGood(rules: Dict<string, Json>, i: nat, cleaned: RuleTable)
    requires KeysBound(rules) && cleaned.Valid() && i <= |rules.keys|
    requires NormalisedTable(cleaned)
    requires CleanTokens(rules, i, cleaned).Success?
    ensures NormalisedTable(CleanTokens(rules, i, cleaned).value)
    decreases |rules.keys| - i
  {
    if i < |rules.keys| {
      var tok := rules.keys[i];
      var inner := InnerOf(tok, rules.vals[tok]).value;
      CleanWeightsGood(tok, AsDict(rules.vals[tok].members), 0, Empty());
      PutKeepsNormalised(cleaned, Normalise(tok), inner);
      CleanTokensGood(rules, i + 1, Put(cleaned, Normalise(tok), inner));
    }
  }

  lemma {:induction false} CleanTokensKeys(rules: Dict<string, Json>, i: nat, cleaned: RuleTable)
    requires KeysBound(rules) && cleaned.Valid() && i <= |rules.keys|
    requires CleanTokens(rules, i, cleaned).Success?
    ensures CleanTokens(rules, i, cleaned).value.vals.Keys == cleaned.vals.Keys + NormalisedFrom(rules, i)
    decreases |rules.keys| - i
  {
    if i < |rules.keys| {
      var tok := rules.keys[i];
      var inner := InnerOf(tok, rules.vals[tok]).value;
      CleanTokensKeys(rules, i + 1, Put(cleaned, Normalise(tok), inner));
      NormalisedFromStep(rules, i);
    }
  }

  /**
    A loaded table satisfies the loader's invariant (lower-case trimmed
    tokens, trimmed condition names, positive integer weights) and its
    tokens are exactly the `lower().strip()` images of the document's
    tokens: none is added and none is dropped except by collision.
  */
  lemma LoadedTableIsNormalised(doc: Json, t: RuleTable)
    requires LoadResult(Parsed(doc)) == Success(t)
    ensures RulesDictOf(doc).Success?
    ensures NormalisedTable(t)
    ensures t.vals.Keys == set k | k in RulesDictOf(doc).value.keys :: Normalise(k)
  {
    var rules := RulesDictOf(doc).value;
    CleanTokensGood(rules, 0, Empty());
    CleanTokensKeys(rules, 0, Empty());
    NormalisedFromAll(rules);
  }

  /** No condition after the `n`-th trims to the same name. */
  ghost predicate LastTrimmed(m: Dict<string, Json>, n: nat)
    requires n < |m.keys|
  {
    forall k | n < k < |m.keys| :: Strip(m.keys[k]) != Strip(m.keys[n])
  }

  /**
    The inner loop from the `j`-th condition on leaves a trimmed name alone
    when no condition it still visits trims to that name.
  */
  lemma {:induction false} CleanWeightsFrame(token: string, m: Dict<string, Json>, j: nat, inner: Dict<string, int>, c: string)
    requires KeysBound(m) && inner.Valid() && j <= |m.keys|
    requires CleanWeights(token, m, j, inner).Success?
    requires c in inner.vals
    requires forall n | j <= n < |m.keys| :: Strip(m.keys[n]) != c
    ensures c in CleanWeights(token, m, j, inner).value.vals
    ensures CleanWeights(token, m, j, inner).value.vals[c] == inner.vals[c]
    decreases |m.keys| - j
  {
    if j < |m.keys| {
      var w := WeightValue(m.vals[m.keys[j]]);
      assert w.Some?;
      var next := Put(inner, Strip(m.keys[j]), w.value);
      assert CleanWeights(token, m, j, inner) == CleanWeights(token, m, j + 1, next);
      CleanWeightsFrame(token, m, j + 1, next, c);
    }
  }

  /**
    Running the inner loop from the `j`-th condition on, the trimmed name of
    the `n`-th condition ends up holding that condition's weight from the
    document when no later condition trims to the same name.
  */
  lemma {:induction false} CleanWeightsLastWins(token: string, m: Dict<string, Json>, j: nat, inner: Dict<string, int>, n: nat)
    requires KeysBound(m) && inner.Valid() && j <= n < |m.keys|
    requires CleanWeights(token, m, j, inner).Success?
    requires LastTrimmed(m, n)
    ensures Strip(m.keys[n]) in CleanWeights(token, m, j, inner).value.vals
    ensures WeightValue(m.vals[m.keys[n]]) == Some(CleanWeights(token, m, j, inner).value.vals[Strip(m.keys[n])])
    decreases |m.keys| - j
  {
    var w := WeightValue(m.vals[m.keys[j]]);
    assert w.Some?;
    var next := Put(inner, Strip(m.keys[j]), w.value);
    assert CleanWeights(token, m, j, inner) == CleanWeights(token, m, j + 1, next);
    if j == n {
      CleanWeightsFrame(token, m, j + 1, next, Strip(m.keys[n]));
    } else {
      CleanWeightsLastWins(token, m, j + 1, next, n);
    }
  }

  /**
    A loaded token's conditions are exactly the trimmed condition names of
    its mapping, and each holds the weight the document gives the last
    condition trimming to it (`int(weight)`, so 1 for `true`).
  */
  lemma LoadedConditionsAreTrimmed(token: string, mapping: Json, inner: Dict<string, int>)
    requires InnerOf(token, mapping) == Success(inner)
    ensures mapping.JObject?
    ensures GoodInner(inner)
    ensures inner.vals.Keys == set c | c in AsDict(mapping.members).keys :: Strip(c)
    ensures var m := AsDict(mapping.members);
            forall n | 0 <= n < |m.keys| && LastTrimmed(m, n) ::
              Strip(m.keys[n]) in inner.vals && WeightValue(m.vals[m.keys[n]]) == Some(inner.vals[Strip(m.keys[n])])
  {
    var m := AsDict(mapping.members);
    assert CleanWeights(token, m, 0, Empty()) == Success(inner);
    CleanWeightsGood(token, m, 0, Empty());
    TrimmedFromAll(m);
    CleanWeightsValues(token, m, inner);
  }

  /** The inner loop's result holds, for each trimmed name, the weight of the last condition trimming to it. */
  lemma CleanWeightsValues(token: string, m: Dict<string, Json>, inner: Dict<string, int>)
    requires KeysBound(m) && CleanWeights(token, m, 0, Empty()) == Success(inner)
    ensures forall n | 0 <= n < |m.keys| && LastTrimmed(m, n) ::
              Strip(m.keys[n]) in inner.vals && WeightValue(m.vals[m.keys[n]]) == Some(inner.vals[Strip(m.keys[n])])
  {
    forall n | 0 <= n < |m.keys| && LastTrimmed(m, n)
      ensures Strip(m.keys[n]) in inner.vals && WeightValue(m.vals[m.keys[n]]) == Some(inner.vals[Strip(m.keys[n])])
    {
      CleanWeightsLastWins(token, m, 0, Empty(), n);
    }
  }

  lemma {:induction false} CleanTokensFrame(rules: Dict<string, Json>, i: nat, cleaned: RuleTable, k: string)
    requires KeysBound(rules) && cleaned.Valid() && i <= |rules.keys|
    requires CleanTokens(rules, i, cleaned).Success?
    requires k in cleaned.vals
    requires forall n | i <= n < |rules.keys| :: Normalise(rules.keys[n]) != k
    ensures k in CleanTokens(rules, i, cleaned).value.vals
    ensures CleanTokens(rules, i, cleaned).value.vals[k] == cleaned.vals[k]
    decreases |rules.keys| - i
  {
    if i < |rules.keys| {
      var tok := rules.keys[i];
      var inner := InnerOf(tok, rules.vals[tok]).value;
      CleanTokensFrame(rules, i + 1, Put(cleaned, Normalise(tok), inner), k);
    }
  }

  /**
    Running the outer loop from the `i`-th token on, the `n`-th token's
    normalised key ends up holding that token's cleaned mapping when no
    later token normalises to the same key.
  */
  lemma {:induction false} CleanTokensLastWins(rules: Dict<string, Json>, i: nat, cleaned: RuleTable, n: nat)
    requires KeysBound(rules) && cleaned.Valid() && i <= n < |rules.keys|
    requires CleanTokens(rules, i, cleaned).Success?
    requires forall k | n < k < |rules.keys| :: Normalise(rules.keys[k]) != Normalise(rules.keys[n])
    ensures InnerOf(rules.keys[n], rules.vals[rules.keys[n]]).Success?
    ensures Normalise(rules.keys[n]) in CleanTokens(rules, i, cleaned).value.vals
    ensures CleanTokens(rules, i, cleaned).value.vals[Normalise(rules.keys[n])] ==
              InnerOf(rules.keys[n], rules.vals[rules.keys[n]]).value
    decreases |rules.keys| - i
  {
    var tok := rules.keys[i];
    var next := Put(cleaned, Normalise(tok), InnerOf(tok, rules.vals[tok]).value);
    if i == n {
      CleanTokensFrame(rules, i + 1, next, Normalise(tok));
    } else {
      CleanTokensLastWins(rules, i + 1, next, n);
    }
  }

  /**
    When several document tokens normalise to the same key, the table holds
    the cleaned mapping of the last of them, whole: the earlier mappings are
    replaced, not merged.
  */
  lemma LaterTokenReplacesEarlier(doc: Json, t: RuleTable, n: nat)
    requires LoadResult(Parsed(doc)) == Success(t)
    requires RulesDictOf(doc).Success?
    requires n < |RulesDictOf(doc).value.keys|
    requires forall k | n < k < |RulesDictOf(doc).value.keys| ::
               Normalise(RulesDictOf(doc).value.keys[k]) != Normalise(RulesDictOf(doc).value.keys[n])
    ensures var rules := RulesDictOf(doc).value; var tok := rules.keys[n];
            && InnerOf(tok, rules.vals[tok]).Success?
            && Normalise(tok) in t.vals
            && t.vals[Normalise(tok)] == InnerOf(tok, rules.vals[tok]).value
  {
    CleanTokensLastWins(RulesDictOf(doc).value, 0, Empty(), n);
  }
}
