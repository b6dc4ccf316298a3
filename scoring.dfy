/**
  The symptom scorer of ui.py: `safe_load_rules` with its fallback table,
  `score_symptoms` (weighted votes per condition, normalised to the top
  score and ranked) and the critical-condition rule `detect_critical`.
  The module-level `RULES` table that `score_symptoms` reads is passed to
  it explicitly.
*/
module Scoring {
  import opened Wrappers
  import opened Text
  import opened OrderedDict
  import opened RulesLoader
  import opened Ranking

  // ---------------------------------------------------------------------
  // safe_load_rules
  // ---------------------------------------------------------------------

  /**
    The table used when the rules file cannot be loaded: two tokens, each
    with one condition, already in the form the loader produces.
  */
  function Fallback(): (t: RuleTable)
    ensures NormalisedTable(t) && |t.keys| == 2
  {
    FallbackNames();
    SingleIsGood("Ischemic Heart Disease", 5);
    SingleIsGood("Community-Acquired Pneumonia", 3);
    PairTable("chest pain", Single("Ischemic Heart Disease", 5), "fever", Single("Community-Acquired Pneumonia", 3))
  }

  /** The fallback's names are distinct tokens and trimmed condition names. */
  lemma FallbackNames()
    ensures IsToken("chest pain") && IsToken("fever") && "chest pain" != "fever"
    ensures IsStripped("Ischemic Heart Disease") && IsStripped("Community-Acquired Pneumonia")
  {
  }

  /** `{t1: m1, t2: m2}` for two distinct tokens is a normalised table. */
  function PairTable(t1: string, m1: Dict<string, int>, t2: string, m2: Dict<string, int>): (t: RuleTable)
    requires IsToken(t1) && IsToken(t2) && t1 != t2 && GoodInner(m1) && GoodInner(m2)
    ensures NormalisedTable(t) && |t.keys| == 2
  {
    var t := Dict([t1, t2], map[t1 := m1, t2 := m2]);
    assert t.keys[1..] == [t2] && t.keys[1..][1..] == [];
    assert NoDups(t.keys[1..]);
    assert forall k | k in t.vals :: k == t1 || k == t2;
    t
  }

  /** A one-entry mapping `{cond: w}`. */
  function Single(cond: string, w: int): Dict<string, int> {
    Dict([cond], map[cond := w])
  }

  lemma SingleIsGood(cond: string, w: int)
    requires IsStripped(cond) && w > 0
    ensures GoodInner(Single(cond, w))
  {
    var d := Single(cond, w);
    assert d.keys[1..] == [];
    assert NoDups(d.keys);
    assert forall k | k in d.vals :: k in d.keys;
    assert forall i | 0 <= i < |d.keys| :: d.keys[i] in d.vals;
  }

  /**
    `safe_load_rules`: the loaded table, or the fallback table when loading
    raises anything at all. Either way the table satisfies the loader's
    invariant, so every weight the scorer sees is positive.
  */
  function SafeLoadRules(src: Source): (t: RuleTable)
    ensures NormalisedTable(t)
    ensures LoadResult(src).Success? ==> t == LoadResult(src).value
    ensures LoadResult(src).Failure? ==> t == Fallback()
  {
    match LoadResult(src)
    case Success(t) =>
      LoadedTableIsNormalised(src.doc, t);
      t
    case Failure(_) => Fallback()
  }

  // ---------------------------------------------------------------------
  // score_symptoms: accumulating the raw scores
  // ---------------------------------------------------------------------

  /** What the scorer needs of a table: well-formed dicts and positive weights. */
  ghost predicate ScorableTable(rules: RuleTable) {
    && rules.Valid()
    && forall tok | tok in rules.vals ::
         rules.vals[tok].Valid() && forall c | c in rules.vals[tok].vals :: rules.vals[tok].vals[c] > 0
  }

  lemma NormalisedIsScorable(t: RuleTable)
    requires NormalisedTable(t)
    ensures ScorableTable(t)
  {
  }

  /** Positive scores in a well-formed dict. */
  ghost predicate PositiveScores(d: Dict<string, int>) {
    d.Valid() && forall c | c in d.vals :: d.vals[c] > 0
  }

  /** `RULES.get(s.lower().strip(), {})` */
  function Lookup(rules: RuleTable, s: string): (m: Dict<string, int>)
    requires ScorableTable(rules)
    ensures PositiveScores(m)
  {
    GetOr(rules, Normalise(s), Empty())
  }

  /** `raw[cond] = raw.get(cond, 0) + w` */
  function Bump(raw: Dict<string, int>, cond: string, w: int): (r: Dict<string, int>)
    requires raw.Valid()
    ensures r.Valid()
  {
    Put(raw, cond, GetOr(raw, cond, 0) + w)
  }

  /**
    The inner loop from the `j`-th condition of `m` on:
    `raw[cond] = raw.get(cond, 0) + w` for each `(cond, w)` in order.
  */
  function AddWeights(raw: Dict<string, int>, m: Dict<string, int>, j: nat): (r: Dict<string, int>)
    requires raw.Valid() && m.Valid() && j <= |m.keys|
    ensures r.Valid()
    decreases |m.keys| - j
  {
    if j == |m.keys| then raw
    else AddWeights(Bump(raw, m.keys[j], m.vals[m.keys[j]]), m, j + 1)
  }

  /** Each element's mapping `RULES.get(s.lower().strip(), {})`, in list order. */
  function Mappings(selected: seq<string>, rules: RuleTable): (ms: seq<Dict<string, int>>)
    requires ScorableTable(rules)
    ensures |ms| == |selected|
    ensures forall i | 0 <= i < |ms| :: ms[i] == Lookup(rules, selected[i])
    ensures AllPositive(ms)
  {
    seq(|selected|, i requires 0 <= i < |selected| => Lookup(rules, selected[i]))
  }

  /** Every mapping is well-formed with positive weights. */
  ghost predicate AllPositive(ms: seq<Dict<string, int>>) {
    forall i | 0 <= i < |ms| :: PositiveScores(ms[i])
  }

  /**
    The dictionary `raw` after the outer loop has visited the first `n`
    mappings. Each condition's score is the sum of its weights over those
    mappings (a repeated element counts each time, a token missing from
    the table adds nothing); a condition has a score exactly when one of
    them names it; the scores are positive; and the keys are the visited
    conditions in order of first contribution.
  */
  function Accumulate(ms: seq<Dict<string, int>>, n: nat): (raw: Dict<string, int>)
    requires AllPositive(ms) && n <= |ms|
    ensures PositiveScores(raw)
    ensures forall c :: GetOr(raw, c, 0) == Tally(ms, n, c)
    ensures forall c :: c in raw.vals <==> Named(ms, n, c)
    ensures raw.keys == Dedup([], Visits(ms, n))
  {
    if n == 0 then Empty()
    else
      var prev := Accumulate(ms, n - 1);
      var m := ms[n - 1];
      forall c
        ensures GetOr(AddWeights(prev, m, 0), c, 0) == Tally(ms, n, c)
        ensures c in AddWeights(prev, m, 0).vals <==> Named(ms, n, c)
        ensures c in AddWeights(prev, m, 0).vals ==> AddWeights(prev, m, 0).vals[c] > 0
      {
        AddMapping(prev, m, c);
        NamedSnoc(ms, n, c);
      }
      AddMapping(prev, m, "");
      DedupConcat([], Visits(ms, n - 1), m.keys);
      AddWeights(prev, m, 0)
  }

  /** The dictionary `raw` after the outer loop has visited every element of `selected`. */
  function RawScores(selected: seq<string>, rules: RuleTable): (raw: Dict<string, int>)
    requires ScorableTable(rules)
    ensures raw.Valid()
  {
    Accumulate(Mappings(selected, rules), |selected|)
  }

  /** Reference definition of a condition's score: the sum of its weight over the first `n` mappings. */
  function Tally(ms: seq<Dict<string, int>>, n: nat, c: string): int
    requires n <= |ms|
  {
    if n == 0 then 0
    else Tally(ms, n - 1, c) + GetOr(ms[n - 1], c, 0)
  }

  /** The conditions in the order the loops visit them: each mapping, key by key. */
  function Visits(ms: seq<Dict<string, int>>, n: nat): seq<string>
    requires n <= |ms|
  {
    if n == 0 then []
    else Visits(ms, n - 1) + ms[n - 1].keys
  }

  /** Some of the first `n` mappings names `c`. */
  ghost predicate Named(ms: seq<Dict<string, int>>, n: nat, c: string)
    requires n <= |ms|
  {
    exists i | 0 <= i < n :: c in ms[i].vals
  }

  lemma NamedSnoc(ms: seq<Dict<string, int>>, n: nat, c: string)
    requires 0 < n <= |ms|
    ensures Named(ms, n, c) <==> Named(ms, n - 1, c) || c in ms[n - 1].vals
  {
    if Named(ms, n, c) && !Named(ms, n - 1, c) {
      var i :| 0 <= i < n && c in ms[i].vals;
      assert i == n - 1;
    }
  }


  /** One step of the inner loop. */
  lemma AddWeightsUnfold(raw: Dict<string, int>, m: Dict<string, int>, j: nat)
    requires raw.Valid() && m.Valid() && j < |m.keys|
    ensures AddWeights(raw, m, j) ==
            AddWeights(Bump(raw, m.keys[j], m.vals[m.keys[j]]), m, j + 1)
  {
  }

  /** The keys after the inner loop: the old keys, then the new conditions in order. */
  lemma {:induction false} AddWeightsKeys(raw: Dict<string, int>, m: Dict<string, int>, j: nat)
    requires raw.Valid() && m.Valid() && j <= |m.keys|
    ensures AddWeights(raw, m, j).keys == Dedup(raw.keys, m.keys[j..])
    decreases |m.keys| - j
  {
    if j < |m.keys| {
      AddWeightsUnfold(raw, m, j);
      AddWeightsKeys(Bump(raw, m.keys[j], m.vals[m.keys[j]]), m, j + 1);
      assert m.keys[j] in raw.vals <==> m.keys[j] in raw.keys;
      assert m.keys[j..][0] == m.keys[j] && m.keys[j..][1..] == m.keys[j + 1..];
    }
  }

  /** The scores after the inner loop: each remaining condition grows by its weight. */
  lemma {:induction false} AddWeightsValue(raw: Dict<string, int>, m: Dict<string, int>, j: nat, c: string)
    requires raw.Valid() && m.Valid() && j <= |m.keys|
    ensures GetOr(AddWeights(raw, m, j), c, 0) == GetOr(raw, c, 0) + (if c in m.keys[j..] then m.vals[c] else 0)
    decreases |m.keys| - j
  {
    if j < |m.keys| {
      var k := m.keys[j];
      AddWeightsUnfold(raw, m, j);
      AddWeightsValue(Bump(raw, k, m.vals[k]), m, j + 1, c);
      SliceStep(m.keys, j);
      NoDupsAt(m.keys, j);
    }
  }

  /** The conditions present after the inner loop: the old ones and those still to come. */
  lemma {:induction false} AddWeightsMembers(raw: Dict<string, int>, m: Dict<string, int>, j: nat, c: string)
    requires raw.Valid() && m.Valid() && j <= |m.keys|
    ensures c in AddWeights(raw, m, j).vals <==> c in raw.vals || c in m.keys[j..]
    decreases |m.keys| - j
  {
    if j < |m.keys| {
      var k := m.keys[j];
      AddWeightsUnfold(raw, m, j);
      AddWeightsMembers(Bump(raw, k, m.vals[k]), m, j + 1, c);
      SliceStep(m.keys, j);
    }
  }

  lemma SliceStep(ks: seq<string>, j: nat)
    requires j < |ks|
    ensures forall c :: c in ks[j..] <==> c == ks[j] || c in ks[j + 1..]
  {
    assert ks[j..] == [ks[j]] + ks[j + 1..];
  }

  /** Adding one element's mapping: each condition's score grows by its weight there. */
  lemma AddMapping(raw: Dict<string, int>, m: Dict<string, int>, c: string)
    requires raw.Valid() && m.Valid()
    ensures GetOr(AddWeights(raw, m, 0), c, 0) == GetOr(raw, c, 0) + GetOr(m, c, 0)
    ensures c in AddWeights(raw, m, 0).vals <==> c in raw.vals || c in m.vals
    ensures AddWeights(raw, m, 0).keys == Dedup(raw.keys, m.keys)
  {
    AddWeightsValue(raw, m, 0, c);
    AddWeightsMembers(raw, m, 0, c);
    AddWeightsKeys(raw, m, 0);
    assert m.keys[0..] == m.keys;
  }

  /** `raw` is empty exactly when every mapping visited is empty. */
  lemma AccumulateEmptyIff(ms: seq<Dict<string, int>>, n: nat)
    requires AllPositive(ms) && n <= |ms|
    ensures Accumulate(ms, n).keys == [] <==> forall i | 0 <= i < n :: ms[i].keys == []
  {
    var raw := Accumulate(ms, n);
    EmptyIff(raw);
    forall i | 0 <= i < n ensures ms[i].keys == [] <==> ms[i].vals == map[] {
      EmptyIff(ms[i]);
    }
    if raw.keys != [] {
      assert raw.keys[0] in raw.vals;
    } else {
      forall i | 0 <= i < n ensures ms[i].vals == map[] {
        if ms[i].vals != map[] {
          var c :| c in ms[i].vals;
          assert Named(ms, n, c);
        }
      }
    }
  }

  /**
    The scorer returns `([], {})` exactly when no element of the list
    normalises to a token with a non-empty mapping.
  */
  lemma RawScoresEmptyIff(selected: seq<string>, rules: RuleTable)
    requires ScorableTable(rules)
    ensures RawScores(selected, rules).keys == [] <==>
              forall i | 0 <= i < |selected| :: Lookup(rules, selected[i]).keys == []
  {
    AccumulateEmptyIff(Mappings(selected, rules), |selected|);
  }

  /**
    Normalising the symptoms before scoring, as the symptom-checker page
    does, gives the same scores: `lower().strip()` is idempotent.
  */
  lemma PreNormalisedSameScores(selected: seq<string>, rules: RuleTable)
    requires ScorableTable(rules)
    ensures RawScores(seq(|selected|, i requires 0 <= i < |selected| => Normalise(selected[i])), rules) ==
            RawScores(selected, rules)
  {
    var normalised := seq(|selected|, i requires 0 <= i < |selected| => Normalise(selected[i]));
    forall i | 0 <= i < |selected| ensures Lookup(rules, normalised[i]) == Lookup(rules, selected[i]) {
    }
    assert Mappings(normalised, rules) == Mappings(selected, rules);
  }


  // ---------------------------------------------------------------------
  // score_symptoms: normalising and ranking
  // ---------------------------------------------------------------------

  /** `max(values)` over the listed keys. */
  function MaxOver(ks: seq<string>, vals: map<string, int>): (r: int)
    requires |ks| > 0 && forall i | 0 <= i < |ks| :: ks[i] in vals
    ensures forall i | 0 <= i < |ks| :: vals[ks[i]] <= r
    ensures exists i | 0 <= i < |ks| :: vals[ks[i]] == r
    decreases |ks|
  {
    if |ks| == 1 then vals[ks[0]]
    else
      var rest := MaxOver(ks[1..], vals);
      assert forall i | 1 <= i < |ks| :: ks[i] == ks[1..][i - 1];
      if vals[ks[0]] >= rest then vals[ks[0]] else rest
  }

  /** `max(raw.values())` */
  function MaxScore(raw: Dict<string, int>): (m: int)
    requires raw.Valid() && raw.keys != []
    ensures forall c | c in raw.vals :: raw.vals[c] <= m
    ensures exists c | c in raw.vals :: raw.vals[c] == m
  {
    var m := MaxOver(raw.keys, raw.vals);
    assert forall c | c in raw.vals :: exists i | 0 <= i < |raw.keys| :: raw.keys[i] == c;
    m
  }

  /**
    `[(c, round(100.0*v/m, 1)) for c, v in raw.items()]`: one entry per
    condition, in the dict's order; a score no larger than `m` gives at
    most 100.0, and a score equal to `m` exactly 100.0.
  */
  function Percentages(ks: seq<string>, vals: map<string, int>, m: nat): (r: seq<Entry>)
    requires m > 0 && forall i | 0 <= i < |ks| :: ks[i] in vals && vals[ks[i]] >= 0
    ensures |r| == |ks|
    ensures forall i | 0 <= i < |ks| :: r[i].cond == ks[i]
    ensures forall i | 0 <= i < |ks| :: RoundedPercent(vals[ks[i]], m, r[i].pct)
    ensures forall i | 0 <= i < |ks| && vals[ks[i]] <= m :: r[i].pct <= 1000
    ensures forall i | 0 <= i < |ks| && vals[ks[i]] == m :: r[i].pct == 1000
  {
    seq(|ks|, i requires 0 <= i < |ks| => Entry(ks[i], Percent(vals[ks[i]], m)))
  }

  /**
    The ranked list built from `raw`: empty exactly when `raw` is, and
    otherwise a rearrangement of the percentages.
  */
  function Rank(raw: Dict<string, int>): (r: seq<Entry>)
    requires PositiveScores(raw)
    ensures raw.keys == [] <==> r == []
    ensures raw.keys != [] ==> multiset(r) == multiset(Percentages(raw.keys, raw.vals, MaxScore(raw)))
  {
    if raw.keys == [] then []
    else
      var pre := Percentages(raw.keys, raw.vals, MaxScore(raw));
      var r := SortDesc(pre);
      assert pre[0] in multiset(r);
      r
  }

  /**
    The entry that `raw` gives a condition: its percentage lies in
    [0.0, 100.0], and is 100.0 for a condition with the top score.
  */
  function EntryOf(raw: Dict<string, int>, c: string): (e: Entry)
    requires PositiveScores(raw) && raw.keys != [] && c in raw.vals
    ensures e.cond == c && 0 <= e.pct <= 1000
    ensures RoundedPercent(raw.vals[c], MaxScore(raw), e.pct)
    ensures raw.vals[c] == MaxScore(raw) ==> e.pct == 1000
  {
    Entry(c, Percent(raw.vals[c], MaxScore(raw)))
  }

  /**
    The ranked list holds exactly one entry per condition of `raw`: as
    many entries as conditions, the entry of every condition, and no entry
    but those.
  */
  lemma RankedEntries(raw: Dict<string, int>)
    requires PositiveScores(raw)
    ensures |Rank(raw)| == |raw.keys|
    ensures forall c | c in raw.vals :: EntryOf(raw, c) in Rank(raw)
    ensures forall e | e in Rank(raw) :: e.cond in raw.vals && e == EntryOf(raw, e.cond)
  {
    if raw.keys != [] {
      var pre := Percentages(raw.keys, raw.vals, MaxScore(raw));
      var ranked := Rank(raw);
      assert |ranked| == |pre| by {
        assert |multiset(ranked)| == |multiset(pre)|;
      }
      forall c | c in raw.vals ensures EntryOf(raw, c) in ranked {
        var k :| 0 <= k < |raw.keys| && raw.keys[k] == c;
        assert pre[k] in multiset(ranked);
      }
      forall e | e in ranked ensures e.cond in raw.vals && e == EntryOf(raw, e.cond) {
        assert e in multiset(pre);
      }
    }
  }

  /**
    Every percentage lies in [0.0, 100.0], and a condition with the top
    score gets exactly 100.0.
  */
  lemma RankedBounds(raw: Dict<string, int>)
    requires PositiveScores(raw)
    ensures forall e | e in Rank(raw) :: 0 <= e.pct <= 1000
    ensures forall c | c in raw.vals && raw.vals[c] == MaxScore(raw) :: Entry(c, 1000) in Rank(raw)
  {
    RankedEntries(raw);
  }

  /** The ranked list is in non-increasing order of percentage, and it opens with 100.0. */
  lemma RankedSorted(raw: Dict<string, int>)
    requires PositiveScores(raw)
    ensures SortedDesc(Rank(raw))
    ensures raw.keys != [] ==> Rank(raw)[0].pct == 1000
  {
    if raw.keys != [] {
      var ranked := Rank(raw);
      SortDescSorted(Percentages(raw.keys, raw.vals, MaxScore(raw)));
      RankedEntries(raw);
      RankedBounds(raw);
      var c :| c in raw.vals && raw.vals[c] == MaxScore(raw);
      assert Entry(c, 1000) in ranked;
      assert ranked[0] in ranked;
    }
  }

  /**
    Ties keep `raw`'s insertion order: for every percentage, the entries
    carrying it appear in the ranked list in the order their conditions
    were first added to `raw`.
  */
  lemma RankedTiesKeepInsertionOrder(raw: Dict<string, int>, p: int)
    requires PositiveScores(raw) && raw.keys != []
    ensures WithPct(Rank(raw), p) == WithPct(Percentages(raw.keys, raw.vals, MaxScore(raw)), p)
  {
    SortDescStable(Percentages(raw.keys, raw.vals, MaxScore(raw)), p);
  }

  /**
    The two nested loops of `score_symptoms`: for each element of the list,
    look up the mapping of its normalised token and add each of its weights
    to the condition's running score.
  */
  method AccumulateScores(selected: seq<string>, rules: RuleTable) returns (raw: Dict<string, int>)
    requires ScorableTable(rules)
    ensures raw == RawScores(selected, rules)
  {
    ghost var ms := Mappings(selected, rules);
    raw := Empty();
    for i := 0 to |selected|
      invariant raw == Accumulate(ms, i)
    {
      var mapping := Lookup(rules, selected[i]);
      assert mapping == ms[i];
      raw := AddMappingScores(raw, mapping);
    }
  }

  /** The inner loop: `raw[cond] = raw.get(cond, 0) + int(w)` for each `(cond, w)` of the mapping. */
  method AddMappingScores(raw0: Dict<string, int>, mapping: Dict<string, int>) returns (raw: Dict<string, int>)
    requires raw0.Valid() && mapping.Valid()
    ensures raw == AddWeights(raw0, mapping, 0)
  {
    raw := raw0;
    for j := 0 to |mapping.keys|
      invariant raw.Valid()
      invariant AddWeights(raw0, mapping, 0) == AddWeights(raw, mapping, j)
    {
      var cond := mapping.keys[j];
      raw := Bump(raw, cond, mapping.vals[cond]);
    }
  }

  /**
    `score_symptoms`: the raw scores, then (for a non-empty `raw`) the
    percentages of the top score and the stable descending sort.
  */
  method ScoreSymptoms(selected: seq<string>, rules: RuleTable) returns (ranked: seq<Entry>, raw: Dict<string, int>)
    requires ScorableTable(rules)
    ensures raw == RawScores(selected, rules)
    ensures PositiveScores(raw)
    ensures forall c :: GetOr(raw, c, 0) == Tally(Mappings(selected, rules), |selected|, c)
    ensures ranked == Rank(raw)
    ensures |ranked| == |raw.keys|
    ensures SortedDesc(ranked)
    ensures forall e | e in ranked :: 0 <= e.pct <= 1000
  {
    raw := AccumulateScores(selected, rules);
    ScoreFacts(selected, rules);
    if raw.keys == [] {
      return [], raw;
    }
    var m := MaxScore(raw);
    ranked := Percentages(raw.keys, raw.vals, m);
    ranked := SortDesc(ranked);
  }

  /** What the scorer's contract gathers from the lemmas above. */
  lemma ScoreFacts(selected: seq<string>, rules: RuleTable)
    requires ScorableTable(rules)
    ensures PositiveScores(RawScores(selected, rules))
    ensures forall c :: GetOr(RawScores(selected, rules), c, 0) == Tally(Mappings(selected, rules), |selected|, c)
    ensures |Rank(RawScores(selected, rules))| == |RawScores(selected, rules).keys|
    ensures SortedDesc(Rank(RawScores(selected, rules)))
    ensures forall e | e in Rank(RawScores(selected, rules)) :: 0 <= e.pct <= 1000
  {
    var ms := Mappings(selected, rules);
    var raw := RawScores(selected, rules);
    RankedEntries(raw);
    RankedBounds(raw);
    RankedSorted(raw);
  }


  // ---------------------------------------------------------------------
  // detect_critical
  // ---------------------------------------------------------------------

  /** The conditions that count as critical, compared after `lower()`. */
  const CriticalConditions: set<string> :=
    {"ischemic heart disease", "ischemic stroke", "sepsis", "septic shock", "pulmonary embolism"}

  /** An entry at or above 85.0 whose lower-cased condition is critical. */
  predicate IsCriticalEntry(e: Entry) {
    e.pct >= 850 && Lower(e.cond) in CriticalConditions
  }

  /** The name test ignores case, and a higher percentage of a critical entry stays critical. */
  lemma CriticalIgnoresCase(c: string, p: int, q: int)
    ensures IsCriticalEntry(Entry(c, p)) <==> IsCriticalEntry(Entry(Lower(c), p))
    ensures IsCriticalEntry(Entry(c, p)) && p <= q ==> IsCriticalEntry(Entry(c, q))
  {
    LowerIdempotent(c);
  }

  /**
    `detect_critical`: a severity of 8 or more is critical whatever the
    ranked list holds, even when it is empty; below 8 the result is
    critical exactly when some entry has at least 85.0 and a critical
    condition name.
  */
  method DetectCritical(ranked: seq<Entry>, severity: int) returns (critical: bool)
    ensures severity >= 8 ==> critical
    ensures severity < 8 ==> (critical <==> exists i | 0 <= i < |ranked| :: IsCriticalEntry(ranked[i]))
  {
    if severity >= 8 {
      return true;
    }
    for i := 0 to |ranked|
      invariant forall k | 0 <= k < i :: !IsCriticalEntry(ranked[k])
    {
      var e := ranked[i];
      if e.pct >= 850 && Lower(e.cond) in CriticalConditions {
        return true;
      }
    }
    return false;
  }
}
