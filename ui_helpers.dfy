/**
  The small pure helpers of the front end (ui.py): the colour palette
  lookup, the ambulance map link, the severity label shown next to the
  slider, the parsing of the typed symptom list, and the medication search
  filter.
*/
module UiHelpers {
  import opened Wrappers
  import opened Text

  // ---------------------------------------------------------------------
  // get_palette
  // ---------------------------------------------------------------------

  /** One colour theme: CSS colours and a gradient. */
  datatype Palette = Palette(
    primary: string, secondary: string, accent: string, background: string,
    card: string, text: string, muted: string, gradient: string)

  /** `PALETTES`: each theme's name and colours, in the order they are listed. */
  const Themes: seq<(string, Palette)> := [
    ("Teal", Palette("#0b6b67", "#0d9488", "#14b8a6", "#f0fdfa", "#ffffff", "#134e4a", "#5f7f7b",
                     "linear-gradient(135deg, #0b6b67 0%, #14b8a6 100%)")),
    ("Blue", Palette("#1d4ed8", "#3b82f6", "#60a5fa", "#eff6ff", "#ffffff", "#1e3a8a", "#4b5563",
                     "linear-gradient(135deg, #1d4ed8 0%, #60a5fa 100%)")),
    ("Warm", Palette("#ea580c", "#f97316", "#fb923c", "#fff7ed", "#ffffff", "#9a3412", "#7c2d12",
                     "linear-gradient(135deg, #ea580c 0%, #fb923c 100%)")),
    ("Purple", Palette("#7c3aed", "#8b5cf6", "#a78bfa", "#faf5ff", "#ffffff", "#5b21b6", "#6d28d9",
                       "linear-gradient(135deg, #7c3aed 0%, #a78bfa 100%)")),
    ("Green", Palette("#16a34a", "#22c55e", "#4ade80", "#f0fdf4", "#ffffff", "#166534", "#15803d",
                      "linear-gradient(135deg, #16a34a 0%, #4ade80 100%)")),
    ("Coral", Palette("#f43f5e", "#fb7185", "#fda4af", "#fff1f2", "#ffffff", "#9f1239", "#be123c",
                      "linear-gradient(135deg, #f43f5e 0%, #fda4af 100%)"))
  ]

  /** The colours listed under `name` in `themes`, if it is listed. */
  function FindTheme(themes: seq<(string, Palette)>, name: string): (r: Option<Palette>)
    ensures r.Some? ==> exists i | 0 <= i < |themes| :: themes[i] == (name, r.value)
    ensures r.None? <==> forall i | 0 <= i < |themes| :: themes[i].0 != name
  {
    if |themes| == 0 then None
    else if themes[0].0 == name then Some(themes[0].1)
    else
      var r := FindTheme(themes[1..], name);
      assert forall i | 1 <= i < |themes| :: themes[i] == themes[1..][i - 1];
      r
  }

  /** `get_palette(name)`: the named theme, or Teal for a name that is not one. */
  function GetPalette(name: string): (p: Palette)
    ensures exists i | 0 <= i < |Themes| :: p == Themes[i].1
  {
    match FindTheme(Themes, name)
    case Some(p) => p
    case None => Themes[0].1
  }

  /** The themes are listed under different names (their first letters differ). */
  lemma ThemeNamesDistinct(i: nat, j: nat)
    requires i < j < |Themes|
    ensures Themes[i].0 != Themes[j].0
  {
    assert Themes[i].0[0] != Themes[j].0[0];
  }

  /** Every listed theme is shown as listed; any other name shows Teal. */
  lemma GetPaletteChoosesTheme(name: string)
    ensures forall i | 0 <= i < |Themes| :: name == Themes[i].0 ==> GetPalette(name) == Themes[i].1
    ensures (forall i | 0 <= i < |Themes| :: name != Themes[i].0) ==> GetPalette(name) == Themes[0].1
  {
    forall i, j | 0 <= i < j < |Themes| ensures Themes[i].0 != Themes[j].0 {
      ThemeNamesDistinct(i, j);
    }
  }

  // ---------------------------------------------------------------------
  // ambulance_map_link
  // ---------------------------------------------------------------------

  const MapsSearch: string := "https://www.google.com/maps/search/ambulance+near+"

  /**
    `ambulance_map_link(location_query)`: the search for an ambulance
    "near me" when no place is given, otherwise near the place, escaped by
    `quote` (the URL quoting of the Python library).
  */
  function AmbulanceMapLink(query: string, quote: string -> string): (link: string)
    ensures StartsWith(link, MapsSearch)
    ensures |query| == 0 ==> link[|MapsSearch|..] == "me"
    ensures |query| > 0 ==> link[|MapsSearch|..] == quote(query)
  {
    if |query| > 0 then MapsSearch + quote(query) else MapsSearch + "me"
  }

  /** When quoting loses nothing, different places give different links. */
  lemma AmbulanceMapLinkInjective(q1: string, q2: string, quote: string -> string)
    requires forall a, b :: quote(a) == quote(b) ==> a == b
    requires |q1| > 0 && |q2| > 0
    ensures AmbulanceMapLink(q1, quote) == AmbulanceMapLink(q2, quote) ==> q1 == q2
  {
    if AmbulanceMapLink(q1, quote) == AmbulanceMapLink(q2, quote) {
      assert quote(q1) == AmbulanceMapLink(q1, quote)[|MapsSearch|..];
    }
  }

  // ---------------------------------------------------------------------
  // The severity label
  // ---------------------------------------------------------------------

  /** `range(lo, hi): (colour, label)` */
  datatype Band = Band(lo: int, hi: int, colour: string, caption: string)

  /** `severity_colors`, in the order it is searched. */
  const SeverityBands: seq<Band> := [
    Band(1, 4, "#4ade80", "Mild"),
    Band(4, 7, "#fbbf24", "Moderate"),
    Band(7, 11, "#ef4444", "Severe")
  ]

  /** The first band whose range holds `v`: what `next(... if v in r)` finds. */
  function FirstBand(bands: seq<Band>, v: int): (r: Option<Band>)
    ensures r.Some? ==> r.value in bands && r.value.lo <= v < r.value.hi
    ensures r.None? ==> forall i | 0 <= i < |bands| :: !(bands[i].lo <= v < bands[i].hi)
  {
    if |bands| == 0 then None
    else if bands[0].lo <= v < bands[0].hi then Some(bands[0])
    else FirstBand(bands[1..], v)
  }

  /** `severity_label`: the caption of the first band holding the value, Mild when none does. */
  function SeverityLabel(v: int): (r: string)
    ensures r == "Mild" || r == "Moderate" || r == "Severe"
    ensures (exists i | 0 <= i < |SeverityBands| :: SeverityBands[i].lo <= v < SeverityBands[i].hi) || r == "Mild"
  {
    match FirstBand(SeverityBands, v)
    case Some(b) => b.caption
    case None => "Mild"
  }

  /** `severity_color`: the colour of the first band holding the value, green when none does. */
  function SeverityColour(v: int): (r: string)
    ensures r == "#4ade80" || r == "#fbbf24" || r == "#ef4444"
    ensures (exists i | 0 <= i < |SeverityBands| :: SeverityBands[i].lo <= v < SeverityBands[i].hi) || r == "#4ade80"
  {
    match FirstBand(SeverityBands, v)
    case Some(b) => b.colour
    case None => "#4ade80"
  }

  /**
    1 to 3 is Mild in green, 4 to 6 Moderate in amber, 7 to 10 Severe in
    red, and anything else Mild in green.
  */
  lemma SeverityBandsAsRanges(v: int)
    ensures 4 <= v <= 6 ==> SeverityLabel(v) == "Moderate" && SeverityColour(v) == "#fbbf24"
    ensures 7 <= v <= 10 ==> SeverityLabel(v) == "Severe" && SeverityColour(v) == "#ef4444"
    ensures !(4 <= v <= 10) ==> SeverityLabel(v) == "Mild" && SeverityColour(v) == "#4ade80"
  {
    var severe := [Band(7, 11, "#ef4444", "Severe")];
    var moderate := [Band(4, 7, "#fbbf24", "Moderate")] + severe;
    assert SeverityBands[1..] == moderate && moderate[1..] == severe && severe[1..] == [];
    assert FirstBand(severe, v) == if 7 <= v < 11 then Some(severe[0]) else None;
    assert FirstBand(moderate, v) == if 4 <= v < 7 then Some(moderate[0]) else FirstBand(severe, v);
  }

  // ---------------------------------------------------------------------
  // The typed symptom list
  // ---------------------------------------------------------------------

  /** `s.split(sep)`: the pieces between separators; there is always at least one. */
  function Split(s: string, sep: char): (parts: seq<string>)
    ensures |parts| > 0
    ensures forall i | 0 <= i < |parts| :: sep !in parts[i]
  {
    if |s| == 0 then [""]
    else
      var rest := Split(s[1..], sep);
      if s[0] == sep then [""] + rest
      else [[s[0]] + rest[0]] + rest[1..]
  }

  /** `sep.join(parts)` */
  function Join(parts: seq<string>, sep: char): string
    requires |parts| > 0
  {
    if |parts| == 1 then parts[0] else parts[0] + [sep] + Join(parts[1..], sep)
  }

  /** Splitting loses nothing: joining the pieces gives the text back. */
  lemma {:induction false} JoinSplit(s: string, sep: char)
    ensures Join(Split(s, sep), sep) == s
  {
    if |s| > 0 {
      var rest := Split(s[1..], sep);
      JoinSplit(s[1..], sep);
      if s[0] == sep {
        assert ([""] + rest)[1..] == rest;
      } else {
        var parts := [[s[0]] + rest[0]] + rest[1..];
        if |rest| > 1 {
          assert parts[1..] == rest[1..];
          assert Join(rest, sep) == rest[0] + [sep] + Join(rest[1..], sep);
        }
      }
    }
  }

  /** Joining pieces without separators and splitting again gives the pieces back. */
  lemma {:induction false} SplitJoin(parts: seq<string>, sep: char)
    requires |parts| > 0 && forall i | 0 <= i < |parts| :: sep !in parts[i]
    ensures Split(Join(parts, sep), sep) == parts
    decreases |parts|, |parts[0]|
  {
    var p := parts[0];
    if |p| > 0 {
      var parts' := [p[1..]] + parts[1..];
      SplitJoin(parts', sep);
      JoinFirstChar(parts, sep);
      assert [p[0]] + p[1..] == p;
    } else if |parts| > 1 {
      SplitJoin(parts[1..], sep);
      assert Join(parts, sep) == [sep] + Join(parts[1..], sep);
    }
  }

  /** The text of the joined pieces starts with the first character of the first piece. */
  lemma JoinFirstChar(parts: seq<string>, sep: char)
    requires |parts| > 0 && |parts[0]| > 0
    ensures Join(parts, sep) == [parts[0][0]] + Join([parts[0][1..]] + parts[1..], sep)
  {
    var parts' := [parts[0][1..]] + parts[1..];
    assert parts'[1..] == parts[1..];
    assert parts[0] == [parts[0][0]] + parts[0][1..];
  }

  /** `t` is one of `parts`, trimmed, and not empty. */
  ghost predicate TrimmedPiece(t: string, parts: seq<string>) {
    t != "" && exists i | 0 <= i < |parts| :: t == Strip(parts[i])
  }

  /** `[s.strip() for s in parts if s.strip()]` */
  function StrippedPieces(parts: seq<string>): (r: seq<string>)
    ensures |r| <= |parts|
    ensures forall t | t in r :: t != "" && IsStripped(t)
    ensures forall t :: t in r <==> TrimmedPiece(t, parts)
  {
    if |parts| == 0 then []
    else
      var t := Strip(parts[0]);
      var rest := StrippedPieces(parts[1..]);
      assert forall x :: TrimmedPiece(x, parts) <==> (x != "" && x == t) || TrimmedPiece(x, parts[1..]) by {
        forall x ensures TrimmedPiece(x, parts) <==> (x != "" && x == t) || TrimmedPiece(x, parts[1..]) {
          TrimmedPieceStep(x, parts);
        }
      }
      if t != "" then [t] + rest else rest
  }

  lemma TrimmedPieceStep(x: string, parts: seq<string>)
    requires |parts| > 0
    ensures TrimmedPiece(x, parts) <==> (x != "" && x == Strip(parts[0])) || TrimmedPiece(x, parts[1..])
  {
    assert forall i | 1 <= i < |parts| :: parts[i] == parts[1..][i - 1];
  }

  /**
    The typed symptoms: the comma-separated pieces of the input, trimmed,
    with the empty ones dropped; no input gives no symptoms.
  */
  function ParseSymptoms(input: string): (symptoms: seq<string>)
    ensures forall t | t in symptoms :: t != "" && IsStripped(t) && ',' !in t
    ensures forall t :: t in symptoms <==> TrimmedPiece(t, Split(input, ','))
  {
    var parts := Split(input, ',');
    forall i | 0 <= i < |parts| ensures ',' !in Strip(parts[i]) {
      StripKeepsOut(parts[i], ',');
    }
    if |input| > 0 then
      var r := StrippedPieces(parts);
      assert forall t | t in r :: ',' !in t by {
        forall t | t in r ensures ',' !in t {
          var i :| 0 <= i < |parts| && t == Strip(parts[i]);
        }
      }
      r
    else
      assert parts == [""];
      []
  }

  /** Stripping only removes characters. */
  lemma StripKeepsOut(s: string, c: char)
    requires c !in s
    ensures c !in Strip(s)
  {
    StripIsTrimmedSlice(s);
    var a, b :| 0 <= a <= b <= |s| && Strip(s) == s[a..b];
  }

  // ---------------------------------------------------------------------
  // The medication search
  // ---------------------------------------------------------------------

  /** The fields of a medication record the search looks at. */
  datatype Drug = Drug(name: string, drugClass: string, indications: string)

  const AllCategories: string := "All Categories"

  /** The search term occurs, ignoring case, in the name, the class or the indications. */
  predicate MatchesTerm(d: Drug, term: string) {
    var t := Lower(term);
    Contains(Lower(d.name), t) || Contains(Lower(d.drugClass), t) || Contains(Lower(d.indications), t)
  }

  /** The chosen category occurs, as written, in the class. */
  predicate InCategory(d: Drug, category: string) {
    Contains(d.drugClass, category)
  }

  /** The first comprehension: the records matching the search term, in their listed order. */
  function SearchFilter(drugs: seq<Drug>, term: string): (r: seq<Drug>)
    ensures |r| <= |drugs|
    ensures forall d :: d in r <==> d in drugs && MatchesTerm(d, term)
  {
    if |drugs| == 0 then []
    else (if MatchesTerm(drugs[0], term) then [drugs[0]] else []) + SearchFilter(drugs[1..], term)
  }

  /** The second comprehension: the records of the chosen category, in their listed order. */
  function CategoryFilter(drugs: seq<Drug>, category: string): (r: seq<Drug>)
    ensures |r| <= |drugs|
    ensures forall d :: d in r <==> d in drugs && InCategory(d, category)
  {
    if |drugs| == 0 then []
    else (if InCategory(drugs[0], category) then [drugs[0]] else []) + CategoryFilter(drugs[1..], category)
  }

  /** A record is shown when it passes both filters that are switched on. */
  predicate Shown(d: Drug, term: string, category: string) {
    (|term| == 0 || MatchesTerm(d, term)) && (category == AllCategories || InCategory(d, category))
  }

  /** The shown records in one pass, in their listed order: the reference for the two passes. */
  function ShownDrugs(drugs: seq<Drug>, term: string, category: string): seq<Drug> {
    if |drugs| == 0 then []
    else (if Shown(drugs[0], term, category) then [drugs[0]] else []) + ShownDrugs(drugs[1..], term, category)
  }

  /** Each shown record appears as often as it is listed, and no other record appears. */
  lemma {:induction false} ShownDrugsCounts(drugs: seq<Drug>, term: string, category: string)
    ensures var r := ShownDrugs(drugs, term, category);
            forall d :: multiset(r)[d] == if Shown(d, term, category) then multiset(drugs)[d] else 0
  {
    if |drugs| > 0 {
      ShownDrugsCounts(drugs[1..], term, category);
      assert drugs == [drugs[0]] + drugs[1..];
    }
  }

  /** Filtering keeps the listed order: it distributes over concatenation. */
  lemma {:induction false} ShownDrugsConcat(xs: seq<Drug>, ys: seq<Drug>, term: string, category: string)
    ensures ShownDrugs(xs + ys, term, category) == ShownDrugs(xs, term, category) + ShownDrugs(ys, term, category)
  {
    if |xs| > 0 {
      assert (xs + ys)[1..] == xs[1..] + ys;
      ShownDrugsConcat(xs[1..], ys, term, category);
    } else {
      assert xs + ys == ys;
    }
  }

  lemma {:induction false} SearchThenCategory(drugs: seq<Drug>, term: string, category: string)
    requires |term| > 0 && category != AllCategories
    ensures CategoryFilter(SearchFilter(drugs, term), category) == ShownDrugs(drugs, term, category)
  {
    if |drugs| > 0 {
      SearchThenCategory(drugs[1..], term, category);
      var head := if MatchesTerm(drugs[0], term) then [drugs[0]] else [];
      CategoryFilterConcat(head, SearchFilter(drugs[1..], term), category);
    }
  }

  lemma {:induction false} CategoryFilterConcat(xs: seq<Drug>, ys: seq<Drug>, category: string)
    ensures CategoryFilter(xs + ys, category) == CategoryFilter(xs, category) + CategoryFilter(ys, category)
  {
    if |xs| > 0 {
      assert (xs + ys)[1..] == xs[1..] + ys;
      CategoryFilterConcat(xs[1..], ys, category);
    } else {
      assert xs + ys == ys;
    }
  }

  lemma {:induction false} SearchOnly(drugs: seq<Drug>, term: string, category: string)
    requires |term| > 0 && category == AllCategories
    ensures SearchFilter(drugs, term) == ShownDrugs(drugs, term, category)
  {
    if |drugs| > 0 {
      SearchOnly(drugs[1..], term, category);
    }
  }

  lemma {:induction false} CategoryOnly(drugs: seq<Drug>, term: string, category: string)
    requires |term| == 0 && category != AllCategories
    ensures CategoryFilter(drugs, category) == ShownDrugs(drugs, term, category)
  {
    if |drugs| > 0 {
      CategoryOnly(drugs[1..], term, category);
    }
  }

  lemma {:induction false} NoFilter(drugs: seq<Drug>, term: string, category: string)
    requires |term| == 0 && category == AllCategories
    ensures drugs == ShownDrugs(drugs, term, category)
  {
    if |drugs| > 0 {
      NoFilter(drugs[1..], term, category);
    }
  }

  /**
    `filtered_drugs`: the search-term filter when a term is typed, then the
    category filter unless all categories are chosen. The result is the
    one-pass reference: the records passing both filters, each as often
    as it is listed and in the listed order.
  */
  function FilterDrugs(drugs: seq<Drug>, term: string, category: string): (r: seq<Drug>)
    ensures r == ShownDrugs(drugs, term, category)
  {
    var afterSearch := if |term| > 0 then SearchFilter(drugs, term) else drugs;
    var r := if category != AllCategories then CategoryFilter(afterSearch, category) else afterSearch;
    assert r == ShownDrugs(drugs, term, category) by {
      if |term| > 0 && category != AllCategories {
        SearchThenCategory(drugs, term, category);
      } else if |term| > 0 {
        SearchOnly(drugs, term, category);
      } else if category != AllCategories {
        CategoryOnly(drugs, term, category);
      } else {
        NoFilter(drugs, term, category);
      }
    }
    r
  }
}
