/**
  `sanitize_text` (ui.py): three `re.subn` passes over the free text the
  user types, redacting e-mail addresses, then phone numbers, then long
  digit runs that look like identifiers, and a flag saying whether
  anything was redacted.

  Each regular expression is modelled by a scanner that finds the match
  Python's backtracking engine finds at a given position; `\w` and `\d`
  are taken over ASCII, `\s` is `str.isspace`.
*/
module Sanitizer {
  import opened Wrappers
  import opened Text

  predicate IsDigit(c: char) { '0' <= c <= '9' }

  predicate IsLetter(c: char) { 'A' <= c <= 'Z' || 'a' <= c <= 'z' }

  /** `\w` */
  predicate IsWord(c: char) { IsLetter(c) || IsDigit(c) || c == '_' }

  /** The character classes the three patterns use. */
  datatype CharClass =
    | Digit    // \d
    | Letter   // [A-Za-z]
    | Word     // \w
    | Local    // [A-Za-z0-9._%+-]
    | Domain   // [A-Za-z0-9.-]

  predicate InClass(cls: CharClass, c: char) {
    match cls
    case Digit => IsDigit(c)
    case Letter => IsLetter(c)
    case Word => IsWord(c)
    case Local => IsLetter(c) || IsDigit(c) || c == '.' || c == '_' || c == '%' || c == '+' || c == '-'
    case Domain => IsLetter(c) || IsDigit(c) || c == '.' || c == '-'
  }

  /** Where the run of characters of the class starting at `p` ends: what a greedy `[...]+` takes. */
  function RunEnd(s: string, p: nat, cls: CharClass): (e: nat)
    requires p <= |s|
    ensures p <= e <= |s|
    ensures forall i | p <= i < e :: InClass(cls, s[i])
    ensures e == |s| || !InClass(cls, s[e])
    decreases |s| - p
  {
    if p < |s| && InClass(cls, s[p]) then RunEnd(s, p + 1, cls) else p
  }

  /** A run is decided by its characters and the one after it. */
  lemma RunEndUnique(s: string, p: nat, cls: CharClass, e: nat)
    requires p <= e <= |s|
    requires forall i | p <= i < e :: InClass(cls, s[i])
    requires e == |s| || !InClass(cls, s[e])
    ensures RunEnd(s, p, cls) == e
  {
  }

  /** `\b` at position `i`: exactly one of the characters around it is a word character. */
  predicate WordBoundary(s: string, i: nat)
    requires i <= |s|
  {
    (i > 0 && IsWord(s[i - 1])) != (i < |s| && IsWord(s[i]))
  }

  // ---------------------------------------------------------------------
  // The three patterns
  // ---------------------------------------------------------------------

  /** A dot at `k` followed by at least two letters: where `\.[A-Za-z]{2,}` can match. */
  predicate TldAt(s: string, k: nat)
    requires k < |s|
  {
    s[k] == '.' && RunEnd(s, k + 1, Letter) >= k + 3
  }

  /**
    The last `k` in `[lo, hi)` with `TldAt(s, k)`: the greedy domain part
    `[A-Za-z0-9.-]+` gives back characters one at a time until the rest of
    the pattern matches.
  */
  function LastTld(s: string, lo: nat, hi: nat): (r: Option<nat>)
    requires hi <= |s|
    ensures r.Some? ==> lo <= r.value < hi && TldAt(s, r.value)
    ensures r.Some? ==> forall k | r.value < k < hi :: !TldAt(s, k)
    ensures r.None? ==> forall k | lo <= k < hi :: !TldAt(s, k)
    decreases hi
  {
    if hi <= lo then None
    else if TldAt(s, hi - 1) then Some(hi - 1)
    else LastTld(s, lo, hi - 1)
  }

  /**
    `[A-Za-z0-9._%+-]+@[A-Za-z0-9.-]+\.[A-Za-z]{2,}` tried at `p`: the end
    of the match, if there is one. The local part cannot contain `@`, so
    it is the whole run of local characters and `@` must follow it.
  */
  function EmailAt(s: string, p: nat): (r: Option<nat>)
    requires p <= |s|
    ensures r.Some? ==> p < r.value <= |s| && InClass(Local, s[p])
  {
    var at := RunEnd(s, p, Local);
    if at == p || at == |s| || s[at] != '@' then None
    else
      match LastTld(s, at + 2, RunEnd(s, at + 1, Domain))
      case None => None
      case Some(dot) => Some(RunEnd(s, dot + 1, Letter))
  }

  /** `n` digits at position `i`. */
  predicate DigitsAt(s: string, i: nat, n: nat) {
    i + n <= |s| && forall k | i <= k < i + n :: IsDigit(s[k])
  }

  /** `[-.\s]?` at `i`: the optional separator is taken when present (it is never a digit). */
  function SkipSep(s: string, i: nat): (j: nat)
    requires i <= |s|
    ensures i <= j <= |s|
  {
    if i < |s| && (s[i] == '-' || s[i] == '.' || IsSpace(s[i])) then i + 1 else i
  }

  /** `\b\d{3}[-.\s]?\d{3}[-.\s]?\d{4}\b` tried at `p`. */
  function PhoneAt(s: string, p: nat): (r: Option<nat>)
    requires p <= |s|
    ensures r.Some? ==> p < r.value <= |s| && IsDigit(s[p])
  {
    if !WordBoundary(s, p) || !DigitsAt(s, p, 3) then None
    else
      var i := SkipSep(s, p + 3);
      if !DigitsAt(s, i, 3) then None
      else
        var j := SkipSep(s, i + 3);
        if !DigitsAt(s, j, 4) || !WordBoundary(s, j + 4) then None
        else Some(j + 4)
  }

  /**
    `\b\d{6,}\b` tried at `p`: a match is a run of six or more digits with
    a word boundary at both ends. Giving back digits never helps: a shorter
    run ends between two digits, where there is no `\b`.
  */
  function IdAt(s: string, p: nat): (r: Option<nat>)
    requires p <= |s|
    ensures r.Some? ==> p + 6 <= r.value <= |s| && IsDigit(s[p])
    ensures r.Some? ==> WordBoundary(s, p) && WordBoundary(s, r.value)
    ensures r.Some? ==> forall i | p <= i < r.value :: IsDigit(s[i])
  {
    var e := RunEnd(s, p, Digit);
    if WordBoundary(s, p) && e - p >= 6 && WordBoundary(s, e) then Some(e) else None
  }

  /** Every word-bounded run of six or more digits starting at `p` is the match `IdAt` finds. */
  lemma IdAtComplete(s: string, p: nat, e: nat)
    requires p + 6 <= e <= |s| && WordBoundary(s, p) && WordBoundary(s, e)
    requires forall i | p <= i < e :: IsDigit(s[i])
    ensures IdAt(s, p) == Some(e)
  {
    assert IsDigit(s[e - 1]);
    RunEndUnique(s, p, Digit, e);
  }

  datatype Pattern = Email | Phone | Id

  function Replacement(pat: Pattern): (r: string)
    ensures |r| > 0 && r[0] == '['
  {
    match pat
    case Email => "[REDACTED_EMAIL]"
    case Phone => "[REDACTED_PHONE]"
    case Id => "[REDACTED_ID]"
  }

  /** The end of the match of `pat` at `p`; a match is never empty and never starts with `[`. */
  function MatchAt(pat: Pattern, s: string, p: nat): (r: Option<nat>)
    requires p <= |s|
    ensures r.Some? ==> p < r.value <= |s| && s[p] != '['
  {
    match pat
    case Email => EmailAt(s, p)
    case Phone => PhoneAt(s, p)
    case Id => IdAt(s, p)
  }

  // ---------------------------------------------------------------------
  // re.subn
  // ---------------------------------------------------------------------

  /**
    For each position of `s`, where a match tried there ends, if one is
    found: a match is never empty and stays inside the text.
  */
  ghost predicate ProperEnds(s: string, ends: seq<Option<nat>>) {
    && |ends| == |s|
    && forall i | 0 <= i < |s| :: ends[i].Some? ==> i < ends[i].value <= |s|
  }

  /** The matches of `pat` tried at every position of `s`. */
  function Matches(pat: Pattern, s: string): (ends: seq<Option<nat>>)
    ensures ProperEnds(s, ends)
    ensures forall i | 0 <= i < |s| :: ends[i] == MatchAt(pat, s, i)
  {
    seq(|s|, i requires 0 <= i < |s| => MatchAt(pat, s, i))
  }

  /**
    The scan of `re.subn` from position `p` on, given the match found at
    each position: left to right, a match is replaced by `repl` and the
    scan resumes where it ended; elsewhere one character is copied. The
    result is the new text and the number of replacements: at most one
    per character scanned, and with none the text is copied unchanged.
  */
  function Scan(s: string, ends: seq<Option<nat>>, repl: string, p: nat): (r: (string, nat))
    requires ProperEnds(s, ends) && p <= |s|
    ensures r.1 <= |s| - p
    ensures r.1 == 0 ==> r.0 == s[p..]
    decreases |s| - p
  {
    if p == |s| then ("", 0)
    else match ends[p]
      case Some(e) =>
        var rest := Scan(s, ends, repl, e);
        (repl + rest.0, rest.1 + 1)
      case None =>
        var rest := Scan(s, ends, repl, p + 1);
        assert rest.1 == 0 ==> [s[p]] + rest.0 == s[p..] by {
          assert s[p..] == [s[p]] + s[p + 1..];
        }
        ([s[p]] + rest.0, rest.1)
  }

  /**
    No replacement is made exactly when the text comes out unchanged,
    provided the replacement starts with a character no match starts with.
  */
  lemma {:induction false} ScanUnchangedIff(s: string, ends: seq<Option<nat>>, repl: string, p: nat)
    requires ProperEnds(s, ends) && p <= |s|
    requires |repl| > 0 && forall i | 0 <= i < |s| :: ends[i].Some? ==> s[i] != repl[0]
    ensures Scan(s, ends, repl, p).1 == 0 <==> Scan(s, ends, repl, p).0 == s[p..]
    decreases |s| - p
  {
    if p < |s| {
      match ends[p]
      case Some(e) =>
        assert Scan(s, ends, repl, p).0[0] == repl[0] != s[p..][0];
      case None =>
        ScanUnchangedIff(s, ends, repl, p + 1);
        assert s[p..] == [s[p]] + s[p + 1..];
    }
  }

  /**
    `re.subn(pattern, replacement, s)`: the count is zero exactly when the
    text is unchanged (a replacement token starts with `[`, which no match
    starts with).
  */
  function Subn(pat: Pattern, s: string): (r: (string, nat))
    ensures r.1 == 0 <==> r.0 == s
  {
    var ends := Matches(pat, s);
    ScanUnchangedIff(s, ends, Replacement(pat), 0);
    assert s[0..] == s;
    Scan(s, ends, Replacement(pat), 0)
  }

  // ---------------------------------------------------------------------
  // sanitize_text
  // ---------------------------------------------------------------------

  /** No identifier-like run is left: `\b\d{6,}\b` matches nowhere in `t`. */
  predicate NoIdMatch(t: string) {
    forall q | 0 <= q < |t| :: IdAt(t, q).None?
  }

  /**
    `sanitize_text`: an empty text comes back as it is, unflagged.
    Otherwise the e-mail pass runs first, the phone pass on its output,
    and the identifier pass last; the flag is raised exactly when some pass
    changed its input, so an unflagged result is the input itself. No
    identifier-like run survives.
  */
  method SanitizeText(text: string) returns (s: string, flag: bool)
    ensures |text| == 0 ==> s == text && !flag
    ensures |text| > 0 ==> s == Subn(Id, Subn(Phone, Subn(Email, text).0).0).0
    ensures var e := Subn(Email, text).0; var ph := Subn(Phone, e).0;
            flag <==> |text| > 0 && (e != text || ph != e || s != ph)
    ensures !flag ==> s == text
    ensures NoIdMatch(s)
  {
    if |text| == 0 {
      return text, false;
    }
    s := text;
    flag := false;
    var r := Subn(Email, s);
    s := r.0;
    if r.1 > 0 {
      flag := true;
    }
    r := Subn(Phone, s);
    s := r.0;
    if r.1 > 0 {
      flag := true;
    }
    ghost var beforeId := s;
    r := Subn(Id, s);
    s := r.0;
    if r.1 > 0 {
      flag := true;
    }
    IdPassLeavesNoId(beforeId);
  }

  // ---------------------------------------------------------------------
  // The identifier pass leaves no identifier
  // ---------------------------------------------------------------------

  /**
    `\b\d{6,}\b` matches at `q` of `t`, where `ctx` says whether the
    character just before `t` is a word character.
  */
  predicate IdIn(ctx: bool, t: string, q: nat)
    requires q < |t|
  {
    var e := RunEnd(t, q, Digit);
    && !(if q == 0 then ctx else IsWord(t[q - 1]))
    && e - q >= 6
    && (e == |t| || !IsWord(t[e]))
  }

  /** With no word character before the text, `IdIn` is the identifier pattern. */
  lemma IdInIsMatch(t: string, q: nat)
    requires q < |t|
    ensures IdIn(false, t, q) <==> IdAt(t, q).Some?
  {
    var e := RunEnd(t, q, Digit);
    if e > q {
      assert IsDigit(t[q]) && IsDigit(t[e - 1]);
    }
  }

  /** Matching at a position of `b` inside `a + b` depends on `b` and the last character of `a`. */
  lemma ShiftIdIn(ctx: bool, a: string, b: string, q: nat)
    requires q < |b|
    ensures IdIn(ctx, a + b, |a| + q) == IdIn(if |a| == 0 then ctx else IsWord(a[|a| - 1]), b, q)
  {
    var e := RunEnd(b, q, Digit);
    forall i | |a| + q <= i < |a| + e ensures InClass(Digit, (a + b)[i]) {
      assert (a + b)[i] == b[i - |a|];
    }
    RunEndUnique(a + b, |a| + q, Digit, |a| + e);
  }

  /** Where no match starts, the scan copies the text unchanged. */
  lemma {:induction false} CopiesWhileNoMatch(s: string, ends: seq<Option<nat>>, repl: string, p: nat, m: nat)
    requires ProperEnds(s, ends) && p <= m <= |s|
    requires forall i | p <= i < m :: ends[i].None?
    ensures Scan(s, ends, repl, p).0 == s[p..m] + Scan(s, ends, repl, m).0
    decreases m - p
  {
    if p < m {
      CopiesWhileNoMatch(s, ends, repl, p + 1, m);
      assert s[p..m] == [s[p]] + s[p + 1..m];
    }
  }

  /** `ends` holds the matches of the identifier pattern. */
  ghost predicate IdEnds(s: string, ends: seq<Option<nat>>) {
    ProperEnds(s, ends) && forall i | 0 <= i < |s| :: ends[i] == IdAt(s, i)
  }

  /**
    Where the scan copies the digit run starting at `p` and the character
    that ends it, the output starts with the same run.
  */
  lemma CopiedDigitRun(s: string, ends: seq<Option<nat>>, repl: string, p: nat, e: nat)
    requires ProperEnds(s, ends) && p < |s| && ends[p].None?
    requires e == RunEnd(s, p, Digit)
    requires forall i | p < i <= e && i < |s| :: ends[i].None?
    ensures var out := [s[p]] + Scan(s, ends, repl, p + 1).0;
            RunEnd(out, 0, Digit) == e - p && (e < |s| ==> e - p < |out| && out[e - p] == s[e])
  {
    var m := if e < |s| then e + 1 else |s|;
    CopiesWhileNoMatch(s, ends, repl, p + 1, m);
    var out := [s[p]] + Scan(s, ends, repl, p + 1).0;
    assert out == s[p..m] + Scan(s, ends, repl, m).0;
    forall i | 0 <= i < m - p ensures out[i] == s[p + i] {
      assert out[i] == s[p..m][i];
    }
    if e < |s| {
      RunEndUnique(out, 0, Digit, e - p);
    } else {
      assert out == s[p..];
      RunEndUnique(out, 0, Digit, e - p);
    }
  }

  /**
    Where the scan copies a digit that starts a word, no identifier match
    starts in the output either: the digits after it are copied too, with
    the character that ends them.
  */
  lemma CopiedNotId(s: string, ends: seq<Option<nat>>, p: nat, ctx: bool)
    requires IdEnds(s, ends) && p < |s| && ends[p].None?
    requires ctx ==> 0 < p && IsWord(s[p - 1])
    requires !ctx ==> p == 0 || !IsWord(s[p - 1]) || !IsWord(s[p])
    ensures !IdIn(ctx, [s[p]] + Scan(s, ends, Replacement(Id), p + 1).0, 0)
  {
    if !ctx && IsDigit(s[p]) {
      var e := RunEnd(s, p, Digit);
      forall i | p < i <= e && i < |s| ensures ends[i].None? {
        assert IsDigit(s[i - 1]);
      }
      CopiedDigitRun(s, ends, Replacement(Id), p, e);
      assert IdAt(s, p).None?;
    }
  }

  /**
    The output of the identifier scan from `p` holds no identifier match,
    given what precedes it: a copied word character (`ctx`), or the start
    of the text, a non-word character, or a replacement token followed by
    a non-word character.
  */
  lemma {:induction false} IdFreeFrom(s: string, ends: seq<Option<nat>>, p: nat, ctx: bool)
    requires IdEnds(s, ends) && p <= |s|
    requires ctx ==> 0 < p && IsWord(s[p - 1])
    requires !ctx ==> p == 0 || p == |s| || !IsWord(s[p - 1]) || !IsWord(s[p])
    ensures forall q | 0 <= q < |Scan(s, ends, Replacement(Id), p).0| :: !IdIn(ctx, Scan(s, ends, Replacement(Id), p).0, q)
    decreases |s| - p
  {
    if p < |s| {
      var out := Scan(s, ends, Replacement(Id), p).0;
      match ends[p]
      case Some(e) =>
        var rest := Scan(s, ends, Replacement(Id), e).0;
        var tok := Replacement(Id);
        assert out == tok + rest;
        assert IsDigit(s[e - 1]);
        IdFreeFrom(s, ends, e, false);
        forall q | 0 <= q < |out| ensures !IdIn(ctx, out, q) {
          if q < |tok| {
            assert out[q] == tok[q];
          } else {
            ShiftIdIn(ctx, tok, rest, q - |tok|);
          }
        }
      case None =>
        var rest := Scan(s, ends, Replacement(Id), p + 1).0;
        assert out == [s[p]] + rest;
        IdFreeFrom(s, ends, p + 1, IsWord(s[p]));
        forall q | 0 <= q < |out| ensures !IdIn(ctx, out, q) {
          if q == 0 {
            CopiedNotId(s, ends, p, ctx);
          } else {
            ShiftIdIn(ctx, [s[p]], rest, q - 1);
          }
        }
    }
  }

  /**
    After the identifier pass no word-bounded run of six or more digits
    is left: the replacement token holds no digit, and a run the scan
    copied would have been replaced.
  */
  lemma IdPassLeavesNoId(t: string)
    ensures NoIdMatch(Subn(Id, t).0)
  {
    var out := Subn(Id, t).0;
    IdFreeFrom(t, Matches(Id, t), 0, false);
    forall q | 0 <= q < |out| ensures IdAt(out, q).None? {
      IdInIsMatch(out, q);
    }
  }
}
