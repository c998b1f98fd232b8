/** The symbol normaliser: turns a free-form list of ticker symbols into the
    sorted, duplicate-free, delimiter-joined list the quote feed is queried with
    and the settings screen previews. */
module Symbols {
  import opened JavaLang
  import opened Patterns
  import StableSort

  /** The pseudo-symbol standing for the average of the whole portfolio. */
  const CUSTOM_INDEX: string := "^MYINDEX"

  /** A match the loop keeps: non-empty and not the pseudo-symbol. */
  predicate Admissible(t: string)
  {
    |t| >= 1 && t != CUSTOM_INDEX
  }

  /** The admissible matches in order of first appearance, each kept once. */
  function Admitted(toks: seq<string>): seq<string>
    decreases |toks|
  {
    if toks == [] then []
    else
      var d := Admitted(toks[..|toks| - 1]);
      var t := toks[|toks| - 1];
      if !Admissible(t) || t in d then d else d + [t]
  }

  lemma AdmittedStep(toks: seq<string>, i: nat)
    requires i < |toks|
    ensures Admitted(toks[..i + 1]) ==
      if !Admissible(toks[i]) || toks[i] in Admitted(toks[..i]) then Admitted(toks[..i])
      else Admitted(toks[..i]) + [toks[i]]
  {
    assert toks[..i + 1][..i] == toks[..i];
  }

  /** The first `limit` elements when `limit` is positive; 0 or less means unlimited. */
  function Limited(s: seq<string>, limit: int): seq<string>
  {
    if limit > 0 && |s| > limit then s[..limit] else s
  }

  /** The matches of `[A-Z0-9.^-]+` in the upper-cased input. */
  function Matches(symsIn: string): seq<string>
  {
    FindAll(ToUpperCase(symsIn), SymbolClass)
  }

  /** The list of symbols that normalisation joins. */
  function Normalized(symsIn: string, limit: int): seq<string>
  {
    StableSort.Sort(Limited(Admitted(Matches(symsIn)), limit), StrLe)
  }

  ghost predicate Distinct(s: seq<string>)
  {
    forall i, j :: 0 <= i < j < |s| ==> s[i] != s[j]
  }

  ghost predicate StrictlySorted(s: seq<string>)
  {
    forall i, j :: 0 <= i < j < |s| ==> CompareTo(s[i], s[j]) < 0
  }

  lemma StrLeTotalPreorder()
    ensures StableSort.TotalPreorder(StrLe)
  {
    forall a, b ensures StrLe(a, b) || StrLe(b, a) {
      CompareToAntisymmetric(a, b);
    }
    forall a, b, c | StrLe(a, b) && StrLe(b, c) ensures StrLe(a, c) {
      CompareToTransitive(a, b, c);
    }
  }

  /** Admitted keeps each admissible match exactly once and nothing else. */
  lemma {:induction false} AdmittedSpec(toks: seq<string>)
    ensures Distinct(Admitted(toks))
    ensures forall t :: t in Admitted(toks) <==> t in toks && Admissible(t)
    decreases |toks|
  {
    if toks != [] {
      var init := toks[..|toks| - 1];
      AdmittedSpec(init);
      assert toks == init + [toks[|toks| - 1]];
    }
  }

  /** What has been admitted from a prefix is a prefix of what is admitted from the whole. */
  lemma {:induction false} AdmittedPrefix(toks: seq<string>, i: nat)
    requires i <= |toks|
    ensures |Admitted(toks[..i])| <= |Admitted(toks)|
    ensures Admitted(toks[..i]) == Admitted(toks)[..|Admitted(toks[..i])|]
    decreases |toks| - i
  {
    if i < |toks| {
      var init := toks[..|toks| - 1];
      assert init[..i] == toks[..i];
      AdmittedPrefix(init, i);
    } else {
      assert toks[..i] == toks;
    }
  }

  /** An already admitted list (distinct, admissible) is its own admitted list. */
  lemma {:induction false} AdmittedOfAdmitted(s: seq<string>)
    requires Distinct(s) && forall k :: 0 <= k < |s| ==> Admissible(s[k])
    ensures Admitted(s) == s
    decreases |s|
  {
    if s != [] {
      var init := s[..|s| - 1];
      AdmittedOfAdmitted(init);
      assert s[|s| - 1] !in init;
      assert init + [s[|s| - 1]] == s;
    }
  }

  /** A permutation of a duplicate-free sequence is duplicate-free. */
  lemma DistinctPermutation(a: seq<string>, b: seq<string>)
    requires Distinct(a) && multiset(a) == multiset(b)
    ensures Distinct(b)
  {
    forall i, j | 0 <= i < j < |b| ensures b[i] != b[j] {
      if b[i] == b[j] {
        assert b == b[..i] + [b[i]] + b[i + 1..j] + [b[j]] + b[j + 1..];
        assert multiset(b)[b[i]] >= 2;
        DistinctCount(a, b[i]);
      }
    }
  }

  lemma SortedDistinctStrict(s: seq<string>)
    requires StableSort.Sorted(s, StrLe) && Distinct(s)
    ensures StrictlySorted(s)
  {
    forall i, j | 0 <= i < j < |s| ensures CompareTo(s[i], s[j]) < 0 {
      assert StrLe(s[i], s[j]);
      CompareToZero(s[i], s[j]);
    }
  }

  lemma {:induction false} DistinctCount(s: seq<string>, x: string)
    requires Distinct(s)
    ensures multiset(s)[x] <= 1
    decreases |s|
  {
    if s != [] {
      var init := s[..|s| - 1];
      assert s == init + [s[|s| - 1]];
      DistinctCount(init, x);
      assert s[|s| - 1] !in init;
    }
  }

  /** Every normalised token is an admissible match of the upper-cased input. */
  lemma NormalizedTokens(symsIn: string, limit: int)
    ensures forall t :: t in Normalized(symsIn, limit) ==> t in Matches(symsIn) && Admissible(t)
    ensures Distinct(Limited(Admitted(Matches(symsIn)), limit))
  {
    var toks := Matches(symsIn);
    var adm := Admitted(toks);
    var lim := Limited(adm, limit);
    AdmittedSpec(toks);
    assert multiset(Normalized(symsIn, limit)) == multiset(lim);
    forall t | t in Normalized(symsIn, limit) ensures t in toks && Admissible(t) {
      assert t in multiset(lim);
      assert t in lim;
    }
  }

  /** Output shape: strictly sorted, hence duplicate-free, and every token is a
      non-empty run of `[A-Z0-9.^-]` read from the upper-cased input, never the
      pseudo-symbol; with a positive limit there are at most `limit` tokens. */
  lemma NormalizedShape(symsIn: string, limit: int)
    ensures StrictlySorted(Normalized(symsIn, limit))
    ensures forall k :: 0 <= k < |Normalized(symsIn, limit)| ==>
      var t := Normalized(symsIn, limit)[k];
      Admissible(t) && (forall i :: 0 <= i < |t| ==> InClass(t[i], SymbolClass)) && IsSubstring(t, ToUpperCase(symsIn))
    ensures limit > 0 ==> |Normalized(symsIn, limit)| <= limit
  {
    var toks := Matches(symsIn);
    var lim := Limited(Admitted(toks), limit);
    var r := Normalized(symsIn, limit);
    NormalizedTokens(symsIn, limit);
    FindAllSubstrings(ToUpperCase(symsIn), SymbolClass);
    FindAllRuns(ToUpperCase(symsIn), SymbolClass);
    StrLeTotalPreorder();
    StableSort.SortSorted(lim, StrLe);
    DistinctPermutation(lim, r);
    SortedDistinctStrict(r);
    forall k | 0 <= k < |r|
      ensures Admissible(r[k]) && (forall i :: 0 <= i < |r[k]| ==> InClass(r[k][i], SymbolClass)) && IsSubstring(r[k], ToUpperCase(symsIn))
    {
      assert r[k] in r;
      var m :| 0 <= m < |toks| && toks[m] == r[k];
    }
  }

  /** The limit: with `limit` positive the result holds exactly the first
      `min(limit, n)` admissible distinct matches in order of appearance; with
      `limit` zero or negative it holds every admissible match. */
  lemma NormalizedLimit(symsIn: string, limit: int)
    ensures var adm := Admitted(Matches(symsIn));
      var n := if limit > 0 && |adm| > limit then limit else |adm|;
      |Normalized(symsIn, limit)| == n &&
      forall t :: t in Normalized(symsIn, limit) <==> t in adm[..n]
    ensures limit <= 0 ==>
      forall t :: t in Normalized(symsIn, limit) <==> t in Matches(symsIn) && Admissible(t)
  {
    var adm := Admitted(Matches(symsIn));
    var lim := Limited(adm, limit);
    var r := Normalized(symsIn, limit);
    AdmittedSpec(Matches(symsIn));
    assert multiset(r) == multiset(lim);
    forall t ensures t in r <==> t in lim {
      assert t in r <==> t in multiset(r);
      assert t in lim <==> t in multiset(lim);
    }
    if !(limit > 0 && |adm| > limit) {
      assert adm[..|adm|] == adm;
    }
  }

  lemma {:induction false} UpperCaseJoin(parts: seq<string>, delimiter: string)
    requires forall k, i :: 0 <= k < |parts| && 0 <= i < |parts[k]| ==> InClass(parts[k][i], SymbolClass)
    ensures ToUpperCase(Join(parts, delimiter)) == Join(parts, ToUpperCase(delimiter))
    decreases |parts|
  {
    forall k | 0 <= k < |parts| ensures ToUpperCase(parts[k]) == parts[k] {
    }
    if |parts| > 1 {
      UpperCaseJoin(parts[1..], delimiter);
      UpperCaseAppend(parts[0], delimiter);
      UpperCaseAppend(parts[0] + delimiter, Join(parts[1..], delimiter));
    }
  }

  /** A delimiter that this normaliser will never read as part of a symbol, such as "," or ", ". */
  predicate SeparatesSymbols(delimiter: string)
  {
    |delimiter| > 0 && forall i :: 0 <= i < |delimiter| ==> !InClass(UpperChar(delimiter[i]), SymbolClass)
  }

  /** Idempotence: normalising an already normalised list (joined with a separating
      delimiter) gives the same list, unlimited or with a limit no smaller. */
  lemma NormalizeIdempotent(symsIn: string, limit: int, delimiter: string, limit2: int)
    requires SeparatesSymbols(delimiter)
    requires limit2 <= 0 || (limit > 0 && limit2 >= limit)
    ensures Normalized(Join(Normalized(symsIn, limit), delimiter), limit2) == Normalized(symsIn, limit)
  {
    var r := Normalized(symsIn, limit);
    NormalizedShape(symsIn, limit);
    UpperCaseJoin(r, delimiter);
    var ud := ToUpperCase(delimiter);
    FindAllJoin(r, ud, SymbolClass);
    assert Matches(Join(r, delimiter)) == r;
    assert Distinct(r) by {
      forall i, j | 0 <= i < j < |r| ensures r[i] != r[j] {
        CompareToZero(r[i], r[j]);
      }
    }
    AdmittedOfAdmitted(r);
    assert Limited(r, limit2) == r;
    assert StableSort.Sorted(r, StrLe);
    StableSort.SortOfSorted(r, StrLe);
  }

  /** normalizeSymbols: scans the matches, keeps the admissible new ones, stops once
      `limit` are kept (when positive), then sorts and joins them. */
  method NormalizeSymbols(symsIn: string, delimiter: string, limit: int) returns (symsOut: string)
    ensures symsOut == Join(Normalized(symsIn, limit), delimiter)
    ensures symsOut == "" <==> Normalized(symsIn, limit) == []
  {
    symsOut := "";
    var toks := Matches(symsIn);
    var symArray: seq<string> := [];
    var i := 0;
    while i < |toks|
      invariant 0 <= i <= |toks|
      invariant symArray == Admitted(toks[..i])
      invariant limit > 0 ==> |symArray| < limit
    {
      var sym := toks[i];
      AdmittedStep(toks, i);
      i := i + 1;
      if |sym| < 1 || sym in symArray || sym == CUSTOM_INDEX {
        continue;
      }
      symArray := symArray + [sym];
      if limit > 0 && |symArray| >= limit {
        break;
      }
    }
    AdmittedPrefix(toks, i);
    if i == |toks| {
      assert toks[..i] == toks;
    }
    assert symArray == Limited(Admitted(toks), limit);
    NormalizedShape(symsIn, limit);
    if |symArray| > 0 {
      var sorted := StableSort.Sort(symArray, StrLe);
      symsOut := Join(sorted, delimiter);
    }
    JoinEmpty(Normalized(symsIn, limit), delimiter);
  }
}
