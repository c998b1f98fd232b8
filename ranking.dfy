/** The order of the body line: an alphabetical sort first, then a stable sort by
    the configured criterion, then an optional reversal. */
module Ranking {
  import opened JavaLang
  import opened Quotes
  import StableSort

  /** The values the order preference can take; anything else sorts alphabetically. */
  datatype Criterion = Alphabetical | PercentDown | PercentUp | PriceDown | PriceUp

  function CriterionOf(symOrder: Option<string>): (c: Criterion)
    ensures c == PercentDown <==> symOrder == Some("percent")
    ensures c == PercentUp <==> symOrder == Some("percent_reverse")
    ensures c == PriceDown <==> symOrder == Some("price")
    ensures c == PriceUp <==> symOrder == Some("price_reverse")
  {
    if IsNullOrEmpty(symOrder) then Alphabetical
    else if symOrder.value == "percent" then PercentDown
    else if symOrder.value == "percent_reverse" then PercentUp
    else if symOrder.value == "price" then PriceDown
    else if symOrder.value == "price_reverse" then PriceUp
    else Alphabetical
  }

  /** SymbolInfoComparator.compare. The doubles times 100 are the hundredths held
      here, and the `(int)` cast of their difference saturates. */
  function Compare(c: Criterion, s1: SymbolInfo, s2: SymbolInfo): (r: int)
    ensures c == PercentDown ==> (r <= 0 <==> s1.percent >= s2.percent) && (r == 0 <==> s1.percent == s2.percent)
    ensures c == PercentUp ==> (r <= 0 <==> s1.percent <= s2.percent) && (r == 0 <==> s1.percent == s2.percent)
    ensures c == PriceDown ==> (r <= 0 <==> s1.change >= s2.change) && (r == 0 <==> s1.change == s2.change)
    ensures c == PriceUp ==> (r <= 0 <==> s1.change <= s2.change) && (r == 0 <==> s1.change == s2.change)
    ensures c == Alphabetical ==> (r <= 0 <==> StrLe(s1.symbol, s2.symbol)) && (r == 0 <==> s1.symbol == s2.symbol)
  {
    match c
    case PercentDown => IntCast(s2.percent - s1.percent)
    case PercentUp => IntCast(s1.percent - s2.percent)
    case PriceDown => IntCast(s2.change - s1.change)
    case PriceUp => IntCast(s1.change - s2.change)
    case Alphabetical => CompareToZero(s1.symbol, s2.symbol); CompareTo(s1.symbol, s2.symbol)
  }

  /** "May stay in front of": how Collections.sort reads a comparator. */
  function Precedes(c: Criterion): (SymbolInfo, SymbolInfo) -> bool
  {
    (s1: SymbolInfo, s2: SymbolInfo) => Compare(c, s1, s2) <= 0
  }

  /** Every criterion orders the records totally, so sorting by it is well defined. */
  lemma PrecedesTotalPreorder(c: Criterion)
    ensures StableSort.TotalPreorder(Precedes(c))
  {
    var le := Precedes(c);
    forall a, b ensures le(a, b) || le(b, a) {
      if c == Alphabetical {
        CompareToAntisymmetric(a.symbol, b.symbol);
      }
    }
    forall a, b, d | le(a, b) && le(b, d) ensures le(a, d) {
      if c == Alphabetical {
        CompareToTransitive(a.symbol, b.symbol, d.symbol);
      }
    }
  }

  function Reverse<T>(s: seq<T>): (r: seq<T>)
    ensures |r| == |s| && forall i :: 0 <= i < |s| ==> r[i] == s[|s| - 1 - i]
    ensures multiset(r) == multiset(s)
  {
    if s == [] then []
    else
      assert s == [s[0]] + s[1..];
      Reverse(s[1..]) + [s[0]]
  }

  /** The list before any reversal. */
  function Ordered(list: seq<SymbolInfo>, symOrder: Option<string>): seq<SymbolInfo>
  {
    var alpha := StableSort.Sort(list, Precedes(Alphabetical));
    if !IsNullOrEmpty(symOrder) then StableSort.Sort(alpha, Precedes(CriterionOf(symOrder))) else alpha
  }

  /** The body line's order: a reordering of the list, shown back to front in
      reverse mode. */
  function Rank(list: seq<SymbolInfo>, symOrder: Option<string>, reverseMode: bool): (r: seq<SymbolInfo>)
    ensures multiset(r) == multiset(list)
    ensures |r| == |Ordered(list, symOrder)|
    ensures forall i :: 0 <= i < |r| ==>
      r[i] == Ordered(list, symOrder)[if reverseMode then |r| - 1 - i else i]
  {
    var ordered := Ordered(list, symOrder);
    if reverseMode then Reverse(ordered) else ordered
  }

  /** The forward order: sorted by the criterion, and records the criterion
      cannot tell apart appear alphabetically by symbol. */
  lemma RankOrdered(list: seq<SymbolInfo>, symOrder: Option<string>)
    ensures var r := Rank(list, symOrder, false);
      var c := CriterionOf(symOrder);
      forall i, j :: 0 <= i < j < |r| ==>
        Compare(c, r[i], r[j]) <= 0 &&
        (Compare(c, r[i], r[j]) == 0 ==> StrLe(r[i].symbol, r[j].symbol))
  {
    var c := CriterionOf(symOrder);
    var alpha := StableSort.Sort(list, Precedes(Alphabetical));
    PrecedesTotalPreorder(Alphabetical);
    PrecedesTotalPreorder(c);
    StableSort.SortSorted(list, Precedes(Alphabetical));
    var r := Rank(list, symOrder, false);
    if !IsNullOrEmpty(symOrder) {
      StableSort.SortSorted(alpha, Precedes(c));
      StableSort.SortStable(alpha, Precedes(c), Precedes(Alphabetical));
      forall i, j | 0 <= i < j < |r| && Compare(c, r[i], r[j]) == 0
        ensures StrLe(r[i].symbol, r[j].symbol)
      {
        assert Precedes(c)(r[j], r[i]);
        assert Precedes(Alphabetical)(r[i], r[j]);
      }
    } else {
      assert r == alpha;
      forall i, j | 0 <= i < j < |r| ensures StrLe(r[i].symbol, r[j].symbol) {
        assert Precedes(Alphabetical)(r[i], r[j]);
      }
    }
  }

  /** Sorting by percent, largest first, with ties in alphabetical order. */
  lemma RankByPercent(list: seq<SymbolInfo>)
    ensures var r := Rank(list, Some("percent"), false);
      forall i, j :: 0 <= i < j < |r| ==>
        r[i].percent >= r[j].percent &&
        (r[i].percent == r[j].percent ==> StrLe(r[i].symbol, r[j].symbol))
  {
    RankOrdered(list, Some("percent"));
  }

  /** An absent, empty or unrecognised order preference gives the plain alphabetical order. */
  lemma RankUnknownCriterion(list: seq<SymbolInfo>, symOrder: Option<string>)
    requires CriterionOf(symOrder) == Alphabetical
    ensures Rank(list, symOrder, false) == StableSort.Sort(list, Precedes(Alphabetical))
  {
    var alpha := StableSort.Sort(list, Precedes(Alphabetical));
    PrecedesTotalPreorder(Alphabetical);
    StableSort.SortSorted(list, Precedes(Alphabetical));
    StableSort.SortOfSorted(alpha, Precedes(Alphabetical));
  }
}
