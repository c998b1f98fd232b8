/** The regular expressions of the extension. Each one matches runs of a single
    character class: `[A-Z0-9.^-]+` finds symbols, and `[^A-Za-z0-9.^_-]+`
    separates the fields of a feed line. */
module Patterns {
  import opened JavaLang

  datatype CharClass =
    | SymbolClass     // [A-Z0-9.^-]
    | FieldClass      // [A-Za-z0-9.^_-]
    | SeparatorClass  // [^A-Za-z0-9.^_-]

  predicate IsFieldChar(c: char)
  {
    'A' <= c <= 'Z' || 'a' <= c <= 'z' || '0' <= c <= '9' || c == '.' || c == '^' || c == '_' || c == '-'
  }

  predicate InClass(c: char, cls: CharClass)
  {
    match cls
    case SymbolClass => 'A' <= c <= 'Z' || '0' <= c <= '9' || c == '.' || c == '^' || c == '-'
    case FieldClass => IsFieldChar(c)
    case SeparatorClass => !IsFieldChar(c)
  }

  /** Length of the longest prefix of `s` inside the class. */
  function Span(s: string, cls: CharClass): (n: nat)
    ensures n <= |s|
    ensures forall i :: 0 <= i < n ==> InClass(s[i], cls)
    ensures n < |s| ==> !InClass(s[n], cls)
  {
    if s == [] || !InClass(s[0], cls) then 0 else 1 + Span(s[1..], cls)
  }

  /** The successive matches of `[class]+` that Matcher.find() reports. */
  function FindAll(s: string, cls: CharClass): seq<string>
    decreases |s|
  {
    if s == [] then []
    else if !InClass(s[0], cls) then FindAll(s[1..], cls)
    else
      var n := Span(s, cls);
      [s[..n]] + FindAll(s[n..], cls)
  }

  /** Every match is a non-empty run of class characters. */
  lemma {:induction false} FindAllRuns(s: string, cls: CharClass)
    ensures forall k :: 0 <= k < |FindAll(s, cls)| ==> |FindAll(s, cls)[k]| > 0
    ensures forall k, i :: 0 <= k < |FindAll(s, cls)| && 0 <= i < |FindAll(s, cls)[k]| ==> InClass(FindAll(s, cls)[k][i], cls)
    decreases |s|
  {
    if s == [] {
    } else if !InClass(s[0], cls) {
      FindAllRuns(s[1..], cls);
    } else {
      var n := Span(s, cls);
      FindAllRuns(s[n..], cls);
    }
  }

  predicate OccursAt(t: string, s: string, i: int)
  {
    0 <= i && i + |t| <= |s| && s[i..i + |t|] == t
  }

  ghost predicate IsSubstring(t: string, s: string)
  {
    exists i :: OccursAt(t, s, i)
  }

  /** Every match is a run of characters taken, in place, from the input. */
  lemma {:induction false} FindAllSubstrings(s: string, cls: CharClass)
    ensures forall k :: 0 <= k < |FindAll(s, cls)| ==> IsSubstring(FindAll(s, cls)[k], s)
    decreases |s|
  {
    if s == [] {
    } else if !InClass(s[0], cls) {
      FindAllSubstrings(s[1..], cls);
      SubstringsAfter(s, 1, cls);
    } else {
      var n := Span(s, cls);
      FindAllSubstrings(s[n..], cls);
      SubstringsAfter(s, n, cls);
      forall k | 0 <= k < |FindAll(s, cls)| ensures IsSubstring(FindAll(s, cls)[k], s) {
        if k == 0 {
          assert OccursAt(FindAll(s, cls)[0], s, 0);
        } else {
          assert FindAll(s, cls)[k] == FindAll(s[n..], cls)[k - 1];
        }
      }
    }
  }

  /** What occurs in a suffix occurs in the whole. */
  lemma SubstringsAfter(s: string, n: nat, cls: CharClass)
    requires n <= |s|
    requires forall k :: 0 <= k < |FindAll(s[n..], cls)| ==> IsSubstring(FindAll(s[n..], cls)[k], s[n..])
    ensures forall k :: 0 <= k < |FindAll(s[n..], cls)| ==> IsSubstring(FindAll(s[n..], cls)[k], s)
  {
    forall k | 0 <= k < |FindAll(s[n..], cls)| ensures IsSubstring(FindAll(s[n..], cls)[k], s) {
      var t := FindAll(s[n..], cls)[k];
      assert IsSubstring(t, s[n..]);
      var i :| OccursAt(t, s[n..], i);
      assert s[n..][i..i + |t|] == s[i + n..i + n + |t|];
      assert OccursAt(t, s, i + n);
    }
  }

  lemma {:induction false} SpanRun(t: string, rest: string, cls: CharClass)
    requires forall i :: 0 <= i < |t| ==> InClass(t[i], cls)
    requires rest == [] || !InClass(rest[0], cls)
    ensures Span(t + rest, cls) == |t|
    decreases |t|
  {
    if t != [] {
      assert (t + rest)[0] == t[0];
      assert (t + rest)[1..] == t[1..] + rest;
      SpanRun(t[1..], rest, cls);
    } else {
      assert t + rest == rest;
    }
  }

  /** A run of class characters followed by a non-class character (or the end) is one match. */
  lemma FindAllRun(t: string, rest: string, cls: CharClass)
    requires |t| > 0 && forall i :: 0 <= i < |t| ==> InClass(t[i], cls)
    requires rest == [] || !InClass(rest[0], cls)
    ensures FindAll(t + rest, cls) == [t] + FindAll(rest, cls)
  {
    var s := t + rest;
    SpanRun(t, rest, cls);
    assert s[0] == t[0];
    assert s[..|t|] == t && s[|t|..] == rest;
  }

  /** Characters outside the class are skipped. */
  lemma {:induction false} FindAllSkip(d: string, rest: string, cls: CharClass)
    requires forall i :: 0 <= i < |d| ==> !InClass(d[i], cls)
    ensures FindAll(d + rest, cls) == FindAll(rest, cls)
    decreases |d|
  {
    if d != [] {
      assert (d + rest)[0] == d[0];
      assert (d + rest)[1..] == d[1..] + rest;
      FindAllSkip(d[1..], rest, cls);
    } else {
      assert d + rest == rest;
    }
  }

  /** Joining class runs with a non-empty delimiter that lies outside the class is undone by FindAll. */
  lemma {:induction false} FindAllJoin(parts: seq<string>, delimiter: string, cls: CharClass)
    requires forall k :: 0 <= k < |parts| ==> |parts[k]| > 0
    requires forall k, i :: 0 <= k < |parts| && 0 <= i < |parts[k]| ==> InClass(parts[k][i], cls)
    requires |delimiter| > 0 && forall i :: 0 <= i < |delimiter| ==> !InClass(delimiter[i], cls)
    ensures FindAll(Join(parts, delimiter), cls) == parts
    decreases |parts|
  {
    if |parts| == 0 {
    } else if |parts| == 1 {
      FindAllRun(parts[0], "", cls);
      assert parts[0] + "" == parts[0];
    } else {
      var tail := Join(parts[1..], delimiter);
      assert Join(parts, delimiter) == parts[0] + (delimiter + tail);
      FindAllRun(parts[0], delimiter + tail, cls);
      FindAllSkip(delimiter, tail, cls);
      FindAllJoin(parts[1..], delimiter, cls);
      assert [parts[0]] + parts[1..] == parts;
    }
  }
}
