/**
 * The completion candidates offered while a key path is typed (the expression
 * inside provideCompletionItems, src/extension.ts): the typed text loses one
 * leading and one trailing quote; every cached key that starts with it
 * contributes the segment that follows the typed text's last `.`; duplicates
 * are dropped, first occurrence kept.
 */
module Completion {
  import opened Strings

  predicate IsQuote(c: char) {
    c == '\'' || c == '"'
  }

  /** `text.replace(/^['"]|['"]$/g, '')`. */
  function StripQuotes(s: string): string {
    var s1 := if s != [] && IsQuote(s[0]) then s[1..] else s;
    if s1 != [] && IsQuote(s1[|s1| - 1]) then s1[..|s1| - 1] else s1
  }

  /**
   * Stripping removes a leading quote when there is one and then a trailing
   * quote when one is left, and nothing else.
   */
  lemma StripQuotesSpec(s: string) returns (a: nat, b: nat)
    ensures a <= 1 && b <= 1 && a + b <= |s|
    ensures StripQuotes(s) == s[a..|s| - b]
    ensures a == 1 <==> s != [] && IsQuote(s[0])
    ensures b == 1 <==> |s| > a && IsQuote(s[|s| - 1])
  {
    a := if s != [] && IsQuote(s[0]) then 1 else 0;
    var s1 := s[a..];
    b := if s1 != [] && IsQuote(s1[|s1| - 1]) then 1 else 0;
  }

  /** The candidate a matching key contributes: the text after the typed text's last `.`, cut at the next `.`. */
  function Candidate(key: string, typed: string): string {
    var str := Slice(key, LastIndexOfChar(typed, '.') + 1, |key|);
    var dot := IndexOfChar(str, '.');
    if dot == -1 then str else Slice(str, 0, dot)
  }

  /** The candidates in cache order, duplicates included. */
  function RawCandidates(keyCache: seq<string>, typed: string): seq<string>
    decreases |keyCache|
  {
    if keyCache == [] then []
    else
      var rest := RawCandidates(keyCache[..|keyCache| - 1], typed);
      var key := keyCache[|keyCache| - 1];
      if StartsWith(key, typed) then rest + [Candidate(key, typed)] else rest
  }

  /** `Array.from(new Set(xs))`: the first occurrence of each element, in order. */
  function Dedup(xs: seq<string>): seq<string>
    decreases |xs|
  {
    if xs == [] then []
    else
      var d := Dedup(xs[..|xs| - 1]);
      if xs[|xs| - 1] in d then d else d + [xs[|xs| - 1]]
  }

  /** The completion labels offered for the text typed so far. */
  function CompletionCandidates(keyCache: seq<string>, typedText: string): seq<string> {
    Dedup(RawCandidates(keyCache, StripQuotes(typedText)))
  }

  /** Deduplication keeps exactly the elements given, each once. */
  lemma {:induction false} DedupSpec(xs: seq<string>)
    ensures forall x :: x in Dedup(xs) <==> x in xs
    ensures forall i, j | 0 <= i < j < |Dedup(xs)| :: Dedup(xs)[i] != Dedup(xs)[j]
    decreases |xs|
  {
    if xs != [] {
      DedupSpec(xs[..|xs| - 1]);
      assert xs == xs[..|xs| - 1] + [xs[|xs| - 1]];
    }
  }

  /** The raw candidates are exactly the candidates of the cached keys that start with the typed text. */
  lemma {:induction false} RawCandidatesSpec(keyCache: seq<string>, typed: string)
    ensures forall c :: c in RawCandidates(keyCache, typed) <==>
      exists i | 0 <= i < |keyCache| :: StartsWith(keyCache[i], typed) && c == Candidate(keyCache[i], typed)
    decreases |keyCache|
  {
    if keyCache != [] {
      var init := keyCache[..|keyCache| - 1];
      RawCandidatesSpec(init, typed);
      forall c | c in RawCandidates(keyCache, typed)
        ensures exists i | 0 <= i < |keyCache| :: StartsWith(keyCache[i], typed) && c == Candidate(keyCache[i], typed)
      {
        if c in RawCandidates(init, typed) {
          var i :| 0 <= i < |init| && StartsWith(init[i], typed) && c == Candidate(init[i], typed);
          assert keyCache[i] == init[i];
        }
      }
      forall c | exists i | 0 <= i < |keyCache| :: StartsWith(keyCache[i], typed) && c == Candidate(keyCache[i], typed)
        ensures c in RawCandidates(keyCache, typed)
      {
        var i :| 0 <= i < |keyCache| && StartsWith(keyCache[i], typed) && c == Candidate(keyCache[i], typed);
        if i < |init| {
          assert init[i] == keyCache[i];
        }
      }
    }
  }

  /** No candidate contains `.`. */
  lemma CandidateHasNoDot(key: string, typed: string)
    ensures '.' !in Candidate(key, typed)
  {
    var str := Slice(key, LastIndexOfChar(typed, '.') + 1, |key|);
    IndexOfCharSpec(str, '.');
  }

  /**
   * The offered candidates: no duplicates, none containing `.`, and each is the
   * candidate of a cached key that starts with the typed text (quotes
   * stripped), every such key contributing one.
   */
  lemma CompletionCandidatesSpec(keyCache: seq<string>, typedText: string)
    ensures var cs := CompletionCandidates(keyCache, typedText);
      var typed := StripQuotes(typedText);
      && (forall i, j | 0 <= i < j < |cs| :: cs[i] != cs[j])
      && (forall c | c in cs :: '.' !in c)
      && (forall c :: c in cs <==>
            exists i | 0 <= i < |keyCache| :: StartsWith(keyCache[i], typed) && c == Candidate(keyCache[i], typed))
  {
    var typed := StripQuotes(typedText);
    DedupSpec(RawCandidates(keyCache, typed));
    RawCandidatesSpec(keyCache, typed);
    forall c | c in CompletionCandidates(keyCache, typedText)
      ensures '.' !in c
    {
      var i :| 0 <= i < |keyCache| && StartsWith(keyCache[i], typed) && c == Candidate(keyCache[i], typed);
      CandidateHasNoDot(keyCache[i], typed);
    }
  }

  /** When the typed text has no `.`, a key's candidate is its first segment. */
  lemma CandidateIsFirstSegment(key: string, typed: string)
    requires '.' !in typed
    ensures Candidate(key, typed) == Split(key, '.')[0]
  {
    IndexOfCharSpec(typed, '.');
    LastIndexOfCharLast(typed, '.');
    assert LastIndexOfChar(typed, '.') == -1;
    assert Slice(key, 0, |key|) == key;
    IndexOfCharSpec(key, '.');
  }

  /**
   * When the typed text (quotes stripped) has no `.`, the candidates are the
   * first segments of the cached keys that start with it.
   */
  lemma TopLevelCandidates(keyCache: seq<string>, typedText: string)
    requires '.' !in StripQuotes(typedText)
    ensures var typed := StripQuotes(typedText);
      forall c :: c in CompletionCandidates(keyCache, typedText) <==>
        exists i | 0 <= i < |keyCache| :: StartsWith(keyCache[i], typed) && c == Split(keyCache[i], '.')[0]
  {
    var typed := StripQuotes(typedText);
    CompletionCandidatesSpec(keyCache, typedText);
    forall i | 0 <= i < |keyCache|
      ensures Candidate(keyCache[i], typed) == Split(keyCache[i], '.')[0]
    {
      CandidateIsFirstSegment(keyCache[i], typed);
    }
  }
}
