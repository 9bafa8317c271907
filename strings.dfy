/**
 * The JavaScript string primitives the extension relies on (`trim`, `slice`,
 * `indexOf`, `replace`, `split`, `join`, case mapping), over `seq<char>`.
 * `Slice` keeps JavaScript's treatment of negative and out-of-range indices,
 * because several call sites in the source pass such indices.
 */
module Strings {

  /** The characters that JavaScript's `trim` and the regular-expression class `\s` treat as white space. */
  predicate IsSpace(c: char) {
    || c == ' ' || c == '\t' || c == '\n' || c == '\r' || c == '\U{B}' || c == '\U{C}'
    || c == '\U{A0}' || c == '\U{1680}' || ('\U{2000}' <= c <= '\U{200A}')
    || c == '\U{2028}' || c == '\U{2029}' || c == '\U{202F}' || c == '\U{205F}'
    || c == '\U{3000}' || c == '\U{FEFF}'
  }

  predicate AllSpace(s: string) {
    forall i | 0 <= i < |s| :: IsSpace(s[i])
  }

  predicate NoSpace(s: string) {
    forall i | 0 <= i < |s| :: !IsSpace(s[i])
  }

  /** `s.trimStart()`: the suffix of `s` left after dropping leading white space. */
  function TrimStart(s: string): (r: string)
    ensures |r| <= |s|
  {
    if s != [] && IsSpace(s[0]) then TrimStart(s[1..]) else s
  }

  /** What `trimStart` keeps and drops: a suffix, starting visibly, after white space only. */
  lemma {:induction false} TrimStartSpec(s: string)
    ensures var r := TrimStart(s);
      && r == s[|s| - |r|..]
      && (r == [] || !IsSpace(r[0]))
      && AllSpace(s[..|s| - |r|])
  {
    if s != [] && IsSpace(s[0]) {
      TrimStartSpec(s[1..]);
      var r := TrimStart(s[1..]);
      assert s[..|s| - |r|] == [s[0]] + s[1..][..|s| - 1 - |r|];
    }
  }

  /** `s.trimEnd()`: the prefix of `s` left after dropping trailing white space. */
  function TrimEnd(s: string): (r: string)
    ensures |r| <= |s|
  {
    if s != [] && IsSpace(s[|s| - 1]) then TrimEnd(s[..|s| - 1]) else s
  }

  /** What `trimEnd` keeps and drops: a prefix, ending visibly, before white space only. */
  lemma {:induction false} TrimEndSpec(s: string)
    ensures var r := TrimEnd(s);
      && r == s[..|r|]
      && (r == [] || !IsSpace(r[|r| - 1]))
      && AllSpace(s[|r|..])
  {
    if s != [] && IsSpace(s[|s| - 1]) {
      TrimEndSpec(s[..|s| - 1]);
      var r := TrimEnd(s[..|s| - 1]);
      assert s[|r|..] == s[..|s| - 1][|r|..] + [s[|s| - 1]];
    }
  }

  /** `s.trim()`. */
  function Trim(s: string): string {
    TrimEnd(TrimStart(s))
  }

  /** Trimming the end of `a + b` keeps all of `a` when `a` ends in a visible character. */
  lemma {:induction false} TrimEndAppend(a: string, b: string)
    requires a != [] && !IsSpace(a[|a| - 1])
    ensures TrimEnd(a + b) == a + TrimEnd(b)
    decreases |b|
  {
    if b != [] && IsSpace(b[|b| - 1]) {
      assert (a + b)[..|a + b| - 1] == a + b[..|b| - 1];
      TrimEndAppend(a, b[..|b| - 1]);
    } else if b == [] {
      assert a + b == a;
    }
  }

  /** Trimming the end of a text made only of visible characters changes nothing. */
  lemma TrimEndNoSpace(s: string)
    requires NoSpace(s)
    ensures TrimEnd(s) == s
  {
    TrimEndSpec(s);
  }

  /** Trimming the start of a text made only of visible characters changes nothing. */
  lemma TrimStartNoSpace(s: string)
    requires NoSpace(s)
    ensures TrimStart(s) == s
  {
    TrimStartSpec(s);
  }

  /** A text made of a prefix ending visibly (or empty) and white space trims at the end to that prefix. */
  lemma {:induction false} TrimEndUnique(a: string, b: string)
    requires a == [] || !IsSpace(a[|a| - 1])
    requires AllSpace(b)
    ensures TrimEnd(a + b) == a
    decreases |b|
  {
    if b != [] {
      assert (a + b)[..|a + b| - 1] == a + b[..|b| - 1];
      TrimEndUnique(a, b[..|b| - 1]);
    } else {
      assert a + b == a;
      if a != [] {
        assert TrimEnd(a) == a;
      }
    }
  }

  /** Leading white space survives `trimEnd` exactly when something visible follows it. */
  lemma TrimEndAfterSpace(p: string, t: string)
    requires AllSpace(p)
    ensures TrimEnd(p + t) == if TrimEnd(t) == [] then [] else p + TrimEnd(t)
  {
    var u := TrimEnd(t);
    TrimEndSpec(t);
    var rest := t[|u|..];
    assert t == u + rest;
    if u != [] {
      assert p + t == (p + u) + rest;
      assert (p + u)[|p + u| - 1] == u[|u| - 1];
      TrimEndUnique(p + u, rest);
    } else {
      assert rest == t;
      assert AllSpace(p + t) by {
        forall i | 0 <= i < |p + t|
          ensures IsSpace((p + t)[i])
        {
          if i >= |p| {
            assert (p + t)[i] == t[i - |p|];
          }
        }
      }
      assert [] + (p + t) == p + t;
      TrimEndUnique([], p + t);
    }
  }

  /** `trim` and `trimEnd` leave the same last character, and are empty together. */
  lemma TrimLast(s: string)
    ensures Trim(s) == [] <==> TrimEnd(s) == []
    ensures Trim(s) != [] ==> Trim(s)[|Trim(s)| - 1] == TrimEnd(s)[|TrimEnd(s)| - 1]
  {
    var t := TrimStart(s);
    TrimStartSpec(s);
    var k := |s| - |t|;
    assert s == s[..k] + t;
    TrimEndAfterSpace(s[..k], t);
  }

  /** `s.endsWith(p)`. */
  predicate EndsWith(s: string, p: string) {
    |p| <= |s| && s[|s| - |p|..] == p
  }

  /** `s.startsWith(p)`. */
  predicate StartsWith(s: string, p: string) {
    |p| <= |s| && s[..|p|] == p
  }

  /** The last position before `k` where `pat` occurs in `s`, or -1. */
  function LastIndexOfBelow(s: string, pat: string, k: nat): (r: int)
    ensures r == -1 || (r < k && OccursAt(s, pat, r))
    decreases k
  {
    if k == 0 then -1
    else if OccursAt(s, pat, k - 1) then k - 1
    else LastIndexOfBelow(s, pat, k - 1)
  }

  /** `s.lastIndexOf(pat)`: the last position where `pat` occurs, or -1. */
  function LastIndexOf(s: string, pat: string): (r: int)
    ensures r == -1 || OccursAt(s, pat, r)
  {
    LastIndexOfBelow(s, pat, |s| + 1)
  }

  /** The search below `k` finds `p` when `pat` occurs at `p` and at no later position below `k`. */
  lemma {:induction false} LastIndexOfBelowIs(s: string, pat: string, k: nat, p: nat)
    requires p < k && OccursAt(s, pat, p)
    requires forall q | p < q < k :: !OccursAt(s, pat, q)
    ensures LastIndexOfBelow(s, pat, k) == p
    decreases k
  {
    if k - 1 != p {
      LastIndexOfBelowIs(s, pat, k - 1, p);
    }
  }

  /** The search below `k` fails when `pat` occurs at no position below `k`. */
  lemma {:induction false} LastIndexOfBelowNone(s: string, pat: string, k: nat)
    requires forall q | 0 <= q < k :: !OccursAt(s, pat, q)
    ensures LastIndexOfBelow(s, pat, k) == -1
    decreases k
  {
    if k > 0 {
      LastIndexOfBelowNone(s, pat, k - 1);
    }
  }

  /** JavaScript's normalisation of a `slice` index: negative counts from the end, then clamped to `[0, n]`. */
  function Clamp(k: int, n: nat): (r: nat)
    ensures r <= n
    ensures 0 <= k <= n ==> r == k
  {
    if k < 0 then (if n + k < 0 then 0 else n + k) else if k > n then n else k
  }

  /** `s.slice(start, end)`. */
  function Slice(s: string, start: int, end: int): (r: string)
    ensures 0 <= start <= end <= |s| ==> r == s[start..end]
  {
    var a := Clamp(start, |s|);
    var b := Clamp(end, |s|);
    if a < b then s[a..b] else []
  }

  /** `s.slice(start)`. */
  function SliceFrom(s: string, start: int): (r: string)
    ensures 0 <= start <= |s| ==> r == s[start..]
  {
    Slice(s, start, |s|)
  }

  predicate OccursAt(s: string, pat: string, j: int) {
    0 <= j && j + |pat| <= |s| && s[j..j + |pat|] == pat
  }

  function IndexOfFrom(s: string, pat: string, from: nat): (r: int)
    ensures r == -1 || (from <= r && OccursAt(s, pat, r))
    decreases |s| - from
  {
    if from + |pat| > |s| then -1
    else if s[from..from + |pat|] == pat then from
    else IndexOfFrom(s, pat, from + 1)
  }

  /** Searching from `from` past non-occurrences finds the first occurrence at `p`. */
  lemma {:induction false} IndexOfFromIs(s: string, pat: string, from: nat, p: nat)
    requires from <= p && OccursAt(s, pat, p)
    requires forall j | from <= j < p :: !OccursAt(s, pat, j)
    ensures IndexOfFrom(s, pat, from) == p
    decreases p - from
  {
    if from < p {
      assert !OccursAt(s, pat, from);
      IndexOfFromIs(s, pat, from + 1, p);
    }
  }

  /** `s.indexOf(pat)`: the first occurrence of `pat`, or -1. */
  function IndexOf(s: string, pat: string): (r: int)
    ensures r == -1 || OccursAt(s, pat, r)
  {
    IndexOfFrom(s, pat, 0)
  }

  /** `s.indexOf(c)` for a single character: an index holding `c`, or -1 (IndexOfCharFirst: the first). */
  function IndexOfChar(s: string, c: char): (r: int)
    ensures -1 <= r < |s|
    ensures r != -1 ==> s[r] == c
  {
    if s == [] then -1
    else if s[0] == c then 0
    else
      var r := IndexOfChar(s[1..], c);
      if r == -1 then -1 else r + 1
  }

  /** No index before the one `indexOf` reports (or anywhere, when it reports -1) holds `c`. */
  lemma {:induction false} IndexOfCharFirst(s: string, c: char)
    ensures var r := IndexOfChar(s, c);
      forall k | 0 <= k < |s| && (r == -1 || k < r) :: s[k] != c
  {
    if s != [] && s[0] != c {
      IndexOfCharFirst(s[1..], c);
      var r := IndexOfChar(s[1..], c);
      forall k | 0 < k < |s| && (r == -1 || k < r + 1)
        ensures s[k] != c
      {
        assert s[k] == s[1..][k - 1];
      }
    }
  }

  /** `indexOf` reports -1 exactly when `c` does not occur, and nothing before its answer is `c`. */
  lemma IndexOfCharSpec(s: string, c: char)
    ensures var r := IndexOfChar(s, c);
      && (r == -1 <==> c !in s)
      && (r != -1 ==> c !in s[..r])
  {
    IndexOfCharFirst(s, c);
    var r := IndexOfChar(s, c);
    if r != -1 {
      assert forall k | 0 <= k < r :: s[..r][k] == s[k];
    }
  }

  /** `s.lastIndexOf(c)` for a single character: an index holding `c`, or -1 (LastIndexOfCharLast: the last). */
  function LastIndexOfChar(s: string, c: char): (r: int)
    ensures -1 <= r < |s|
    ensures r != -1 ==> s[r] == c
  {
    if s == [] then -1
    else if s[|s| - 1] == c then |s| - 1
    else LastIndexOfChar(s[..|s| - 1], c)
  }

  /** No index after the one `lastIndexOf` reports (or anywhere, when it reports -1) holds `c`. */
  lemma {:induction false} LastIndexOfCharLast(s: string, c: char)
    ensures var r := LastIndexOfChar(s, c);
      forall k | r < k < |s| :: s[k] != c
  {
    if s != [] && s[|s| - 1] != c {
      LastIndexOfCharLast(s[..|s| - 1], c);
      var r := LastIndexOfChar(s[..|s| - 1], c);
      forall k | r < k < |s| - 1
        ensures s[k] != c
      {
        assert s[k] == s[..|s| - 1][k];
      }
    }
  }

  /** Text without `c` appended after the last `c` leaves `lastIndexOf` where it was. */
  lemma {:induction false} LastIndexOfCharSkip(a: string, b: string, c: char)
    requires c !in b
    ensures LastIndexOfChar(a + b, c) == LastIndexOfChar(a, c)
    decreases |b|
  {
    if b != [] {
      assert (a + b)[|a + b| - 1] == b[|b| - 1];
      assert (a + b)[..|a + b| - 1] == a + b[..|b| - 1];
      LastIndexOfCharSkip(a, b[..|b| - 1], c);
    } else {
      assert a + b == a;
    }
  }

  /**
   * `s.replace(pat, rep)` with a string pattern: the first occurrence is replaced;
   * without an occurrence the text is returned unchanged.
   */
  function ReplaceFirst(s: string, pat: string, rep: string): (r: string)
  {
    var p := IndexOf(s, pat);
    if p < 0 then s else s[..p] + rep + s[p + |pat|..]
  }

  /** Replacing the first occurrence keeps everything before and after it byte for byte. */
  lemma ReplaceFirstSplice(s: string, pat: string, rep: string, p: nat)
    requires OccursAt(s, pat, p)
    requires forall j | 0 <= j < p :: !OccursAt(s, pat, j)
    ensures ReplaceFirst(s, pat, rep) == s[..p] + rep + s[p + |pat|..]
  {
    IndexOfFromIs(s, pat, 0, p);
  }

  /**
   * The text `s.replace(pat, rep)` inserts for a string pattern (the GetSubstitution
   * operation of ECMA-262 with no capture groups): `$$` stands for one `$`, `$&` for
   * the matched text, `` $` `` for the text before the match and `$'` for the text
   * after it; any other `$` is kept as it is. A replacement without `$` is inserted
   * unchanged.
   */
  function Substitution(s: string, position: nat, matched: string, rep: string): (r: string)
    requires position + |matched| <= |s|
    ensures '$' !in rep ==> r == rep
    decreases |rep|
  {
    if rep == [] then []
    else if rep[0] == '$' && |rep| >= 2 && rep[1] == '$' then
      "$" + Substitution(s, position, matched, rep[2..])
    else if rep[0] == '$' && |rep| >= 2 && rep[1] == '&' then
      matched + Substitution(s, position, matched, rep[2..])
    else if rep[0] == '$' && |rep| >= 2 && rep[1] == '`' then
      s[..position] + Substitution(s, position, matched, rep[2..])
    else if rep[0] == '$' && |rep| >= 2 && rep[1] == '\'' then
      s[position + |matched|..] + Substitution(s, position, matched, rep[2..])
    else
      assert '$' !in rep ==> rep[0] != '$' && '$' !in rep[1..];
      [rep[0]] + Substitution(s, position, matched, rep[1..])
  }

  /** Text without `$` at the front of the replacement is copied through. */
  lemma {:induction false} SubstitutionPlainPrefix(s: string, position: nat, matched: string, a: string, b: string)
    requires position + |matched| <= |s|
    requires '$' !in a
    ensures Substitution(s, position, matched, a + b) == a + Substitution(s, position, matched, b)
    decreases |a|
  {
    if a != [] {
      assert (a + b)[0] == a[0] && (a + b)[1..] == a[1..] + b;
      SubstitutionPlainPrefix(s, position, matched, a[1..], b);
    } else {
      assert a + b == b;
    }
  }

  /** `$$` at the front of the replacement becomes a single `$`. */
  lemma SubstitutionDollarDollar(s: string, position: nat, matched: string, b: string)
    requires position + |matched| <= |s|
    ensures Substitution(s, position, matched, "$$" + b) == "$" + Substitution(s, position, matched, b)
  {
    assert ("$$" + b)[2..] == b;
  }

  /** A `$` followed by a character that is not a pattern, or by nothing, is copied through. */
  lemma SubstitutionLoneDollar(s: string, position: nat, matched: string, b: string)
    requires position + |matched| <= |s|
    requires b == [] || b[0] !in {'$', '&', '`', '\''}
    ensures Substitution(s, position, matched, "$" + b) == "$" + Substitution(s, position, matched, b)
  {
    assert ("$" + b)[1..] == b;
  }

  /** `$$` collapses to one `$` and `$&` repeats the matched text. */
  lemma SubstitutionPatterns()
    ensures Substitution("US$", 0, "US", "$$$$") == "$$"
    ensures Substitution("ab", 0, "a", "[$&]") == "[a]"
    ensures Substitution("ab", 0, "a", "$`$'") == "b"
  {
    assert "$$$$"[2..] == "$$";
    assert "[$&]"[1..] == "$&]" && "$&]"[2..] == "]" && "]"[1..] == [];
    assert "$`$'"[2..] == "$'";
    assert "ab"[1..] == "b";
  }

  /**
   * `s.replace(pat, rep)` as JavaScript evaluates it: the first occurrence of `pat`
   * gives way to `rep` with its `$` patterns expanded. When `rep` holds no `$`
   * this is the literal replacement `ReplaceFirst`.
   */
  function JsReplaceFirst(s: string, pat: string, rep: string): (r: string)
    ensures '$' !in rep ==> r == ReplaceFirst(s, pat, rep)
  {
    var p := IndexOf(s, pat);
    if p < 0 then s else s[..p] + Substitution(s, p, pat, rep) + s[p + |pat|..]
  }

  /** Where the first occurrence is known, `JsReplaceFirst` splices the expanded text in there. */
  lemma JsReplaceFirstAt(s: string, pat: string, rep: string, p: nat)
    requires IndexOf(s, pat) == p
    ensures p + |pat| <= |s|
    ensures JsReplaceFirst(s, pat, rep) == s[..p] + Substitution(s, p, pat, rep) + s[p + |pat|..]
  {
  }

  /** Where the first occurrence is known, `ReplaceFirst` splices `rep` in there. */
  lemma ReplaceFirstAt(s: string, pat: string, rep: string, p: nat)
    requires IndexOf(s, pat) == p
    ensures p + |pat| <= |s|
    ensures ReplaceFirst(s, pat, rep) == s[..p] + rep + s[p + |pat|..]
  {
  }

  /** The literal replacement of text without `$` by text without `$` holds no `$`. */
  lemma ReplaceFirstNoDollar(s: string, pat: string, rep: string)
    requires '$' !in s && '$' !in rep
    ensures '$' !in ReplaceFirst(s, pat, rep)
  {
    var p := IndexOf(s, pat);
    if p >= 0 {
      assert '$' !in s[..p] && '$' !in s[p + |pat|..];
    }
  }

  /** `s.replace(/c/g, "")`: every occurrence of `c` removed. */
  function RemoveChar(s: string, c: char): (r: string)
    ensures c !in r
    ensures |r| <= |s|
  {
    if s == [] then []
    else (if s[0] == c then [] else [s[0]]) + RemoveChar(s[1..], c)
  }

  /** `s.split(sep)` for a one-character separator: always at least one part. */
  function Split(s: string, sep: char): (parts: seq<string>)
    ensures |parts| >= 1
    decreases |s|
  {
    var i := IndexOfChar(s, sep);
    if i == -1 then [s] else [s[..i]] + Split(s[i + 1..], sep)
  }

  /** No part of a split holds the separator. */
  lemma {:induction false} SplitSpec(s: string, sep: char)
    ensures forall k | 0 <= k < |Split(s, sep)| :: sep !in Split(s, sep)[k]
    decreases |s|
  {
    IndexOfCharSpec(s, sep);
    var i := IndexOfChar(s, sep);
    if i != -1 {
      SplitSpec(s[i + 1..], sep);
      var rest := Split(s[i + 1..], sep);
      assert Split(s, sep) == [s[..i]] + rest;
      forall k | 0 < k < |Split(s, sep)|
        ensures sep !in Split(s, sep)[k]
      {
        assert Split(s, sep)[k] == rest[k - 1];
      }
    }
  }

  /** A character absent from the text is absent from every part of its split. */
  lemma {:induction false} SplitKeepsAbsent(s: string, sep: char, c: char)
    requires c !in s
    ensures forall k | 0 <= k < |Split(s, sep)| :: c !in Split(s, sep)[k]
    decreases |s|
  {
    var i := IndexOfChar(s, sep);
    if i != -1 {
      assert c !in s[..i] && c !in s[i + 1..] by {
        assert s == s[..i] + [s[i]] + s[i + 1..];
      }
      SplitKeepsAbsent(s[i + 1..], sep, c);
      var rest := Split(s[i + 1..], sep);
      assert Split(s, sep) == [s[..i]] + rest;
      forall k | 0 < k < |Split(s, sep)|
        ensures c !in Split(s, sep)[k]
      {
        assert Split(s, sep)[k] == rest[k - 1];
      }
    }
  }

  /** A split has a single part exactly when the separator does not occur. */
  lemma SplitSingle(s: string, sep: char)
    ensures |Split(s, sep)| == 1 <==> sep !in s
  {
    IndexOfCharSpec(s, sep);
  }

  /** `parts.join(sep)`. */
  function Join(parts: seq<string>, sep: string): string {
    if parts == [] then []
    else if |parts| == 1 then parts[0]
    else parts[0] + sep + Join(parts[1..], sep)
  }

  /** Joining the parts of a split with the same separator gives the text back. */
  lemma {:induction false} JoinSplit(s: string, sep: char)
    ensures Join(Split(s, sep), [sep]) == s
    decreases |s|
  {
    var i := IndexOfChar(s, sep);
    if i != -1 {
      var rest := Split(s[i + 1..], sep);
      JoinSplit(s[i + 1..], sep);
      JoinCons(s[..i], rest, [sep]);
      assert s == s[..i] + [sep] + s[i + 1..];
    }
  }

  /** Joining a part in front of at least one other puts the separator between them. */
  lemma JoinCons(a: string, rest: seq<string>, sep: string)
    requires rest != []
    ensures Join([a] + rest, sep) == a + sep + Join(rest, sep)
  {
    assert ([a] + rest)[1..] == rest;
  }

  /** Dropping the one-character opening of a bracketed text leaves the inside and the closing. */
  lemma BracketedTail(open: string, inside: string, close: string)
    requires |open| == 1
    ensures (open + inside + close)[1..] == inside + close
  {
  }

  /** ASCII `toLowerCase` of one character. */
  function Lower(c: char): (r: char)
    ensures 'A' <= c <= 'Z' ==> 'a' <= r <= 'z'
    ensures !('A' <= c <= 'Z') ==> r == c
  {
    if 'A' <= c <= 'Z' then (c as int + 32) as char else c
  }

  /** ASCII `toUpperCase` of one character. */
  function Upper(c: char): (r: char)
    ensures 'a' <= c <= 'z' ==> 'A' <= r <= 'Z'
    ensures !('a' <= c <= 'z') ==> r == c
  {
    if 'a' <= c <= 'z' then (c as int - 32) as char else c
  }

  /** `s.toLowerCase()`, ASCII letters only. */
  function LowerStr(s: string): (r: string)
    ensures |r| == |s|
    ensures forall i | 0 <= i < |s| :: r[i] == Lower(s[i])
  {
    seq(|s|, i requires 0 <= i < |s| => Lower(s[i]))
  }

  /** `s.toUpperCase()`, ASCII letters only. */
  function UpperStr(s: string): (r: string)
    ensures |r| == |s|
    ensures forall i | 0 <= i < |s| :: r[i] == Upper(s[i])
  {
    seq(|s|, i requires 0 <= i < |s| => Upper(s[i]))
  }

  // The last non-empty match of the global regular expression \s* in `s`: its
  // last maximal run of white space, or "" when `s` has none.
  function LastSpaceRun(s: string): (r: string)
    ensures AllSpace(r)
  {
    if s == [] then []
    else if IsSpace(s[|s| - 1]) then TrimEndSpec(s); s[|TrimEnd(s)|..]
    else LastSpaceRun(s[..|s| - 1])
  }

  /** Text without white space has no white-space run. */
  lemma {:induction false} LastSpaceRunNone(s: string)
    requires NoSpace(s)
    ensures LastSpaceRun(s) == []
  {
    if s != [] {
      assert NoSpace(s[..|s| - 1]);
      LastSpaceRunNone(s[..|s| - 1]);
    }
  }
}
