/**
 * The state and the pure rules of the missing-translation diagnostics
 * (src/utils/diagnosticManager.ts): the manager keeps the set of known keys,
 * reports every quoted key path of a supported document that is not in that
 * set, and recovers the key from a diagnostic's message for its quick fix.
 */
module Diagnostics {
  import opened Wrappers
  import opened Strings

  /** The language identifiers diagnostics are computed for. */
  const SupportedLanguages: seq<string> := ["ts", "js", "html", "typescript", "javascript"]

  /** The message prefix of a missing-key diagnostic. */
  const MissingKeyMessage: string := "Missing translation key"

  const DiagnosticSource: string := "json-i18n-key"
  const MissingTranslationCode: string := "missing-translation"

  datatype Severity = Error | Warning | Information | Hint

  /** A diagnostic; its range is kept as document offsets. */
  datatype Diagnostic = Diagnostic(
    start: nat, end: nat, message: string, severity: Severity, source: string, code: string)

  /** One match of the key-path regex: its offset, the length of the whole match and its first group. */
  datatype KeyMatch = KeyMatch(index: nat, length: nat, key: string)

  /** The message of the diagnostic for a missing key. */
  function MessageFor(key: string): string {
    MissingKeyMessage + ": " + key
  }

  /** The characters `.` does not match in a JavaScript regex. */
  predicate IsLineTerminator(c: char) {
    c == '\n' || c == '\r' || c == '\U{2028}' || c == '\U{2029}'
  }

  predicate NoLineTerminator(s: string) {
    forall i | 0 <= i < |s| :: !IsLineTerminator(s[i])
  }

  /**
   * `/key: (.*?)$/` searched from offset `p`: the leftmost `key: ` such that
   * the rest of the message holds no line terminator (`$` without the `m`
   * flag is the end of the input).
   */
  function KeyCaptureFrom(msg: string, p: nat): (r: Option<string>)
    ensures r.Some? ==> exists q | p <= q && q + 5 <= |msg| ::
      OccursAt(msg, "key: ", q) && r.value == msg[q + 5..] && NoLineTerminator(msg[q + 5..])
    decreases |msg| - p
  {
    if p + 5 > |msg| then None
    else if OccursAt(msg, "key: ", p) && NoLineTerminator(msg[p + 5..]) then Some(msg[p + 5..])
    else KeyCaptureFrom(msg, p + 1)
  }

  /** The key a diagnostic's message names, or `""` when the regex does not match. */
  function KeyFromDiagnostic(message: string): string {
    match KeyCaptureFrom(message, 0)
    case Some(k) => k
    case None => ""
  }

  /** A search from `p` fails when `key: ` occurs nowhere at or after `p`. */
  lemma {:induction false} KeyCaptureNone(msg: string, p: nat)
    requires forall q | p <= q :: !OccursAt(msg, "key: ", q)
    ensures KeyCaptureFrom(msg, p) == None
    decreases |msg| - p
  {
    if p + 5 <= |msg| {
      KeyCaptureNone(msg, p + 1);
    }
  }

  /** A message without `key: ` yields `""`. */
  lemma KeyFromDiagnosticWithoutKey(message: string)
    requires forall q :: !OccursAt(message, "key: ", q)
    ensures KeyFromDiagnostic(message) == ""
  {
    KeyCaptureNone(message, 0);
  }

  /** No `key: ` starts at an offset `p` whose character is not `k`. */
  lemma {:induction false} KeyCaptureSkips(msg: string, p: nat, stop: nat)
    requires p <= stop <= |msg|
    requires forall q | p <= q < stop :: msg[q] != 'k'
    ensures KeyCaptureFrom(msg, p) == KeyCaptureFrom(msg, stop)
    decreases stop - p
  {
    if p < stop {
      assert !OccursAt(msg, "key: ", p) by { assert msg[p] != "key: "[0]; }
      if p + 5 <= |msg| {
        assert KeyCaptureFrom(msg, p) == KeyCaptureFrom(msg, p + 1);
      }
      KeyCaptureSkips(msg, p + 1, stop);
    }
  }

  /** The key of a missing-key diagnostic is recovered from its message when it holds no line terminator. */
  lemma MessageRoundTrip(key: string)
    requires NoLineTerminator(key)
    ensures KeyFromDiagnostic(MessageFor(key)) == key
  {
    var msg := MessageFor(key);
    assert msg == "Missing translation " + "key: " + key;
    assert msg[..20] == "Missing translation ";
    forall q | 0 <= q < 20
      ensures msg[q] != 'k'
    {
      assert msg[q] == msg[..20][q];
    }
    KeyCaptureSkips(msg, 0, 20);
    assert msg[20..25] == "key: ";
    assert msg[25..] == key;
  }

  /** The characters `[a-zA-Z0-9_-]` and `.` a key-path match is made of. */
  predicate IsKeyPathChar(c: char) {
    ('a' <= c <= 'z') || ('A' <= c <= 'Z') || ('0' <= c <= '9') || c == '_' || c == '-' || c == '.'
  }

  /** What the key-path regex guarantees of a match's first group. */
  predicate IsKeyPathToken(s: string) {
    forall i | 0 <= i < |s| :: IsKeyPathChar(s[i])
  }

  /** The diagnostic reported for a regex match. */
  function DiagnosticFor(m: KeyMatch): Diagnostic {
    Diagnostic(m.index, m.index + m.length, MessageFor(m.key), Warning, DiagnosticSource, MissingTranslationCode)
  }

  /** The diagnostics for the matches, in text order, one per key absent from `keys`. */
  function MissingKeyDiagnostics(keys: set<string>, matches: seq<KeyMatch>): seq<Diagnostic>
    decreases |matches|
  {
    if matches == [] then []
    else
      var rest := MissingKeyDiagnostics(keys, matches[..|matches| - 1]);
      var m := matches[|matches| - 1];
      if m.key in keys then rest else rest + [DiagnosticFor(m)]
  }

  /** The matches whose key is not known, in order. */
  function MissingMatches(keys: set<string>, matches: seq<KeyMatch>): seq<KeyMatch>
    decreases |matches|
  {
    if matches == [] then []
    else
      var rest := MissingMatches(keys, matches[..|matches| - 1]);
      var m := matches[|matches| - 1];
      if m.key in keys then rest else rest + [m]
  }

  /** The missing matches are exactly the matches whose key is unknown, in order. */
  lemma {:induction false} MissingMatchesSpec(keys: set<string>, matches: seq<KeyMatch>)
    ensures var ms := MissingMatches(keys, matches);
      && (forall i | 0 <= i < |ms| :: ms[i].key !in keys && ms[i] in matches)
      && (forall i | 0 <= i < |matches| && matches[i].key !in keys :: matches[i] in ms)
    decreases |matches|
  {
    if matches != [] {
      var init := matches[..|matches| - 1];
      MissingMatchesSpec(keys, init);
      var ms := MissingMatches(keys, matches);
      forall i | 0 <= i < |matches| && matches[i].key !in keys
        ensures matches[i] in ms
      {
        if i < |init| {
          assert init[i] == matches[i];
        }
      }
    }
  }

  /**
   * Exactly one diagnostic per missing match, in the same order, covering that
   * match; and its message gives the key back.
   */
  lemma {:induction false} MissingKeyDiagnosticsSpec(keys: set<string>, matches: seq<KeyMatch>)
    requires forall i | 0 <= i < |matches| :: IsKeyPathToken(matches[i].key)
    ensures var ds := MissingKeyDiagnostics(keys, matches);
      var ms := MissingMatches(keys, matches);
      && |ds| == |ms|
      && (forall i | 0 <= i < |ds| ::
            && ds[i].start == ms[i].index && ds[i].end == ms[i].index + ms[i].length
            && ds[i].severity == Warning && ds[i].source == DiagnosticSource
            && KeyFromDiagnostic(ds[i].message) == ms[i].key)
    decreases |matches|
  {
    if matches != [] {
      var init := matches[..|matches| - 1];
      var m := matches[|matches| - 1];
      MissingKeyDiagnosticsSpec(keys, init);
      if m.key !in keys {
        MessageRoundTrip(m.key);
      }
    }
  }

  /** `SUPPORTED_LANGUAGES.includes(languageId)`. */
  predicate IsSupported(languageId: string) {
    languageId in SupportedLanguages
  }

  /** The known keys, replaced wholesale when the workspace's keys change. */
  class DiagnosticManager {
    var keys: set<string>

    constructor(keys: set<string>)
      ensures this.keys == keys
    {
      this.keys := keys;
    }

    /**
     * Replaces the known keys and reports true when `newKeys` differs from
     * them; reports false and changes nothing otherwise. Refreshing the open
     * documents' diagnostics is not part of this model.
     */
    method UpdateKeys(newKeys: set<string>) returns (changed: bool)
      modifies this
      ensures changed <==> newKeys != old(keys)
      ensures keys == newKeys
    {
      var hasChanges := |newKeys| != |keys| || !(forall k | k in newKeys :: k in keys);
      if hasChanges {
        keys := newKeys;
        changed := true;
      } else {
        SameSizeSubset(newKeys, keys);
        changed := false;
      }
    }

    /** The diagnostics of a document with the given language and regex matches, in text order. */
    method GetDiagnostics(languageId: string, matches: seq<KeyMatch>) returns (ds: seq<Diagnostic>)
      ensures !IsSupported(languageId) ==> ds == []
      ensures IsSupported(languageId) ==> ds == MissingKeyDiagnostics(keys, matches)
    {
      if !IsSupported(languageId) {
        return [];
      }
      ds := [];
      var i := 0;
      while i < |matches|
        invariant 0 <= i <= |matches|
        invariant ds == MissingKeyDiagnostics(keys, matches[..i])
      {
        var m := matches[i];
        assert matches[..i + 1][..i] == matches[..i];
        if m.key !in keys {
          ds := ds + [DiagnosticFor(m)];
        }
        i := i + 1;
      }
      assert matches[..i] == matches;
    }
  }

  /** A subset of the same size is the whole set. */
  lemma SameSizeSubset(a: set<string>, b: set<string>)
    requires a <= b && |a| == |b|
    ensures a == b
  {
    assert |b - a| == |b| - |a|;
  }
}
