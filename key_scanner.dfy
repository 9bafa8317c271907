/**
 * The character scanners of `JsonStringManipulator`: the state machine that
 * walks the content of an object tracking nesting depth, whether it is inside a
 * string, an escape flag and the string token read last (`currentKey`), the
 * value-end scan that runs after a key is found, and the brace-balanced prefix
 * finder `parseObjectString`.
 *
 * The machine is written once, as `Step`, with the two ways the source's four
 * copies differ as a `ScanMode`; `StateAfter` is the state after any prefix.
 */
module KeyScanner {
  import opened Wrappers
  import opened Strings

  /**
   * How one copy of the scanner treats backslashes and nesting.
   * `escapeAnywhere`: a backslash inside a string toggles `escaped` and skips
   * the rest of the step wherever it occurs (checkKeyExistsInObject,
   * updateKeyInObject); otherwise only at the last index (renameKeyInObject,
   * removeKeyFromObject). `trackDepth`: `{`/`[` and `}`/`]` change the depth.
   */
  datatype ScanMode = ScanMode(escapeAnywhere: bool, trackDepth: bool)

  /** The mode of checkKeyExistsInObject and updateKeyInObject. */
  const FullMode := ScanMode(true, true)

  /** The mode of renameKeyInObject and removeKeyFromObject: depth is tracked only for a dotted key. */
  function KeyMode(key: string): ScanMode {
    ScanMode(false, |Split(key, '.')| > 1)
  }

  datatype ScanState = ScanState(depth: int, inString: bool, escaped: bool, currentKey: string)

  const Init := ScanState(0, false, false, "")

  /** One iteration of the scanner loop on `s[i]`: the new state, and whether the escape branch skipped the rest. */
  function Step(m: ScanMode, st: ScanState, s: string, i: nat): (ScanState, bool)
    requires i < |s|
  {
    var c := s[i];
    var toggles := !st.escaped && c == '"';
    var inString := if toggles then !st.inString else st.inString;
    var key := if toggles && inString then "" else st.currentKey;
    if inString && c == '\\' && (m.escapeAnywhere || i == |s| - 1) then
      (ScanState(st.depth, inString, !st.escaped, key), true)
    else
      var depth :=
        if inString || !m.trackDepth then st.depth
        else if c == '{' || c == '[' then st.depth + 1
        else if c == '}' || c == ']' then st.depth - 1
        else st.depth;
      (ScanState(depth, inString, st.escaped, if inString then key + [c] else key), false)
  }

  /** The scanner state after the loop has processed `s[..n]`. */
  function StateAfter(m: ScanMode, s: string, n: nat): ScanState
    requires n <= |s|
  {
    if n == 0 then Init else Step(m, StateAfter(m, s, n - 1), s, n - 1).0
  }

  /** `currentKey.replace(/"/g, "")`. */
  function Unquote(k: string): string {
    RemoveChar(k, '"')
  }

  /**
   * The match test after processing `s[i]`: outside any string, at depth 0,
   * the last string token equals `key`, and the next character is `:`.
   */
  predicate HitAt(m: ScanMode, s: string, key: string, i: nat) {
    && i + 1 < |s|
    && !Step(m, StateAfter(m, s, i), s, i).1
    && var st := StateAfter(m, s, i + 1);
    && !st.inString && st.depth == 0 && Unquote(st.currentKey) == key
    && s[i + 1] == ':'
  }

  /** A step that took the escape branch, or after which the match test fails, is no match. */
  lemma NoHitAt(m: ScanMode, s: string, key: string, i: nat, st: ScanState, skipped: bool)
    requires i < |s| && (st, skipped) == Step(m, StateAfter(m, s, i), s, i)
    requires skipped || !(!st.inString && st.depth == 0 && Unquote(st.currentKey) == key && i + 1 < |s| && s[i + 1] == ':')
    ensures !HitAt(m, s, key, i)
  {
  }

  /** The index at which the scanner loop stops with a match, searching from `i`. */
  function FirstHitFrom(m: ScanMode, s: string, key: string, i: nat): (r: Option<nat>)
    ensures r.Some? ==> i <= r.value && HitAt(m, s, key, r.value)
    decreases |s| - i
  {
    if i + 1 >= |s| then None
    else if HitAt(m, s, key, i) then Some(i)
    else FirstHitFrom(m, s, key, i + 1)
  }

  /** The index of the first match of `key` in `s`, if any. */
  function FirstHit(m: ScanMode, s: string, key: string): (r: Option<nat>)
    ensures r.Some? ==> HitAt(m, s, key, r.value)
  {
    FirstHitFrom(m, s, key, 0)
  }

  /** No match lies between `i` and the one `FirstHitFrom` reports (or the end). */
  lemma {:induction false} FirstHitFromMinimal(m: ScanMode, s: string, key: string, i: nat, j: nat)
    requires i <= j
    requires var r := FirstHitFrom(m, s, key, i); r.None? || j < r.value
    ensures !HitAt(m, s, key, j)
    decreases |s| - i
  {
    if i + 1 < |s| && i < j {
      var r := FirstHitFrom(m, s, key, i);
      assert r != Some(i);
      assert !HitAt(m, s, key, i);
      assert r == FirstHitFrom(m, s, key, i + 1);
      FirstHitFromMinimal(m, s, key, i + 1, j);
    }
  }

  /** The reported match is the first: nothing before it (or anywhere, when there is none) matches. */
  lemma FirstHitMinimal(m: ScanMode, s: string, key: string, j: nat)
    requires var r := FirstHit(m, s, key); r.None? || j < r.value
    ensures !HitAt(m, s, key, j)
  {
    FirstHitFromMinimal(m, s, key, 0, j);
  }

  /** Searching from `i` past indices that do not match finds the first index that does. */
  lemma {:induction false} FirstHitFromIs(m: ScanMode, s: string, key: string, i: nat, h: nat)
    requires i <= h && HitAt(m, s, key, h)
    requires forall j: nat | i <= j < h :: !HitAt(m, s, key, j)
    ensures FirstHitFrom(m, s, key, i) == Some(h)
    decreases h - i
  {
    if i < h {
      FirstHitFromIs(m, s, key, i + 1, h);
    }
  }

  /** A hit with no hit before it is the first hit. */
  lemma FirstHitIs(m: ScanMode, s: string, key: string, i: nat)
    requires HitAt(m, s, key, i)
    requires forall j: nat | j < i :: !HitAt(m, s, key, j)
    ensures FirstHit(m, s, key) == Some(i)
  {
    FirstHitFromIs(m, s, key, 0, i);
  }

  /** Searching from `i` when no index from `i` on matches finds nothing. */
  lemma {:induction false} FirstHitFromNone(m: ScanMode, s: string, key: string, i: nat)
    requires forall j: nat | i <= j < |s| :: !HitAt(m, s, key, j)
    ensures FirstHitFrom(m, s, key, i) == None
    decreases |s| - i
  {
    if i + 1 < |s| {
      FirstHitFromNone(m, s, key, i + 1);
    }
  }

  /** A scan that reaches the end without a hit has no first hit. */
  lemma FirstHitNone(m: ScanMode, s: string, key: string)
    requires forall j: nat | j < |s| :: !HitAt(m, s, key, j)
    ensures FirstHit(m, s, key) == None
  {
    FirstHitFromNone(m, s, key, 0);
  }

  /** The value scan's state: `valueDepth`, `valueInString`, `valueEscaped`. */
  datatype ValueState = ValueState(depth: int, inString: bool, escaped: bool)

  function ValueStep(vs: ValueState, c: char): ValueState {
    var inString := if !vs.escaped && c == '"' then !vs.inString else vs.inString;
    var escaped := if inString && c == '\\' then !vs.escaped else vs.escaped;
    var depth :=
      if inString then vs.depth
      else if c == '{' || c == '[' then vs.depth + 1
      else if c == '}' || c == ']' then vs.depth - 1
      else vs.depth;
    ValueState(depth, inString, escaped)
  }

  predicate ValueStops(vs: ValueState, c: char) {
    vs.depth == 0 && !vs.inString && (c == ',' || c == '}')
  }

  /**
   * The index of the first `,` or `}` at depth 0 outside a string, scanning from
   * `p` with state `vs`, or `|s|` when there is none.
   */
  function ValueEndFrom(s: string, p: nat, vs: ValueState): (r: nat)
    requires p <= |s|
    ensures p <= r <= |s|
    ensures r < |s| ==> s[r] == ',' || s[r] == '}'
    decreases |s| - p
  {
    if p == |s| then p
    else
      var vs' := ValueStep(vs, s[p]);
      if ValueStops(vs', s[p]) then p else ValueEndFrom(s, p + 1, vs')
  }

  /** Where the value that starts at `j` ends. */
  function ValueEnd(s: string, j: nat): (r: nat)
    requires j <= |s|
    ensures j <= r <= |s|
    ensures r < |s| ==> s[r] == ',' || s[r] == '}'
  {
    ValueEndFrom(s, j, ValueState(0, false, false))
  }

  /** The value-end loop of renameKeyInObject, removeKeyFromObject and updateKeyInObject. */
  method ScanValueEnd(s: string, j: nat) returns (valueEnd: nat)
    requires j <= |s|
    ensures valueEnd == ValueEnd(s, j)
  {
    valueEnd := j;
    var depth, inString, escaped := 0, false, false;
    while valueEnd < |s|
      invariant j <= valueEnd <= |s|
      invariant ValueEnd(s, j) == ValueEndFrom(s, valueEnd, ValueState(depth, inString, escaped))
      decreases |s| - valueEnd
    {
      var c := s[valueEnd];
      if !escaped && c == '"' {
        inString := !inString;
      }
      if inString && c == '\\' {
        escaped := !escaped;
      }
      if !inString {
        if c == '{' || c == '[' {
          depth := depth + 1;
        } else if c == '}' || c == ']' {
          depth := depth - 1;
        }
      }
      if depth == 0 && !inString && (c == ',' || c == '}') {
        break;
      }
      valueEnd := valueEnd + 1;
    }
  }

  /** The index reached from `j` by skipping white space and commas (`/[\s,]/`). */
  function SkipSpaceComma(s: string, j: nat): (r: nat)
    requires j <= |s|
    ensures j <= r <= |s|
    ensures forall k | j <= k < r :: IsSpace(s[k]) || s[k] == ','
    ensures r < |s| ==> !IsSpace(s[r]) && s[r] != ','
    decreases |s| - j
  {
    if j < |s| && (IsSpace(s[j]) || s[j] == ',') then SkipSpaceComma(s, j + 1) else j
  }

  /**
   * The body of the scanner loop on `s[i]`, shared by its four copies: the
   * quote toggle (which clears `currentKey` on entering a string), the
   * backslash branch that skips the rest, the depth count and the key token.
   */
  method ScanChar(m: ScanMode, s: string, i: nat, st: ScanState) returns (st': ScanState, skipped: bool)
    requires i < |s|
    ensures (st', skipped) == Step(m, st, s, i)
  {
    var depth, inString, escaped, currentKey := st.depth, st.inString, st.escaped, st.currentKey;
    var c := s[i];
    if !escaped && c == '"' {
      inString := !inString;
      if inString {
        currentKey := "";
      }
    }
    if inString && c == '\\' && (m.escapeAnywhere || i == |s| - 1) {
      escaped := !escaped;
      return ScanState(depth, inString, escaped, currentKey), true;
    }
    if !inString && m.trackDepth {
      if c == '{' || c == '[' {
        depth := depth + 1;
      } else if c == '}' || c == ']' {
        depth := depth - 1;
      }
    }
    if inString {
      currentKey := currentKey + [c];
    }
    return ScanState(depth, inString, escaped, currentKey), false;
  }

  // ---------------------------------------------------------------------------
  // checkKeyExistsInObject

  /**
   * Whether `key` occurs as a key of the object content `s`: the scan reaches a
   * string token equal to `key`, outside strings and at depth 0, followed by `:`.
   */
  method CheckKeyExistsInObject(s: string, key: string) returns (r: bool)
    ensures r <==> exists i: nat :: HitAt(FullMode, s, key, i)
  {
    var st := Init;
    var i := 0;
    while i < |s|
      invariant 0 <= i <= |s|
      invariant st == StateAfter(FullMode, s, i)
      invariant forall j: nat | j < i :: !HitAt(FullMode, s, key, j)
    {
      var skipped;
      st, skipped := ScanChar(FullMode, s, i, st);
      if skipped {
        i := i + 1;
        continue;
      }
      assert st == StateAfter(FullMode, s, i + 1);
      if !st.inString && st.depth == 0 && Unquote(st.currentKey) == key && i + 1 < |s| && s[i + 1] == ':' {
        assert HitAt(FullMode, s, key, i);
        return true;
      }
      i := i + 1;
    }
    r := false;
  }

  // ---------------------------------------------------------------------------
  // The shape of the token a rename/remove scan stops on

  /** `currentKey` as the rename/remove scan builds it: empty, or an opening quote and quote-free text. */
  predicate KeyForm(k: string) {
    k == [] || (k[0] == '"' && '"' !in k[1..])
  }

  /**
   * What the rename/remove scan knows after `s[..n]`: no escape is pending,
   * `currentKey` is a quote and quote-free text, and inside a string it is
   * exactly the text read since the opening quote.
   */
  predicate KeyScanInv(s: string, n: nat, st: ScanState)
    requires n <= |s|
  {
    && !st.escaped
    && KeyForm(st.currentKey)
    && (st.inString ==> 1 <= |st.currentKey| <= n && st.currentKey == s[n - |st.currentKey|..n])
    && (!st.inString && st.currentKey != [] ==> |st.currentKey| < n)
  }

  lemma {:induction false} KeyScanInvariant(s: string, td: bool, n: nat)
    requires n < |s|
    ensures KeyScanInv(s, n, StateAfter(ScanMode(false, td), s, n))
  {
    if n > 0 {
      KeyScanInvariant(s, td, n - 1);
      KeyScanStep(s, td, n - 1, StateAfter(ScanMode(false, td), s, n - 1));
    }
  }

  /** One step of the rename/remove scan before the last index keeps KeyScanInv. */
  lemma KeyScanStep(s: string, td: bool, n: nat, st: ScanState)
    requires n + 1 < |s|
    requires KeyScanInv(s, n, st)
    ensures KeyScanInv(s, n + 1, Step(ScanMode(false, td), st, s, n).0)
  {
    var c := s[n];
    var st' := Step(ScanMode(false, td), st, s, n).0;
    var k := st.currentKey;
    if c == '"' {
      if !st.inString {
        assert st'.currentKey == ['"'];
        assert s[n + 1 - 1..n + 1] == [c];
      } else {
        assert st'.currentKey == k && !st'.inString;
      }
    } else if st.inString {
      assert st'.currentKey == k + [c];
      assert s[n + 1 - |k + [c]|..n + 1] == s[n - |k|..n] + [c];
      assert (k + [c])[1..] == k[1..] + [c];
    } else {
      assert st' .currentKey == k && !st'.inString;
    }
  }

  lemma {:induction false} UnquoteKeyForm(k: string)
    requires KeyForm(k) && k != []
    ensures Unquote(k) == k[1..]
  {
    NoQuoteUnchanged(k[1..]);
    assert k == [k[0]] + k[1..];
  }

  lemma {:induction false} NoQuoteUnchanged(t: string)
    requires '"' !in t
    ensures RemoveChar(t, '"') == t
  {
    if t != [] {
      NoQuoteUnchanged(t[1..]);
      assert t == [t[0]] + t[1..];
    }
  }

  /**
   * Where a rename/remove scan stops on a non-empty key: `currentKey` is a quote
   * followed by the key, it was read at `k = i - |key| - 1 >= 0`, and when the
   * stop is on the closing quote, `s[k..i+1]` is exactly the token `"key"`.
   */
  lemma KeyTokenAtHit(s: string, key: string, td: bool, i: nat)
    requires key != []
    requires HitAt(ScanMode(false, td), s, key, i)
    ensures var ck := StateAfter(ScanMode(false, td), s, i + 1).currentKey;
      && ck == "\"" + key
      && 0 <= i - |key| - 1
      && (s[i] == '"' ==> s[i - |key| - 1..i + 1] == "\"" + key + "\"")
  {
    var m := ScanMode(false, td);
    var st := StateAfter(m, s, i);
    var st' := StateAfter(m, s, i + 1);
    assert st' == Step(m, st, s, i).0;
    KeyScanInvariant(s, td, i);
    KeyScanInvariant(s, td, i + 1);
    KeyTokenAtStep(s, key, td, i, st, st');
  }

  /** `KeyTokenAtHit` for any states before and after the step at `i` that keep KeyScanInv. */
  lemma KeyTokenAtStep(s: string, key: string, td: bool, i: nat, st: ScanState, st': ScanState)
    requires key != [] && i + 1 < |s|
    requires KeyScanInv(s, i, st) && KeyScanInv(s, i + 1, st')
    requires st' == Step(ScanMode(false, td), st, s, i).0
    requires !st'.inString && Unquote(st'.currentKey) == key
    ensures st'.currentKey == "\"" + key && 0 <= i - |key| - 1
    ensures s[i] == '"' ==> s[i - |key| - 1..i + 1] == "\"" + key + "\""
  {
    var ck := st'.currentKey;
    assert ck != [];
    UnquoteKeyForm(ck);
    assert ck == [ck[0]] + ck[1..];
    if s[i] == '"' {
      ClosingQuoteStep(s, td, i, st);
    }
  }

  /** A quote that ends a string keeps the token read so far, which then ends just before the quote. */
  lemma ClosingQuoteStep(s: string, td: bool, i: nat, st: ScanState)
    requires i + 1 < |s| && s[i] == '"'
    requires KeyScanInv(s, i, st)
    requires !Step(ScanMode(false, td), st, s, i).0.inString
    ensures st.inString
    ensures Step(ScanMode(false, td), st, s, i).0.currentKey == st.currentKey
    ensures s[i - |st.currentKey|..i + 1] == st.currentKey + "\""
  {
  }

  // ---------------------------------------------------------------------------
  // parseObjectString

  /** The running `bracketCount` of parseObjectString: `{` minus `}` in `s`. */
  function BraceBalance(s: string): int {
    if s == [] then 0
    else BraceBalance(s[..|s| - 1]) + (if s[|s| - 1] == '{' then 1 else if s[|s| - 1] == '}' then -1 else 0)
  }

  /** A brace at `j` brings the running count back to 0: the loop breaks there. */
  predicate ClosesAt(s: string, j: int) {
    0 <= j < |s| && (s[j] == '{' || s[j] == '}') && BraceBalance(s[..j + 1]) == 0
  }

  /**
   * parseObjectString: the prefix of `s` up to the first brace that brings the
   * brace count back to 0, or all of `s` when the count never returns to 0.
   */
  method ParseObjectString(s: string) returns (r: string)
    ensures r <= s
    ensures |r| < |s| ==> r != [] && ClosesAt(s, |r| - 1)
    ensures forall j | 0 <= j < |r| - 1 :: !ClosesAt(s, j)
  {
    var lastIndex := 0;
    var bracketCount := 0;
    var i := 0;
    while i < |s|
      invariant 0 <= i <= |s|
      invariant bracketCount == BraceBalance(s[..i])
      invariant forall j | 0 <= j < i :: !ClosesAt(s, j)
      invariant lastIndex == if i == 0 then 0 else i - 1
    {
      lastIndex := i;
      assert s[..i + 1][..i] == s[..i];
      if s[i] == '{' {
        bracketCount := bracketCount + 1;
        if bracketCount == 0 {
          break;
        }
      }
      if s[i] == '}' {
        bracketCount := bracketCount - 1;
        if bracketCount == 0 {
          break;
        }
      }
      i := i + 1;
    }
    r := Slice(s, 0, lastIndex + 1);
  }

  /**
   * On text that opens with `{`, the first point where the brace count returns to
   * 0 is a `}`: parseObjectString cuts an object literal at its own closing brace.
   */
  lemma FirstCloseIsClosingBrace(s: string, j: nat)
    requires s != [] && s[0] == '{'
    requires ClosesAt(s, j)
    requires forall k | 0 <= k < j :: !ClosesAt(s, k)
    ensures s[j] == '}'
  {
    assert s[..1] == [s[0]];
    assert BraceBalance(s[..1][..0]) == 0;
    assert BraceBalance(s[..1]) == 1;
    BalancePositive(s, j, j);
    assert s[..j + 1][..j] == s[..j];
  }

  lemma {:induction false} BalancePositive(s: string, j: nat, n: nat)
    requires s != [] && s[0] == '{'
    requires 1 <= n <= j < |s|
    requires forall k | 0 <= k < j :: !ClosesAt(s, k)
    ensures BraceBalance(s[..n]) >= 1
  {
    if n == 1 {
      assert s[..1] == [s[0]];
      assert s[..1][..0] == [];
    } else {
      BalancePositive(s, j, n - 1);
      assert s[..n][..n - 1] == s[..n - 1];
      assert !ClosesAt(s, n - 1);
    }
  }
}
