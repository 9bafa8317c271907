/**
 * `JsonStringManipulator`: edits a JSON document as text, without
 * re-serialising it. The in-object scanners (rename, remove, update) are
 * methods proved against the specification functions `Renamed`, `Removed`
 * and `Updated`; the document-level operations live in the class, whose one
 * field is the document text that `getObject` may overwrite.
 *
 * Where the code as written disagrees with its evident intent, the code is
 * kept under an `AsWritten` name beside a concrete input that shows the
 * difference, and the corrected definition is the one the class uses.
 */
module StringManipulator {
  import opened Wrappers
  import opened Strings
  import opened JsValues
  import opened KeyScanner

  // ---------------------------------------------------------------------------
  // Key paths

  /** `isValidateKeyPath`: every `.`-separated segment has a visible character. */
  predicate IsValidKeyPath(keyPath: string) {
    AllVisible(Split(keyPath, '.'))
  }

  predicate AllVisible(segs: seq<string>) {
    forall k | 0 <= k < |segs| :: Trim(segs[k]) != []
  }

  lemma AllVisibleCons(a: string, t: seq<string>)
    ensures AllVisible([a] + t) <==> Trim(a) != [] && AllVisible(t)
  {
    var segs := [a] + t;
    if Trim(a) != [] && AllVisible(t) {
      forall k | 0 <= k < |segs|
        ensures Trim(segs[k]) != []
      {
        if k > 0 {
          assert segs[k] == t[k - 1];
        }
      }
    }
    if AllVisible(segs) {
      assert segs[0] == a;
      forall k | 0 <= k < |t|
        ensures Trim(t[k]) != []
      {
        assert t[k] == segs[k + 1];
      }
    }
  }

  /** A dotted path without empty segments, stated on characters: non-empty, no leading, trailing or doubled dot. */
  predicate WellDotted(p: string) {
    && p != []
    && p[0] != '.' && p[|p| - 1] != '.'
    && forall i | 0 <= i < |p| - 1 :: p[i] == '.' ==> p[i + 1] != '.'
  }

  lemma TrimNoSpace(s: string)
    requires NoSpace(s)
    ensures Trim(s) == s
  {
    TrimStartNoSpace(s);
    TrimEndNoSpace(s);
  }

  /** On a path without white space, validity is exactly the character-level reading. */
  lemma {:induction false} ValidKeyPathIffWellDotted(p: string)
    requires NoSpace(p)
    ensures IsValidKeyPath(p) <==> WellDotted(p)
    decreases |p|
  {
    IndexOfCharSpec(p, '.');
    var i := IndexOfChar(p, '.');
    if i == -1 {
      ValidKeyPathNoDot(p);
    } else {
      assert NoSpace(p[i + 1..]);
      ValidKeyPathIffWellDotted(p[i + 1..]);
      ValidKeyPathAtFirstDot(p, i);
      WellDottedAtFirstDot(p, i);
    }
  }

  lemma ValidKeyPathNoDot(p: string)
    requires NoSpace(p) && '.' !in p
    ensures IsValidKeyPath(p) <==> WellDotted(p)
  {
    assert IndexOfChar(p, '.') == -1;
    assert Split(p, '.') == [p];
    TrimNoSpace(p);
    assert IsValidKeyPath(p) <==> p != [] by {
      assert AllVisible([p]) <==> Trim([p][0]) != [];
    }
    assert WellDotted(p) <==> p != [] by {
      if p != [] {
        assert p[0] in p && p[|p| - 1] in p;
        assert forall k | 0 <= k < |p| - 1 :: p[k] in p;
      }
    }
  }

  lemma ValidKeyPathAtFirstDot(p: string, i: nat)
    requires NoSpace(p)
    requires i < |p| && IndexOfChar(p, '.') == i
    ensures IsValidKeyPath(p) <==> i > 0 && IsValidKeyPath(p[i + 1..])
  {
    var tail := Split(p[i + 1..], '.');
    assert Split(p, '.') == [p[..i]] + tail;
    assert NoSpace(p[..i]);
    TrimNoSpace(p[..i]);
    AllVisibleCons(p[..i], tail);
  }

  /** Cutting a path at its first dot: well-dotted iff the head is non-empty and the rest is well-dotted. */
  lemma WellDottedAtFirstDot(p: string, i: nat)
    requires i < |p| && p[i] == '.' && '.' !in p[..i]
    ensures WellDotted(p) <==> i > 0 && WellDotted(p[i + 1..])
  {
    var rest := p[i + 1..];
    if WellDotted(p) {
      assert i != 0;
      assert i != |p| - 1;
      assert rest[0] == p[i + 1];
      forall k | 0 <= k < |rest| - 1
        ensures rest[k] == '.' ==> rest[k + 1] != '.'
      {
        assert rest[k] == p[i + 1 + k] && rest[k + 1] == p[i + 1 + k + 1];
      }
    }
    if i > 0 && WellDotted(rest) {
      assert p[0] == p[..i][0];
      assert p[|p| - 1] == rest[|rest| - 1];
      forall k | 0 <= k < |p| - 1
        ensures p[k] == '.' ==> p[k + 1] != '.'
      {
        if k < i {
          assert p[k] == p[..i][k];
        } else if k > i {
          assert p[k] == rest[k - i - 1] && p[k + 1] == rest[k - i];
        }
      }
    }
  }

  // ---------------------------------------------------------------------------
  // valueToJsonString

  /** `s.replace(/"/g, '\\"')`: each quote gets a backslash in front, nothing else changes. */
  function EscapeQuotes(s: string): (r: string)
    ensures r != [] ==> r[0] != '"'
    ensures |r| >= |s|
  {
    if s == [] then []
    else (if s[0] == '"' then "\\\"" else [s[0]]) + EscapeQuotes(s[1..])
  }

  /** Escapes as section 7 of RFC 8259 requires for the two characters it always names: `"` and `\`. */
  function EscapeJson(s: string): (r: string)
    ensures |r| >= |s|
  {
    if s == [] then []
    else (if s[0] == '"' || s[0] == '\\' then ['\\', s[0]] else [s[0]]) + EscapeJson(s[1..])
  }

  /**
   * Reads the body of a JSON string literal after its opening quote, as
   * section 7 of RFC 8259 does for `\"` and `\\`: the decoded text, or None
   * when the literal does not end with its closing quote or holds another escape.
   */
  function DecodeStringBody(t: string): Option<string>
    decreases |t|
  {
    if t == [] then None
    else if t[0] == '"' then (if |t| == 1 then Some([]) else None)
    else if t[0] == '\\' then
      if |t| >= 2 && (t[1] == '"' || t[1] == '\\') then
        match DecodeStringBody(t[2..])
        case None => None
        case Some(rest) => Some([t[1]] + rest)
      else None
    else
      match DecodeStringBody(t[1..])
      case None => None
      case Some(rest) => Some([t[0]] + rest)
  }

  /** Decoding a whole JSON string literal. */
  function DecodeStringLiteral(t: string): Option<string> {
    if t != [] && t[0] == '"' then DecodeStringBody(t[1..]) else None
  }

  /**
   * `valueToJsonString`: null and undefined become `null`; strings are quoted
   * with their quotes and backslashes escaped; numbers and booleans are printed;
   * arrays and objects become `[..]` and `{..}` of `", "`-separated encodings.
   */
  function ValueToJsonString(v: Json): (r: string)
    ensures v.Null? || v.Undefined? ==> r == "null"
    ensures v.Str? ==> DecodeStringLiteral(r) == Some(v.s)
    ensures v.Arr? ==> |r| >= 2 && r[0] == '[' && r[|r| - 1] == ']'
    ensures v.Obj? ==> |r| >= 2 && r[0] == '{' && r[|r| - 1] == '}'
    ensures v.Num? ==> r == IntToString(v.n)
    ensures v.Bool? ==> r == (if v.b then "true" else "false")
    decreases v
  {
    match v
    case Null => "null"
    case Undefined => "null"
    case Str(s) =>
      DecodeEscapeJson(s);
      assert ("\"" + EscapeJson(s) + "\"")[1..] == EscapeJson(s) + "\"";
      "\"" + EscapeJson(s) + "\""
    case Num(n) => IntToString(n)
    case Bool(b) => if b then "true" else "false"
    case Arr(items) =>
      "[" + Join(seq(|items|, i requires 0 <= i < |items| => ValueToJsonString(items[i])), ", ") + "]"
    case Obj(ms) =>
      "{" + Join(seq(|ms|, i requires 0 <= i < |ms| =>
        "\"" + ms[i].key + "\": " + ValueToJsonString(ms[i].value)), ", ") + "}"
  }

  /**
   * An array is encoded element by element: `[]` when empty, `[` and the only
   * element's encoding and `]` for one element, and otherwise the first
   * element's encoding, `, ` and the encoding of the remaining array after its `[`.
   */
  lemma ArrayEncodingCons(x: Json, rest: seq<Json>)
    ensures ValueToJsonString(Arr([])) == "[]"
    ensures ValueToJsonString(Arr([x])) == "[" + ValueToJsonString(x) + "]"
    ensures rest != [] ==>
      ValueToJsonString(Arr([x] + rest)) == "[" + ValueToJsonString(x) + ", " + ValueToJsonString(Arr(rest))[1..]
  {
    ArrayEncodingSingle(x);
    if rest != [] {
      ArrayEncodingMore(x, rest);
    }
  }

  lemma ArrayEncodingSingle(x: Json)
    ensures ValueToJsonString(Arr([x])) == "[" + ValueToJsonString(x) + "]"
  {
    var one := seq(1, i requires 0 <= i < 1 => ValueToJsonString([x][i]));
    assert one == [ValueToJsonString(x)];
  }

  lemma ArrayEncodingMore(x: Json, rest: seq<Json>)
    requires rest != []
    ensures ValueToJsonString(Arr([x] + rest)) == "[" + ValueToJsonString(x) + ", " + ValueToJsonString(Arr(rest))[1..]
  {
    ArrayEncodingIs([x] + rest);
    ArrayEncodingIs(rest);
    ElementEncodingsCons(x, rest);
    JoinCons(ValueToJsonString(x), ElementEncodings(rest), ", ");
    BracketedTail("[", Join(ElementEncodings(rest), ", "), "]");
  }

  /** The encodings of an array's elements, in order. */
  function ElementEncodings(items: seq<Json>): (r: seq<string>)
    ensures |r| == |items|
  {
    seq(|items|, i requires 0 <= i < |items| => ValueToJsonString(items[i]))
  }

  lemma ArrayEncodingIs(items: seq<Json>)
    ensures ValueToJsonString(Arr(items)) == "[" + Join(ElementEncodings(items), ", ") + "]"
  {
    var parts := seq(|items|, i requires 0 <= i < |items| => ValueToJsonString(items[i]));
    assert parts == ElementEncodings(items);
  }

  lemma ElementEncodingsCons(x: Json, rest: seq<Json>)
    ensures ElementEncodings([x] + rest) == [ValueToJsonString(x)] + ElementEncodings(rest)
  {
    var items := [x] + rest;
    assert forall i | 1 <= i < |items| :: items[i] == rest[i - 1];
  }

  /**
   * An object is encoded member by member: `{}` when empty, and otherwise the
   * first member as `"key": ` and its value's encoding, followed by `}` or by
   * `, ` and the encoding of the remaining members after its `{`.
   */
  lemma ObjectEncodingCons(m: Member, rest: seq<Member>)
    ensures ValueToJsonString(Obj([])) == "{}"
    ensures ValueToJsonString(Obj([m])) == "{" + MemberEncoding(m) + "}"
    ensures rest != [] ==>
      ValueToJsonString(Obj([m] + rest)) == "{" + MemberEncoding(m) + ", " + ValueToJsonString(Obj(rest))[1..]
  {
    ObjectEncodingSingle(m);
    if rest != [] {
      ObjectEncodingMore(m, rest);
    }
  }

  /** One member of an object's encoding: the quoted key, `: ` and the value's encoding. */
  function MemberEncoding(m: Member): string {
    "\"" + m.key + "\": " + ValueToJsonString(m.value)
  }

  lemma ObjectEncodingSingle(m: Member)
    ensures ValueToJsonString(Obj([m])) == "{" + MemberEncoding(m) + "}"
  {
    var one := seq(1, i requires 0 <= i < 1 => "\"" + [m][i].key + "\": " + ValueToJsonString([m][i].value));
    assert one == [MemberEncoding(m)];
  }

  lemma ObjectEncodingMore(m: Member, rest: seq<Member>)
    requires rest != []
    ensures ValueToJsonString(Obj([m] + rest)) == "{" + MemberEncoding(m) + ", " + ValueToJsonString(Obj(rest))[1..]
  {
    ObjectEncodingIs([m] + rest);
    ObjectEncodingIs(rest);
    MemberEncodingsCons(m, rest);
    JoinCons(MemberEncoding(m), MemberEncodings(rest), ", ");
    BracketedTail("{", Join(MemberEncodings(rest), ", "), "}");
  }

  /** The encodings of an object's members, in order. */
  function MemberEncodings(ms: seq<Member>): (r: seq<string>)
    ensures |r| == |ms|
  {
    seq(|ms|, i requires 0 <= i < |ms| => MemberEncoding(ms[i]))
  }

  lemma ObjectEncodingIs(ms: seq<Member>)
    ensures ValueToJsonString(Obj(ms)) == "{" + Join(MemberEncodings(ms), ", ") + "}"
  {
    var parts := seq(|ms|, i requires 0 <= i < |ms| => "\"" + ms[i].key + "\": " + ValueToJsonString(ms[i].value));
    assert parts == MemberEncodings(ms);
  }

  lemma MemberEncodingsCons(m: Member, rest: seq<Member>)
    ensures MemberEncodings([m] + rest) == [MemberEncoding(m)] + MemberEncodings(rest)
  {
    var ms := [m] + rest;
    assert forall i | 1 <= i < |ms| :: ms[i] == rest[i - 1];
  }

  /** The corrected escape round-trips through an RFC 8259 reader. */
  lemma {:induction false} DecodeEscapeJson(s: string)
    ensures DecodeStringBody(EscapeJson(s) + "\"") == Some(s)
  {
    if s != [] {
      DecodeEscapeJson(s[1..]);
      var head := if s[0] == '"' || s[0] == '\\' then ['\\', s[0]] else [s[0]];
      assert EscapeJson(s) + "\"" == head + (EscapeJson(s[1..]) + "\"");
      if s[0] == '"' || s[0] == '\\' {
        assert (EscapeJson(s) + "\"")[2..] == EscapeJson(s[1..]) + "\"";
      } else {
        assert (EscapeJson(s) + "\"")[1..] == EscapeJson(s[1..]) + "\"";
      }
      assert s == [s[0]] + s[1..];
    }
  }

  /** The source's escape leaves a backslash bare: a lone `\` encodes to a literal no JSON reader accepts. */
  lemma EscapeQuotesBreaksBackslash()
    ensures DecodeStringLiteral("\"" + EscapeQuotes("\\") + "\"") == None
    ensures DecodeStringLiteral(ValueToJsonString(Str("\\"))) == Some("\\")
  {
    assert EscapeQuotes("\\") == "\\";
    var t := "\"" + EscapeQuotes("\\") + "\"";
    var body := t[1..];
    assert body == ['\\', '"'];
    assert body[2..] == [];
    assert DecodeStringBody([]) == None;
    assert DecodeStringBody(body) == None;
    assert DecodeStringLiteral(t) == DecodeStringBody(body);
  }

  // ---------------------------------------------------------------------------
  // renameKeyInObject

  /** The `"text"` token. */
  function Quoted(t: string): (r: string)
    ensures |r| == |t| + 2 && r[0] == '"' && r[|r| - 1] == '"' && r[1..|r| - 1] == t
  {
    "\"" + t + "\""
  }

  /**
   * renameKeyInObject: at the first match the text before the key's opening
   * quote, then `"newKey"`, then the original text from the colon on;
   * without a match the input.
   */
  function Renamed(s: string, oldKey: string, newKey: string): (r: string)
    ensures FirstHit(KeyMode(oldKey), s, oldKey).None? ==> r == s
  {
    match FirstHit(KeyMode(oldKey), s, oldKey)
    case None => s
    case Some(i) => RenameAt(s, oldKey, newKey, i)
  }

  /** The rename at a match ending at `i`. */
  function RenameAt(s: string, oldKey: string, newKey: string, i: nat): string
    requires i + 1 < |s|
  {
    Slice(s, 0, i - |oldKey| - 1) + Quoted(newKey) + s[i + 1..]
  }

  /**
   * A rename that stops on the key's closing quote swaps exactly the token
   * `"oldKey"` for `"newKey"`: the text before it and the text from the colon
   * on (value, comma, later entries) are untouched.
   */
  lemma RenameSwapsToken(s: string, oldKey: string, newKey: string, i: nat)
    requires oldKey != []
    requires FirstHit(KeyMode(oldKey), s, oldKey) == Some(i)
    requires s[i] == '"'
    ensures var k := i - |oldKey| - 1;
      && 0 <= k
      && s[k..i + 1] == Quoted(oldKey)
      && s[i + 1] == ':'
      && Renamed(s, oldKey, newKey) == s[..k] + Quoted(newKey) + s[i + 1..]
  {
    var k := i - |oldKey| - 1;
    KeyTokenAtHit(s, oldKey, KeyMode(oldKey).trackDepth, i);
    assert s[k..i + 1] == "\"" + oldKey + "\"";
    assert Renamed(s, oldKey, newKey) == RenameAt(s, oldKey, newKey, i);
    assert Slice(s, 0, k) == s[..k];
  }

  /** The inner loop `while (/[\s,]/.test(s[j])) j++`. */
  method SkipSeparators(s: string, from: nat) returns (j: nat)
    requires from <= |s|
    ensures j == SkipSpaceComma(s, from)
  {
    j := from;
    while j < |s| && (IsSpace(s[j]) || s[j] == ',')
      invariant from <= j <= |s|
      invariant SkipSpaceComma(s, j) == SkipSpaceComma(s, from)
    {
      j := j + 1;
    }
  }

  lemma RenamedAtHit(s: string, oldKey: string, newKey: string, i: nat)
    requires FirstHit(KeyMode(oldKey), s, oldKey) == Some(i)
    ensures Renamed(s, oldKey, newKey) == RenameAt(s, oldKey, newKey, i)
  {
  }

  /** What renameKeyInObject does once the key is found at `i`: find the value's end, put the new key before it. */
  method SwapKeyAt(s: string, oldKey: string, newKey: string, i: nat) returns (r: string)
    requires i + 1 < |s|
    ensures r == RenameAt(s, oldKey, newKey, i)
  {
    var j := SkipSeparators(s, i + 2);
    var valueEnd := ScanValueEnd(s, j);
    r := Slice(s, 0, i - |oldKey| - 1) + Quoted(newKey) + Slice(s, i + 1, valueEnd) + SliceFrom(s, valueEnd);
    assert s[i + 1..] == s[i + 1..valueEnd] + s[valueEnd..];
  }

  method RenameKeyInObject(s: string, oldKey: string, newKey: string) returns (r: string)
    ensures r == Renamed(s, oldKey, newKey)
  {
    var m := KeyMode(oldKey);
    var st := Init;
    var i := 0;
    while i < |s|
      invariant 0 <= i <= |s|
      invariant st == StateAfter(m, s, i)
      invariant forall j: nat | j < i :: !HitAt(m, s, oldKey, j)
    {
      var skipped;
      st, skipped := ScanChar(m, s, i, st);
      if skipped {
        i := i + 1;
        continue;
      }
      assert st == StateAfter(m, s, i + 1);
      if !st.inString && st.depth == 0 && Unquote(st.currentKey) == oldKey && i + 1 < |s| && s[i + 1] == ':' {
        assert HitAt(m, s, oldKey, i);
        FirstHitIs(m, s, oldKey, i);
        RenamedAtHit(s, oldKey, newKey, i);
        r := SwapKeyAt(s, oldKey, newKey, i);
        return;
      }
      i := i + 1;
    }
    FirstHitNone(m, s, oldKey);
    r := s;
  }

  // ---------------------------------------------------------------------------
  // removeKeyFromObject

  /** Where the removed entry ends: one past its own `,`, or at the `}` or end that closes it. */
  function EntryEnd(s: string, i: nat): (r: nat)
    requires i + 1 < |s|
    ensures i + 2 <= r <= |s|
  {
    var ve := ValueEnd(s, i + 2);
    if ve < |s| && s[ve] == ',' then ve + 1 else ve
  }

  /** `toEnd` with one leading `}` dropped. */
  function DropBrace(t: string): string {
    if t != [] && t[0] == '}' then t[1..] else t
  }

  predicate StartsWithQuote(t: string) {
    t != [] && t[0] == '"'
  }

  /**
   * How removeKeyFromObject glues the text before the entry to the text after
   * it: when the kept text ends with `,` and nothing quoted follows, that comma
   * goes (the last white-space run of the kept text is put back in its place);
   * otherwise trailing white space goes.
   */
  function Rejoin(before: string, toEnd: string): string {
    var t := TrimEnd(before);
    (if EndsWith(t, ",") && !StartsWithQuote(TrimStart(toEnd))
     then Slice(t, 0, -1) + LastSpaceRun(before)
     else t) + toEnd
  }

  /** The key token `currentKey` holds when the rename/remove scan stops at `i`. */
  function KeyAt(s: string, key: string, i: nat): string
    requires i + 1 <= |s|
  {
    StateAfter(KeyMode(key), s, i + 1).currentKey
  }

  /** The removal at a match ending at `i`, keeping `s.slice(0, keyStart + 1)` before the entry. */
  function RemoveAt(s: string, i: nat, keyStart: int): string
    requires i + 1 < |s|
  {
    Rejoin(Slice(s, 0, keyStart + 1), DropBrace(s[EntryEnd(s, i)..]))
  }

  /** removeKeyFromObject as written: `keyStart = i - currentKey.length - 2`. */
  function RemovedAsWritten(s: string, key: string): (r: string)
    ensures FirstHit(KeyMode(key), s, key).None? ==> r == s
  {
    match FirstHit(KeyMode(key), s, key)
    case None => s
    case Some(i) => RemoveAt(s, i, i - |KeyAt(s, key, i)| - 2)
  }

  /**
   * The corrected `keyStart` for a key token whose opening quote is at `k`: the
   * source's `k - 2` cuts the character before the quote with the entry, which
   * is right when that character is white space (the entry's own indent); any
   * other character (a `,`, a `{`) is kept, and so is the text's first character.
   */
  function KeyStart(s: string, k: int): int
    requires k < |s|
  {
    if 0 < k && IsSpace(s[k - 1]) then k - 2 else k - 1
  }

  /** removeKeyFromObject with the corrected key start. */
  function Removed(s: string, key: string): (r: string)
    ensures FirstHit(KeyMode(key), s, key).None? ==> r == s
  {
    match FirstHit(KeyMode(key), s, key)
    case None => s
    case Some(i) => RemoveAt(s, i, KeyStart(s, i - |KeyAt(s, key, i)|))
  }

  /**
   * On a compact object whose first entry is removed, the code as written keeps
   * the removed entry and duplicates the next key; the corrected start leaves
   * only the next entry.
   */
  lemma RemoveFirstEntryAsWritten()
    ensures RemovedAsWritten("\"a\":1,\"b\":2", "a") == "\"a\":1,\"b\":\"b\":2"
    ensures Removed("\"a\":1,\"b\":2", "a") == "\"b\":2"
  {
    var s := "\"a\":1,\"b\":2";
    RemoveExampleScan();
    assert RemovedAsWritten(s, "a") == RemoveAt(s, 2, -2);
    assert Removed(s, "a") == RemoveAt(s, 2, -1);
    RemoveExampleCuts();
  }

  /** The two cuts on the example: keeping `s.slice(0, -1)` (everything but the last character) or nothing. */
  lemma RemoveExampleCuts()
    ensures var s := "\"a\":1,\"b\":2";
      && RemoveAt(s, 2, -2) == "\"a\":1,\"b\":\"b\":2"
      && RemoveAt(s, 2, -1) == "\"b\":2"
  {
    var s := "\"a\":1,\"b\":2";
    RemoveExampleEntry();
    var toEnd := DropBrace(s[6..]);
    assert toEnd == "\"b\":2";
    var before := Slice(s, 0, -1);
    assert before == "\"a\":1,\"b\":" && before[|before| - 1] == ':';
    assert TrimEnd(before) == before;
    assert Slice(s, 0, 0) == [];
  }

  /**
   * On an indented object whose last entry is removed, the source's start cuts
   * the entry's indent and puts back the line break before it, and the
   * corrected start does the same.
   */
  lemma RemoveIndentedLastEntry(s: string)
    requires s == "\n\t\"a\": 1,\n\t\"b\": 2\n"
    ensures Removed(s, "b") == "\n\t\"a\": 1\n"
    ensures RemovedAsWritten(s, "b") == Removed(s, "b")
  {
    IndentedExampleRemoved(s);
    IndentedExampleHit(s);
    IndentedExampleBefore(s);
    RemovedAgreesWhenIndented(s, "b", 13);
  }

  lemma IndentedExampleRemoved(s: string)
    requires s == "\n\t\"a\": 1,\n\t\"b\": 2\n"
    ensures Removed(s, "b") == "\n\t\"a\": 1\n"
  {
    IndentedExampleHit(s);
    IndentedExampleEnd(s);
    IndentedExampleBefore(s);
    RemovedLastEntry(s, "b", 13);
  }

  /** The scan for `b` in the indented example stops at its closing quote, index 13. */
  lemma IndentedExampleHit(s: string)
    requires s == "\n\t\"a\": 1,\n\t\"b\": 2\n"
    ensures FirstHit(KeyMode("b"), s, "b") == Some(13)
  {
    var m := KeyMode("b");
    IndentedExampleScan(s);
    assert Unquote("\"b") == "b";
    assert Unquote("\"a") == "a";
    assert HitAt(m, s, "b", 13);
    forall j: nat | j < 13
      ensures !HitAt(m, s, "b", j)
    {
      assert j != 4 ==> s[j + 1] != ':';
    }
    FirstHitIs(m, s, "b", 13);
  }

  /** The scanner states on the indented example: `"a` closed by 5, `"b` closed at 13. */
  lemma IndentedExampleScan(s: string)
    requires s == "\n\t\"a\": 1,\n\t\"b\": 2\n"
    ensures KeyMode("b") == ScanMode(false, false)
    ensures StateAfter(KeyMode("b"), s, 5) == ScanState(0, false, false, "\"a")
    ensures !Step(KeyMode("b"), StateAfter(KeyMode("b"), s, 13), s, 13).1
    ensures StateAfter(KeyMode("b"), s, 14) == ScanState(0, false, false, "\"b")
  {
    IndentedExampleScanHead(s);
    var m := KeyMode("b");
    assert StateAfter(m, s, 6) == ScanState(0, false, false, "\"a");
    assert StateAfter(m, s, 7) == ScanState(0, false, false, "\"a");
    assert StateAfter(m, s, 8) == ScanState(0, false, false, "\"a");
    assert StateAfter(m, s, 9) == ScanState(0, false, false, "\"a");
    assert StateAfter(m, s, 10) == ScanState(0, false, false, "\"a");
    assert StateAfter(m, s, 11) == ScanState(0, false, false, "\"a");
    assert StateAfter(m, s, 12) == ScanState(0, true, false, "\"");
    assert StateAfter(m, s, 13) == ScanState(0, true, false, "\"b");
  }

  lemma IndentedExampleScanHead(s: string)
    requires s == "\n\t\"a\": 1,\n\t\"b\": 2\n"
    ensures KeyMode("b") == ScanMode(false, false)
    ensures StateAfter(KeyMode("b"), s, 5) == ScanState(0, false, false, "\"a")
  {
    assert Split("b", '.') == ["b"];
    var m := KeyMode("b");
    assert StateAfter(m, s, 1) == ScanState(0, false, false, "");
    assert StateAfter(m, s, 2) == ScanState(0, false, false, "");
    assert StateAfter(m, s, 3) == ScanState(0, true, false, "\"");
    assert StateAfter(m, s, 4) == ScanState(0, true, false, "\"a");
  }

  /** The value `2` of `b` runs to the end of the indented example. */
  lemma IndentedExampleEnd(s: string)
    requires s == "\n\t\"a\": 1,\n\t\"b\": 2\n"
    ensures ValueEnd(s, 15) == |s|
  {
    assert ValueEndFrom(s, 18, ValueState(0, false, false)) == 18;
    assert ValueEndFrom(s, 17, ValueState(0, false, false)) == 18;
    assert ValueEndFrom(s, 16, ValueState(0, false, false)) == 18;
  }

  /** The text before `"b"` in the indented example: the first entry, its comma, the line break and the indent. */
  lemma IndentedExampleBefore(s: string)
    requires s == "\n\t\"a\": 1,\n\t\"b\": 2\n"
    ensures IsSpace(s[10])
    ensures var t := TrimEnd(s[..11]);
      EndsWith(t, ",") && t[..|t| - 1] == "\n\t\"a\": 1"
    ensures LastSpaceRun(s[..10]) == "\n"
    ensures var t := TrimEnd(s[..11]); t[..|t| - 1] + LastSpaceRun(s[..10]) == "\n\t\"a\": 1\n"
  {
    var head := "\n\t\"a\": 1,";
    assert s[..9] == head;
    assert !IsSpace(head[|head| - 1]);
    assert TrimEnd(s[..9]) == head;
    assert s[..10][..9] == s[..9] && s[..11][..10] == s[..10];
    assert TrimEnd(s[..10]) == head;
    assert TrimEnd(s[..11]) == head;
    assert LastSpaceRun(s[..10]) == s[..10][9..];
  }

  /**
   * On a compact object whose middle entry is removed, the source's start cuts
   * the comma before the entry and the neighbours are joined with none; the
   * corrected start keeps it.
   */
  lemma RemoveMiddleEntryAsWritten(s: string)
    requires s == "\"a\":1,\"b\":2,\"c\":3"
    ensures RemovedAsWritten(s, "b") == "\"a\":1\"c\":3"
    ensures Removed(s, "b") == "\"a\":1,\"c\":3"
  {
    MiddleExampleHit(s);
    MiddleExampleEntry(s);
    RemovedAfterCommaAsWritten(s, "b", 8);
    MiddleExampleParts(s);
  }

  /** The pieces the two removals keep from the compact example. */
  lemma MiddleExampleParts(s: string)
    requires s == "\"a\":1,\"b\":2,\"c\":3"
    ensures TrimEnd(s[..5]) + s[12..] == "\"a\":1\"c\":3"
    ensures s[..6] + s[12..] == "\"a\":1,\"c\":3"
  {
    assert s[..5] == "\"a\":1" && s[..6] == "\"a\":1," && s[12..] == "\"c\":3";
    assert TrimEnd(s[..5]) == s[..5] by {
      assert !IsSpace(s[4]);
    }
  }

  /** The scan for `b` in the compact example stops at its closing quote, index 8. */
  lemma MiddleExampleHit(s: string)
    requires s == "\"a\":1,\"b\":2,\"c\":3"
    ensures FirstHit(KeyMode("b"), s, "b") == Some(8)
  {
    var m := KeyMode("b");
    MiddleExampleScanTail(s);
    assert Unquote("\"b") == "b";
    assert HitAt(m, s, "b", 8);
    MiddleExampleNoEarlierHit(s);
    FirstHitIs(m, s, "b", 8);
  }

  /** The only `:` before index 8 of the compact example follows the key `a`. */
  lemma MiddleExampleNoEarlierHit(s: string)
    requires s == "\"a\":1,\"b\":2,\"c\":3"
    ensures forall j: nat | j < 8 :: !HitAt(KeyMode("b"), s, "b", j)
  {
    var m := KeyMode("b");
    MiddleExampleScanHead(s);
    assert Unquote("\"a") == "a";
    forall j: nat | j < 8
      ensures !HitAt(m, s, "b", j)
    {
      assert j != 2 ==> s[j + 1] != ':';
    }
  }

  lemma MiddleExampleScanHead(s: string)
    requires s == "\"a\":1,\"b\":2,\"c\":3"
    ensures KeyMode("b") == ScanMode(false, false)
    ensures StateAfter(KeyMode("b"), s, 3) == ScanState(0, false, false, "\"a")
  {
    assert Split("b", '.') == ["b"];
    var m := KeyMode("b");
    assert StateAfter(m, s, 1) == ScanState(0, true, false, "\"");
    assert StateAfter(m, s, 2) == ScanState(0, true, false, "\"a");
  }

  lemma MiddleExampleScanTail(s: string)
    requires s == "\"a\":1,\"b\":2,\"c\":3"
    ensures !Step(KeyMode("b"), StateAfter(KeyMode("b"), s, 8), s, 8).1
    ensures StateAfter(KeyMode("b"), s, 9) == ScanState(0, false, false, "\"b")
  {
    MiddleExampleScanHead(s);
    var m := KeyMode("b");
    assert StateAfter(m, s, 4) == ScanState(0, false, false, "\"a");
    assert StateAfter(m, s, 5) == ScanState(0, false, false, "\"a");
    assert StateAfter(m, s, 6) == ScanState(0, false, false, "\"a");
    assert StateAfter(m, s, 7) == ScanState(0, true, false, "\"");
    assert StateAfter(m, s, 8) == ScanState(0, true, false, "\"b");
  }

  /** In the compact example, `b`'s value ends at the comma at 11, and the next entry is quoted. */
  lemma MiddleExampleEntry(s: string)
    requires s == "\"a\":1,\"b\":2,\"c\":3"
    ensures ValueEnd(s, 10) == 11 && s[11] == ','
    ensures EntryEnd(s, 8) == 12 && StartsWithQuote(TrimStart(s[12..]))
    ensures s[5] == ','
  {
    assert ValueEndFrom(s, 11, ValueState(0, false, false)) == 11;
    assert ValueEndFrom(s, 10, ValueState(0, false, false)) == 11;
    assert s[12..] == "\"c\":3";
    assert TrimStart(s[12..]) == s[12..];
  }

  /** Where the scans stop on the example: the key token `"a` read by 2, the entry ending after its comma at 6. */
  lemma RemoveExampleScan()
    ensures var s := "\"a\":1,\"b\":2";
      && FirstHit(KeyMode("a"), s, "a") == Some(2)
      && KeyAt(s, "a", 2) == "\"a"
      && EntryEnd(s, 2) == 6
  {
    RemoveExampleHit();
    RemoveExampleEntry();
  }

  lemma RemoveExampleHit()
    ensures var s := "\"a\":1,\"b\":2";
      && FirstHit(KeyMode("a"), s, "a") == Some(2)
      && KeyAt(s, "a", 2) == "\"a"
  {
    var s := "\"a\":1,\"b\":2";
    assert Split("a", '.') == ["a"];
    var m := KeyMode("a");
    assert m == ScanMode(false, false);
    assert StateAfter(m, s, 1) == ScanState(0, true, false, "\"");
    assert StateAfter(m, s, 2) == ScanState(0, true, false, "\"a");
    assert StateAfter(m, s, 3) == ScanState(0, false, false, "\"a");
    assert Unquote("\"a") == "a";
    assert !HitAt(m, s, "a", 0) && !HitAt(m, s, "a", 1);
    assert HitAt(m, s, "a", 2);
    FirstHitIs(m, s, "a", 2);
  }

  lemma RemoveExampleEntry()
    ensures EntryEnd("\"a\":1,\"b\":2", 2) == 6
  {
    var s := "\"a\":1,\"b\":2";
    assert s[4] == '1' && s[5] == ',';
    assert ValueEndFrom(s, 5, ValueState(0, false, false)) == 5;
    assert ValueEnd(s, 4) == 5;
  }

  /**
   * Where the corrected removal cuts: the token `"key"` sits at `k`; the text
   * before it is kept, less the character just before the quote when that is
   * white space (the entry's own indent), and the text from the end of the
   * entry is kept, the two glued by `Rejoin`.
   */
  lemma RemovedSpan(s: string, key: string, i: nat)
    requires key != []
    requires FirstHit(KeyMode(key), s, key) == Some(i)
    requires s[i] == '"'
    ensures var k := i - |key| - 1;
      && 0 <= k && s[k..i + 1] == Quoted(key)
      && (0 < k && IsSpace(s[k - 1]) ==> Removed(s, key) == Rejoin(s[..k - 1], DropBrace(s[EntryEnd(s, i)..])))
      && (!(0 < k && IsSpace(s[k - 1])) ==> Removed(s, key) == Rejoin(s[..k], DropBrace(s[EntryEnd(s, i)..])))
  {
    RemovedKeyStart(s, key, i);
    if 0 < i - |key| - 1 && IsSpace(s[i - |key| - 2]) {
      RemoveAtCut(s, i, i - |key| - 2);
    } else {
      RemoveAtCut(s, i, i - |key| - 1);
    }
  }

  /** At a hit the key token is `"key"`, and the removal starts from its opening quote at `i - |key| - 1`. */
  lemma RemovedKeyStart(s: string, key: string, i: nat)
    requires key != []
    requires FirstHit(KeyMode(key), s, key) == Some(i)
    requires s[i] == '"'
    ensures var k := i - |key| - 1;
      && 0 <= k && s[k..i + 1] == Quoted(key)
      && Removed(s, key) == RemoveAt(s, i, KeyStart(s, k))
  {
    KeyTokenAtHit(s, key, KeyMode(key).trackDepth, i);
    RemovedAtHit(s, key, i);
  }

  /** `RemoveAt` with `keyStart = c - 1` keeps exactly `s[..c]` before the entry. */
  lemma RemoveAtCut(s: string, i: nat, c: nat)
    requires i + 1 < |s| && c <= i
    ensures RemoveAt(s, i, c - 1) == Rejoin(s[..c], DropBrace(s[EntryEnd(s, i)..]))
  {
    assert Slice(s, 0, c) == s[..c];
    assert SliceFrom(s, EntryEnd(s, i)) == s[EntryEnd(s, i)..];
  }

  /**
   * When white space precedes the key's opening quote, as in every indented
   * file, the corrected removal is the source's.
   */
  lemma RemovedAgreesWhenIndented(s: string, key: string, i: nat)
    requires key != []
    requires FirstHit(KeyMode(key), s, key) == Some(i)
    requires s[i] == '"' && |key| + 2 <= i && IsSpace(s[i - |key| - 2])
    ensures Removed(s, key) == RemovedAsWritten(s, key)
  {
    KeyTokenAtHit(s, key, KeyMode(key).trackDepth, i);
    assert KeyStart(s, i - |KeyAt(s, key, i)|) == i - |KeyAt(s, key, i)| - 2;
  }

  /**
   * When a `,` precedes the key's opening quote, the source's start cuts that
   * comma with a middle entry, joining the neighbours with none; the corrected
   * removal keeps it.
   */
  lemma RemovedAfterCommaAsWritten(s: string, key: string, i: nat)
    requires key != []
    requires FirstHit(KeyMode(key), s, key) == Some(i)
    requires s[i] == '"' && |key| + 2 <= i && s[i - |key| - 2] == ','
    requires var ve := ValueEnd(s, i + 2); ve < |s| && s[ve] == ','
    requires StartsWithQuote(TrimStart(s[EntryEnd(s, i)..]))
    ensures RemovedAsWritten(s, key) == TrimEnd(s[..i - |key| - 2]) + s[EntryEnd(s, i)..]
    ensures Removed(s, key) == s[..i - |key| - 1] + s[EntryEnd(s, i)..]
  {
    var k := i - |key| - 1;
    RemovedSpan(s, key, i);
    KeyTokenAtHit(s, key, KeyMode(key).trackDepth, i);
    assert |KeyAt(s, key, i)| == |key| + 1;
    var rest := s[EntryEnd(s, i)..];
    assert DropBrace(rest) == rest;
    assert RemovedAsWritten(s, key) == RemoveAt(s, i, k - 2);
    assert Slice(s, 0, k - 1) == s[..k - 1];
    assert SliceFrom(s, EntryEnd(s, i)) == rest;
    assert TrimEnd(s[..k]) == s[..k] by {
      assert s[..k][k - 1] == ',';
    }
  }

  /**
   * Removing an entry followed by its own `,` and another quoted entry drops
   * the entry, its comma and the white space before it: the comma before the
   * entry now separates the surviving neighbours.
   */
  lemma RemovedMiddleEntry(s: string, key: string, i: nat)
    requires key != []
    requires FirstHit(KeyMode(key), s, key) == Some(i)
    requires s[i] == '"' && |key| + 1 <= i
    requires var ve := ValueEnd(s, i + 2); ve < |s| && s[ve] == ','
    requires StartsWithQuote(TrimStart(s[EntryEnd(s, i)..]))
    ensures Removed(s, key) == TrimEnd(s[..i - |key| - 1]) + s[EntryEnd(s, i)..]
  {
    RemovedKeyStart(s, key, i);
    CutMiddle(s, i, i - |key| - 1);
  }

  /** The cut of a middle entry whose opening quote is at `k`: the kept text loses its trailing white space. */
  lemma CutMiddle(s: string, i: nat, k: nat)
    requires i + 1 < |s| && k <= i
    requires var ve := ValueEnd(s, i + 2); ve < |s| && s[ve] == ','
    requires StartsWithQuote(TrimStart(s[EntryEnd(s, i)..]))
    ensures RemoveAt(s, i, KeyStart(s, k)) == TrimEnd(s[..k]) + s[EntryEnd(s, i)..]
  {
    var rest := s[EntryEnd(s, i)..];
    assert DropBrace(rest) == rest;
    if 0 < k && IsSpace(s[k - 1]) {
      RemoveAtCut(s, i, k - 1);
      TrimEndDropsSpace(s, k);
    } else {
      RemoveAtCut(s, i, k);
    }
  }

  /**
   * Removing the last entry (nothing after its value) also drops the comma
   * that preceded it, putting back in its place the last white-space run before
   * the entry's own indent: on an indented file, the line break and the
   * parent's indent.
   */
  lemma RemovedLastEntry(s: string, key: string, i: nat)
    requires key != []
    requires FirstHit(KeyMode(key), s, key) == Some(i)
    requires s[i] == '"' && |key| + 1 <= i
    requires ValueEnd(s, i + 2) == |s|
    requires EndsWith(TrimEnd(s[..i - |key| - 1]), ",")
    ensures var k := i - |key| - 1;
      var t := TrimEnd(s[..k]);
      && 0 < k
      && (IsSpace(s[k - 1]) ==> Removed(s, key) == t[..|t| - 1] + LastSpaceRun(s[..k - 1]))
      && (!IsSpace(s[k - 1]) ==> Removed(s, key) == t[..|t| - 1] + LastSpaceRun(s[..k]))
  {
    if IsSpace(s[i - |key| - 2]) {
      RemovedLastIndented(s, key, i);
    } else {
      RemovedLastCompact(s, key, i);
    }
  }

  /** `RemovedLastEntry` when the character before the key's opening quote is white space. */
  lemma RemovedLastIndented(s: string, key: string, i: nat)
    requires key != []
    requires FirstHit(KeyMode(key), s, key) == Some(i)
    requires s[i] == '"' && |key| + 2 <= i && IsSpace(s[i - |key| - 2])
    requires ValueEnd(s, i + 2) == |s|
    requires EndsWith(TrimEnd(s[..i - |key| - 1]), ",")
    ensures var t := TrimEnd(s[..i - |key| - 1]);
      Removed(s, key) == t[..|t| - 1] + LastSpaceRun(s[..i - |key| - 2])
  {
    RemovedKeyStart(s, key, i);
    CutLast(s, i, i - |key| - 1);
  }

  /** `RemovedLastEntry` when the character before the key's opening quote is not white space. */
  lemma RemovedLastCompact(s: string, key: string, i: nat)
    requires key != []
    requires FirstHit(KeyMode(key), s, key) == Some(i)
    requires s[i] == '"' && |key| + 2 <= i && !IsSpace(s[i - |key| - 2])
    requires ValueEnd(s, i + 2) == |s|
    requires EndsWith(TrimEnd(s[..i - |key| - 1]), ",")
    ensures var t := TrimEnd(s[..i - |key| - 1]);
      Removed(s, key) == t[..|t| - 1] + LastSpaceRun(s[..i - |key| - 1])
  {
    RemovedKeyStart(s, key, i);
    CutLast(s, i, i - |key| - 1);
  }

  /** The cut of a last entry whose opening quote is at `k`, after a `,`. */
  lemma CutLast(s: string, i: nat, k: nat)
    requires i + 1 < |s| && k <= i
    requires ValueEnd(s, i + 2) == |s|
    requires EndsWith(TrimEnd(s[..k]), ",")
    ensures var t := TrimEnd(s[..k]);
      && 0 < k
      && (IsSpace(s[k - 1]) ==> RemoveAt(s, i, KeyStart(s, k)) == t[..|t| - 1] + LastSpaceRun(s[..k - 1]))
      && (!IsSpace(s[k - 1]) ==> RemoveAt(s, i, KeyStart(s, k)) == t[..|t| - 1] + LastSpaceRun(s[..k]))
  {
    assert EntryEnd(s, i) == |s|;
    assert DropBrace(s[|s|..]) == [];
    assert k > 0;
    if IsSpace(s[k - 1]) {
      RemoveAtCut(s, i, k - 1);
      TrimEndDropsSpace(s, k);
      RejoinAtEnd(s[..k - 1]);
    } else {
      RemoveAtCut(s, i, k);
      RejoinAtEnd(s[..k]);
    }
  }

  /** A white-space character at the end of the kept text changes nothing that `trimEnd` keeps. */
  lemma TrimEndDropsSpace(s: string, k: nat)
    requires 0 < k <= |s| && IsSpace(s[k - 1])
    ensures TrimEnd(s[..k - 1]) == TrimEnd(s[..k])
  {
    assert s[..k][..k - 1] == s[..k - 1];
  }

  /** With nothing after the entry and a kept text ending in `,`, that comma gives way to the text's last white-space run. */
  lemma RejoinAtEnd(before: string)
    requires EndsWith(TrimEnd(before), ",")
    ensures var t := TrimEnd(before); Rejoin(before, []) == t[..|t| - 1] + LastSpaceRun(before)
  {
    assert TrimStart([]) == [];
  }

  lemma RemovedAtHit(s: string, key: string, i: nat)
    requires FirstHit(KeyMode(key), s, key) == Some(i)
    ensures Removed(s, key) == RemoveAt(s, i, KeyStart(s, i - |KeyAt(s, key, i)|))
  {
  }

  /** The scan stops at its first hit `i`, with `st` the state after it; the cut there is what `Removed` gives. */
  lemma RemovedAtScanHit(s: string, key: string, i: nat, st: ScanState)
    requires i + 1 < |s| && !Step(KeyMode(key), StateAfter(KeyMode(key), s, i), s, i).1
    requires st == StateAfter(KeyMode(key), s, i + 1)
    requires !st.inString && st.depth == 0 && Unquote(st.currentKey) == key && s[i + 1] == ':'
    requires forall j: nat | j < i :: !HitAt(KeyMode(key), s, key, j)
    ensures Removed(s, key) == RemoveAt(s, i, KeyStart(s, i - |st.currentKey|))
  {
    assert HitAt(KeyMode(key), s, key, i);
    FirstHitIs(KeyMode(key), s, key, i);
    RemovedAtHit(s, key, i);
  }

  /** What removeKeyFromObject does once the key is found at `i`: cut the entry out and repair the commas. */
  method CutEntryAt(s: string, i: nat, keyStart: int) returns (r: string)
    requires i + 1 < |s|
    ensures r == RemoveAt(s, i, keyStart)
  {
    var valueEnd := ScanValueEnd(s, i + 2);
    if valueEnd < |s| && s[valueEnd] == ',' {
      valueEnd := valueEnd + 1;
    }
    assert valueEnd == EntryEnd(s, i);
    var before := Slice(s, 0, keyStart + 1);
    var toEnd := SliceFrom(s, valueEnd);
    if toEnd != [] && toEnd[0] == '}' {
      toEnd := toEnd[1..];
    }
    assert toEnd == DropBrace(s[EntryEnd(s, i)..]);
    var lastIndent := LastSpaceRun(before);
    if EndsWith(TrimEnd(before), ",") && !StartsWithQuote(TrimStart(toEnd)) {
      r := Slice(TrimEnd(before), 0, -1) + lastIndent;
    } else {
      r := TrimEnd(before);
    }
    r := r + toEnd;
  }

  /**
   * The cut once the scan has found, ending at `i`, a key token of `len`
   * characters (its opening quote included): the entry starts one character
   * before that quote when that character is white space, at the quote otherwise.
   */
  method CutAtKey(s: string, i: nat, len: nat) returns (r: string)
    requires i + 1 < |s|
    ensures r == RemoveAt(s, i, KeyStart(s, i - len))
  {
    var keyStart := i - len - 1;
    if keyStart >= 0 && IsSpace(s[keyStart]) {
      keyStart := keyStart - 1;
    }
    r := CutEntryAt(s, i, keyStart);
  }

  method RemoveKeyFromObject(s: string, key: string) returns (r: string)
    ensures r == Removed(s, key)
  {
    var m := KeyMode(key);
    var st := Init;
    var i := 0;
    while i < |s|
      invariant 0 <= i <= |s|
      invariant st == StateAfter(m, s, i)
      invariant forall j: nat | j < i :: !HitAt(m, s, key, j)
    {
      var skipped;
      st, skipped := ScanChar(m, s, i, st);
      if skipped {
        NoHitAt(m, s, key, i, st, skipped);
        i := i + 1;
        continue;
      }
      assert st == StateAfter(m, s, i + 1);
      if !st.inString && st.depth == 0 && Unquote(st.currentKey) == key && i + 1 < |s| && s[i + 1] == ':' {
        RemovedAtScanHit(s, key, i, st);
        r := CutAtKey(s, i, |st.currentKey|);
        return;
      }
      NoHitAt(m, s, key, i, st, skipped);
      i := i + 1;
    }
    FirstHitNone(m, s, key);
    r := s;
    assert r == Removed(s, key);
  }

  // ---------------------------------------------------------------------------
  // updateKeyInObject

  /** Where the value after the key matched at `i` starts: past the colon, white space and commas. */
  function ValueStart(s: string, i: nat): (j: nat)
    requires i + 1 < |s|
    ensures i + 2 <= j <= |s|
  {
    SkipSpaceComma(s, i + 2)
  }

  /**
   * The update at match `i`: the text up to the value, the new value, the text
   * from the old value's end (one further when `skip`), trailing white space
   * replaced by the last white-space run of the content.
   */
  function UpdateAt(s: string, i: nat, newValue: string, skip: bool): string
    requires i + 1 < |s|
  {
    var j := ValueStart(s, i);
    var ve := ValueEnd(s, j);
    TrimEnd(s[..j] + newValue + (if skip then SliceFrom(s, ve + 1) else s[ve..])) + LastSpaceRun(s)
  }

  /** updateKeyInObject as written: one character after the old value is skipped whenever the new value ends with `}`. */
  function UpdatedAsWritten(s: string, key: string, newValue: string): (r: string)
    ensures FirstHit(FullMode, s, key).None? ==> r == s
  {
    match FirstHit(FullMode, s, key)
    case None => s
    case Some(i) => UpdateAt(s, i, newValue, EndsWith(newValue, "}"))
  }

  /** updateKeyInObject skipping the old value's own closing `}`, which is where its scan stops on an object value. */
  function Updated(s: string, key: string, newValue: string): (r: string)
    ensures FirstHit(FullMode, s, key).None? ==> r == s
  {
    match FirstHit(FullMode, s, key)
    case None => s
    case Some(i) =>
      var ve := ValueEnd(s, ValueStart(s, i));
      UpdateAt(s, i, newValue, ve < |s| && s[ve] == '}')
  }

  /**
   * With a scalar old value and an object as new value, the code as written
   * swallows the comma after the value; the corrected update keeps it.
   */
  lemma UpdateObjectValueAsWritten()
    ensures UpdatedAsWritten("\"a\": 1, \"b\": 2", "a", "{}") == "\"a\": {} \"b\": 2 "
    ensures Updated("\"a\": 1, \"b\": 2", "a", "{}") == "\"a\": {}, \"b\": 2 "
  {
    var s := "\"a\": 1, \"b\": 2";
    UpdateExampleScan();
    UpdateExampleSplice();
    assert UpdatedAsWritten(s, "a", "{}") == UpdateAt(s, 2, "{}", true);
    assert Updated(s, "a", "{}") == UpdateAt(s, 2, "{}", false);
  }

  /** Where the scans stop on the example: the key at 2, the value from 5 to the comma at 6. */
  lemma UpdateExampleScan()
    ensures var s := "\"a\": 1, \"b\": 2";
      && FirstHit(FullMode, s, "a") == Some(2)
      && ValueStart(s, 2) == 5 && ValueEnd(s, 5) == 6 && s[6] == ','
  {
    UpdateExampleHit();
    UpdateExampleValue();
  }

  lemma UpdateExampleHit()
    ensures FirstHit(FullMode, "\"a\": 1, \"b\": 2", "a") == Some(2)
  {
    var s := "\"a\": 1, \"b\": 2";
    UpdateExampleStates();
    assert Unquote("\"a") == "a";
    assert !HitAt(FullMode, s, "a", 0) && !HitAt(FullMode, s, "a", 1);
    assert HitAt(FullMode, s, "a", 2);
    FirstHitIs(FullMode, s, "a", 2);
  }

  lemma UpdateExampleStates()
    ensures var s := "\"a\": 1, \"b\": 2";
      && StateAfter(FullMode, s, 1) == ScanState(0, true, false, "\"")
      && StateAfter(FullMode, s, 2) == ScanState(0, true, false, "\"a")
      && StateAfter(FullMode, s, 3) == ScanState(0, false, false, "\"a")
  {
    var s := "\"a\": 1, \"b\": 2";
    assert s[0] == '"' && s[1] == 'a' && s[2] == '"';
    assert StateAfter(FullMode, s, 1) == ScanState(0, true, false, "\"");
    assert StateAfter(FullMode, s, 2) == ScanState(0, true, false, "\"a");
  }

  lemma UpdateExampleValue()
    ensures var s := "\"a\": 1, \"b\": 2";
      ValueStart(s, 2) == 5 && ValueEnd(s, 5) == 6 && s[6] == ','
  {
    var s := "\"a\": 1, \"b\": 2";
    assert s[4] == ' ' && s[5] == '1' && s[6] == ',';
    assert SkipSpaceComma(s, 5) == 5;
    assert SkipSpaceComma(s, 4) == 5;
    assert ValueEndFrom(s, 6, ValueState(0, false, false)) == 6;
  }

  /** The two splices on the example. */
  lemma UpdateExampleSplice()
    ensures var s := "\"a\": 1, \"b\": 2";
      && UpdateAt(s, 2, "{}", true) == "\"a\": {} \"b\": 2 "
      && UpdateAt(s, 2, "{}", false) == "\"a\": {}, \"b\": 2 "
  {
    UpdateExampleSkipping();
    UpdateExampleKeeping();
  }

  lemma UpdateExampleSkipping()
    ensures UpdateAt("\"a\": 1, \"b\": 2", 2, "{}", true) == "\"a\": {} \"b\": 2 "
  {
    var s := "\"a\": 1, \"b\": 2";
    UpdateExampleValue();
    LastSpaceRunExample();
    var t := s[..5] + "{}" + SliceFrom(s, 7);
    assert t == "\"a\": {} \"b\": 2";
    assert TrimEnd(t) == t by {
      assert t[|t| - 1] == '2';
    }
  }

  lemma UpdateExampleKeeping()
    ensures UpdateAt("\"a\": 1, \"b\": 2", 2, "{}", false) == "\"a\": {}, \"b\": 2 "
  {
    var s := "\"a\": 1, \"b\": 2";
    UpdateExampleValue();
    LastSpaceRunExample();
    var t := s[..5] + "{}" + s[6..];
    assert t == "\"a\": {}, \"b\": 2";
    assert TrimEnd(t) == t by {
      assert t[|t| - 1] == '2';
    }
  }

  lemma LastSpaceRunExample()
    ensures LastSpaceRun("\"a\": 1, \"b\": 2") == " "
  {
    var s := "\"a\": 1, \"b\": 2";
    assert s[..13][..12] == s[..12] && s[11] == ':' && s[12] == ' ';
    assert TrimEnd(s[..12]) == s[..12];
    assert TrimEnd(s[..13]) == s[..12];
    assert LastSpaceRun(s[..13]) == " ";
    assert s[..|s| - 1] == s[..13];
  }

  /**
   * The corrected update keeps the text up to the value start, inserts the new
   * value verbatim, and keeps the text from the old value's terminator on: the
   * `,` before the next entry, or what follows the old object's own `}`.
   */
  lemma UpdatedKeepsSurroundings(s: string, key: string, newValue: string, i: nat)
    requires FirstHit(FullMode, s, key) == Some(i)
    requires newValue != [] && !IsSpace(newValue[|newValue| - 1])
    ensures var j := ValueStart(s, i);
      var ve := ValueEnd(s, j);
      var after := if ve < |s| && s[ve] == '}' then ve + 1 else ve;
      && (ve < |s| ==> s[ve] == ',' || s[ve] == '}')
      && Updated(s, key, newValue) == s[..j] + newValue + TrimEnd(s[after..]) + LastSpaceRun(s)
  {
    var j := ValueStart(s, i);
    var ve := ValueEnd(s, j);
    var after := if ve < |s| && s[ve] == '}' then ve + 1 else ve;
    assert SliceFrom(s, after) == s[after..];
    TrimEndAppend(s[..j] + newValue, s[after..]);
  }

  /** What updateKeyInObject does once the key is found at `i`: find the value, splice the new one in. */
  method ReplaceValueAt(s: string, newValue: string, i: nat) returns (r: string)
    requires i + 1 < |s|
    ensures var ve := ValueEnd(s, ValueStart(s, i));
      r == UpdateAt(s, i, newValue, ve < |s| && s[ve] == '}')
  {
    var j := SkipSeparators(s, i + 2);
    var valueEnd := ScanValueEnd(s, j);
    r := s[..j] + newValue;
    if valueEnd < |s| && s[valueEnd] == '}' {
      r := r + SliceFrom(s, valueEnd + 1);
    } else {
      r := r + s[valueEnd..];
    }
    r := TrimEnd(r) + LastSpaceRun(s);
  }

  method UpdateKeyInObject(s: string, key: string, newValue: string) returns (r: string)
    ensures r == Updated(s, key, newValue)
  {
    var st := Init;
    var i := 0;
    while i < |s|
      invariant 0 <= i <= |s|
      invariant st == StateAfter(FullMode, s, i)
      invariant forall j: nat | j < i :: !HitAt(FullMode, s, key, j)
    {
      var skipped;
      st, skipped := ScanChar(FullMode, s, i, st);
      if skipped {
        i := i + 1;
        continue;
      }
      assert st == StateAfter(FullMode, s, i + 1);
      if !st.inString && st.depth == 0 && Unquote(st.currentKey) == key && i + 1 < |s| && s[i + 1] == ':' {
        assert HitAt(FullMode, s, key, i);
        FirstHitIs(FullMode, s, key, i);
        r := ReplaceValueAt(s, newValue, i);
        return;
      }
      i := i + 1;
    }
    FirstHitNone(FullMode, s, key);
    r := s;
  }

  // ---------------------------------------------------------------------------
  // The document-level operations

  /** The errors the document operations throw. */
  datatype Error =
    | InvalidKeyPath   // "Invalid key Path"
    | NoParentObject   // "No parent object found"
    | NoObjectFound    // "No object found"
    | ContentNotJson   // JSON.parse of the parent's text throws

  /**
   * What `getObject` locates for a key path, taken as given: the document after
   * it (it may insert missing intermediate objects), the parent's full matched
   * text (empty when nothing was found), the parent object's text `{...}`, its
   * outer and inner indentation, and the own keys `JSON.parse` finds in that
   * text (None when parsing throws).
   */
  datatype ParentSpan = ParentSpan(
    document: string,
    fullObject: string,
    objectContent: string,
    objectIndent: string,
    objectInnerIndent: string,
    contentKeys: Option<set<string>>)

  /** `keys.pop() || ""`: the path's last segment. */
  function LastSegment(keyPath: string): (r: string)
    ensures '.' !in r
  {
    var keys := Split(keyPath, '.');
    SplitSpec(keyPath, '.');
    keys[|keys| - 1]
  }

  /** The in-object scanners are called with a last segment, which has no `.`: they never track depth. */
  lemma LastSegmentScansFlat(keyPath: string)
    ensures !KeyMode(LastSegment(keyPath)).trackDepth
  {
    var k := LastSegment(keyPath);
    assert IndexOfChar(k, '.') == -1;
    assert Split(k, '.') == [k];
  }

  /** `content` is `objectContent.slice(1, -1)`: the text between the parent's braces. */
  function Inner(objectContent: string): string {
    Slice(objectContent, 1, -1)
  }

  /** `doc.replace(full, full.replace(content, updated))`. */
  function Splice(doc: string, full: string, content: string, updated: string): string {
    ReplaceFirst(doc, full, ReplaceFirst(full, content, updated))
  }

  /**
   * The two nested `replace` calls as JavaScript evaluates them: `$` patterns in the
   * new parent text, and then in the new document text, are expanded.
   */
  function SpliceAsWritten(doc: string, full: string, content: string, updated: string): string {
    JsReplaceFirst(doc, full, JsReplaceFirst(full, content, updated))
  }

  /** Without `$` in the parent text and in its new content the two splices agree. */
  lemma SpliceAsWrittenAgrees(doc: string, full: string, content: string, updated: string)
    requires '$' !in full && '$' !in updated
    ensures SpliceAsWritten(doc, full, content, updated) == Splice(doc, full, content, updated)
  {
    ReplaceFirstNoDollar(full, content, updated);
  }

  /**
   * Removing `b` from `{"a":"$$","b":1}`: removeKey's new content is `"a":"$$"`,
   * and the kept sibling value `"$$"` is part of the replacement text, so the
   * as-written splice turns it into `"$"`; the literal splice keeps it.
   */
  lemma SpliceDollarExample(doc: string, content: string, updated: string)
    requires doc == "{\"a\":\"$$\",\"b\":1}"
    requires content == "\"a\":\"$$\",\"b\":1" && updated == "\"a\":\"$$\""
    ensures SpliceAsWritten(doc, doc, content, updated) == "{\"a\":\"$\"}"
    ensures Splice(doc, doc, content, updated) == "{\"a\":\"$$\"}"
    ensures Inner(doc) == content && DropTrailingComma(Removed(content, "b")) == updated
  {
    DollarExampleRemoved(doc, content);
    DollarExampleAsWritten(doc, content, updated);
    DollarExampleLiteralSplice(doc, content, updated);
  }

  /**
   * The example's new content is what removeKey computes: `b` is the last
   * entry of the parent's inner text, so it goes with the comma before it.
   */
  lemma DollarExampleRemoved(doc: string, content: string)
    requires doc == "{\"a\":\"$$\",\"b\":1}" && content == "\"a\":\"$$\",\"b\":1"
    ensures Inner(doc) == content
    ensures DropTrailingComma(Removed(content, "b")) == "\"a\":\"$$\""
  {
    DollarExampleInnerOf(doc, content);
    DollarExampleHit(content);
    DollarExampleEntryEnd(content);
    DollarExampleBefore(content);
    RemovedLastEntry(content, "b", 11);
  }

  lemma DollarExampleInnerOf(doc: string, content: string)
    requires doc == "{\"a\":\"$$\",\"b\":1}" && content == "\"a\":\"$$\",\"b\":1"
    ensures Inner(doc) == content
  {
    assert Clamp(-1, |doc|) == |doc| - 1;
    assert doc == "{" + content + "}";
    assert Inner(doc) == doc[1..|doc| - 1];
  }

  /** The text before `"b"`: the first entry and its comma, which removal drops. */
  lemma DollarExampleBefore(content: string)
    requires content == "\"a\":\"$$\",\"b\":1"
    ensures var before := content[..9];
      && TrimEnd(before) == before && EndsWith(before, ",")
      && LastSpaceRun(before) == []
      && before[..|before| - 1] == "\"a\":\"$$\""
  {
    var before := content[..9];
    assert before == "\"a\":\"$$\",";
    assert !IsSpace(before[|before| - 1]);
    assert NoSpace(before) by {
      forall i | 0 <= i < |before|
        ensures !IsSpace(before[i])
      {
      }
    }
    LastSpaceRunNone(before);
  }

  /** The scan for `b` in the example's inner text stops at its closing quote, index 11. */
  lemma DollarExampleHit(content: string)
    requires content == "\"a\":\"$$\",\"b\":1"
    ensures FirstHit(KeyMode("b"), content, "b") == Some(11)
  {
    var m := KeyMode("b");
    DollarExampleScanTail(content);
    assert Unquote("\"b") == "b";
    assert HitAt(m, content, "b", 11);
    DollarExampleNoEarlierHit(content);
    FirstHitIs(m, content, "b", 11);
  }

  /** The only `:` before index 11 follows the key `a`. */
  lemma DollarExampleNoEarlierHit(content: string)
    requires content == "\"a\":\"$$\",\"b\":1"
    ensures forall j: nat | j < 11 :: !HitAt(KeyMode("b"), content, "b", j)
  {
    var m := KeyMode("b");
    DollarExampleScanHead(content);
    assert Unquote("\"a") == "a";
    forall j: nat | j < 11
      ensures !HitAt(m, content, "b", j)
    {
      assert j != 2 ==> content[j + 1] != ':';
    }
  }

  /** The scanner state on the example once the first key token `"a"` has closed. */
  lemma DollarExampleScanHead(content: string)
    requires content == "\"a\":\"$$\",\"b\":1"
    ensures KeyMode("b") == ScanMode(false, false)
    ensures StateAfter(KeyMode("b"), content, 3) == ScanState(0, false, false, "\"a")
  {
    assert Split("b", '.') == ["b"];
    var m := KeyMode("b");
    assert StateAfter(m, content, 1) == ScanState(0, true, false, "\"");
    assert StateAfter(m, content, 2) == ScanState(0, true, false, "\"a");
  }

  /** The scanner state after the value `"$$"` has closed. */
  lemma DollarExampleScanMiddle(content: string)
    requires content == "\"a\":\"$$\",\"b\":1"
    ensures StateAfter(KeyMode("b"), content, 8) == ScanState(0, false, false, "\"$$")
  {
    DollarExampleScanHead(content);
    var m := KeyMode("b");
    assert StateAfter(m, content, 4) == ScanState(0, false, false, "\"a");
    assert StateAfter(m, content, 5) == ScanState(0, true, false, "\"");
    assert StateAfter(m, content, 6) == ScanState(0, true, false, "\"$");
    assert StateAfter(m, content, 7) == ScanState(0, true, false, "\"$$");
  }

  /** The scanner state once the key token `"b"` has closed, with no escape branch taken at 11. */
  lemma DollarExampleScanTail(content: string)
    requires content == "\"a\":\"$$\",\"b\":1"
    ensures !Step(KeyMode("b"), StateAfter(KeyMode("b"), content, 11), content, 11).1
    ensures StateAfter(KeyMode("b"), content, 12) == ScanState(0, false, false, "\"b")
  {
    DollarExampleScanMiddle(content);
    DollarExampleScanHead(content);
    var m := KeyMode("b");
    assert StateAfter(m, content, 9) == ScanState(0, false, false, "\"$$");
    assert StateAfter(m, content, 10) == ScanState(0, true, false, "\"");
    assert StateAfter(m, content, 11) == ScanState(0, true, false, "\"b");
  }

  /** In the example's inner text the value `1` of `b` runs to the end. */
  lemma DollarExampleEntryEnd(content: string)
    requires content == "\"a\":\"$$\",\"b\":1"
    ensures ValueEnd(content, 13) == |content|
  {
    assert ValueEndFrom(content, 14, ValueState(0, false, false)) == 14;
  }

  lemma DollarExampleAsWritten(doc: string, content: string, updated: string)
    requires doc == "{\"a\":\"$$\",\"b\":1}"
    requires content == "\"a\":\"$$\",\"b\":1" && updated == "\"a\":\"$$\""
    ensures SpliceAsWritten(doc, doc, content, updated) == "{\"a\":\"$\"}"
  {
    DollarExampleInner(doc, content, updated);
    DollarExampleOuter(doc, JsReplaceFirst(doc, content, updated));
  }

  lemma DollarExampleOuter(doc: string, inner: string)
    requires doc == "{\"a\":\"$$\",\"b\":1}" && inner == "{\"a\":\"$\"}"
    ensures JsReplaceFirst(doc, doc, inner) == inner
  {
    assert IndexOf(doc, doc) == 0;
    JsReplaceFirstAt(doc, doc, inner, 0);
    DollarExampleOuterText(doc, inner);
    assert doc[..0] + inner + doc[|doc|..] == inner;
  }

  lemma DollarExampleLiteralSplice(doc: string, content: string, updated: string)
    requires doc == "{\"a\":\"$$\",\"b\":1}"
    requires content == "\"a\":\"$$\",\"b\":1" && updated == "\"a\":\"$$\""
    ensures Splice(doc, doc, content, updated) == "{\"a\":\"$$\"}"
  {
    var literal := "{\"a\":\"$$\"}";
    DollarExampleLiteral(doc, content, updated);
    assert IndexOf(doc, doc) == 0;
    ReplaceFirstAt(doc, doc, literal, 0);
    assert doc[..0] + literal + doc[|doc|..] == literal;
  }

  lemma DollarExampleInner(doc: string, content: string, updated: string)
    requires doc == "{\"a\":\"$$\",\"b\":1}"
    requires content == "\"a\":\"$$\",\"b\":1" && updated == "\"a\":\"$$\""
    ensures JsReplaceFirst(doc, content, updated) == "{\"a\":\"$\"}"
  {
    DollarExampleContentAt(doc, content);
    JsReplaceFirstAt(doc, content, updated, 1);
    DollarExampleInnerText(doc, content, updated);
    assert doc[..1] == "{" && doc[1 + |content|..] == "}";
  }

  lemma DollarExampleLiteral(doc: string, content: string, updated: string)
    requires doc == "{\"a\":\"$$\",\"b\":1}"
    requires content == "\"a\":\"$$\",\"b\":1" && updated == "\"a\":\"$$\""
    ensures ReplaceFirst(doc, content, updated) == "{\"a\":\"$$\"}"
  {
    DollarExampleContentAt(doc, content);
    ReplaceFirstAt(doc, content, updated, 1);
    assert doc[..1] == "{" && doc[1 + |content|..] == "}";
  }

  /** The content of the example starts right after its opening brace. */
  lemma DollarExampleContentAt(doc: string, content: string)
    requires doc == "{\"a\":\"$$\",\"b\":1}" && content == "\"a\":\"$$\",\"b\":1"
    ensures IndexOf(doc, content) == 1
  {
    assert OccursAt(doc, content, 1) by {
      assert doc[1..1 + |content|] == content;
    }
    assert !OccursAt(doc, content, 0) by {
      assert doc[0] != content[0];
    }
    IndexOfFromIs(doc, content, 0, 1);
  }

  lemma DollarExampleInnerText(doc: string, content: string, updated: string)
    requires 1 + |content| <= |doc| && updated == "\"a\":\"$$\""
    ensures Substitution(doc, 1, content, updated) == "\"a\":\"$\""
  {
    var tail := "\"";
    assert Substitution(doc, 1, content, tail) == tail;
    SubstitutionDollarDollar(doc, 1, content, tail);
    assert updated == "\"a\":\"" + ("$$" + tail);
    SubstitutionPlainPrefix(doc, 1, content, "\"a\":\"", "$$" + tail);
  }

  lemma DollarExampleOuterText(doc: string, inner: string)
    requires inner == "{\"a\":\"$\"}"
    ensures Substitution(doc, 0, doc, inner) == inner
  {
    var tail := "\"}";
    assert Substitution(doc, 0, doc, tail) == tail;
    SubstitutionLoneDollar(doc, 0, doc, tail);
    assert inner == "{\"a\":\"" + ("$" + tail);
    SubstitutionPlainPrefix(doc, 0, doc, "{\"a\":\"", "$" + tail);
  }

  /** The shared prologue of renameKey, removeKey and addKey up to the key-existence test. */
  function Located(keyPath: string, span: ParentSpan, missing: Error): Result<set<string>, Error> {
    if !IsValidKeyPath(keyPath) then Failure(InvalidKeyPath)
    else if missing == NoParentObject && |Split(keyPath, '.')| > 1 && span.fullObject == [] then Failure(NoParentObject)
    else if missing == NoObjectFound && span.fullObject == [] then Failure(NoObjectFound)
    else if span.contentKeys.None? then Failure(ContentNotJson)
    else Success(span.contentKeys.value)
  }

  /** renameKey's result. */
  function RenameKeyResult(keyPath: string, newKey: string, span: ParentSpan): (r: Result<string, Error>)
    ensures !IsValidKeyPath(keyPath) ==> r == Failure(InvalidKeyPath)
    ensures r.Success? && span.contentKeys.Some? && LastSegment(keyPath) !in span.contentKeys.value ==> r.value == span.document
  {
    match Located(keyPath, span, NoParentObject)
    case Failure(e) => Failure(e)
    case Success(keys) =>
      var last := LastSegment(keyPath);
      if last in keys then
        var content := Inner(span.objectContent);
        Success(Splice(span.document, span.fullObject, content, Renamed(content, last, newKey)))
      else Success(span.document)
  }

  /** `if (t.endsWith(",")) t = t.slice(0, -1)`: one trailing comma goes. */
  function DropTrailingComma(t: string): string
  {
    if EndsWith(t, ",") then t[..|t| - 1] else t
  }

  /** removeKey's result: the content after removal loses one trailing `,`. */
  function RemoveKeyResult(keyPath: string, span: ParentSpan): (r: Result<string, Error>)
    ensures !IsValidKeyPath(keyPath) ==> r == Failure(InvalidKeyPath)
    ensures r.Success? && span.contentKeys.Some? && LastSegment(keyPath) !in span.contentKeys.value ==> r.value == span.document
  {
    match Located(keyPath, span, NoParentObject)
    case Failure(e) => Failure(e)
    case Success(keys) =>
      var last := LastSegment(keyPath);
      if last in keys then
        var content := Inner(span.objectContent);
        var updated := Removed(content, last);
        Success(Splice(span.document, span.fullObject, content, DropTrailingComma(updated)))
      else Success(span.document)
  }

  /** The regular expression test `{\s*}` as written: an empty pair of braces anywhere in the text. */
  predicate HasEmptyBracesAsWritten(t: string) {
    exists i, j | 0 <= i < j < |t| :: t[i] == '{' && t[j] == '}' && AllSpace(t[i + 1..j])
  }

  /** The test the insertion needs: the whole (trimmed) object text is `{`, white space, `}`. */
  predicate IsEmptyObject(t: string) {
    |t| >= 2 && t[0] == '{' && t[|t| - 1] == '}' && AllSpace(t[1..|t| - 1])
  }

  /** Every empty object passes the test as written, but not conversely (see AddAfterEmptyValueAsWritten). */
  lemma EmptyObjectHasEmptyBraces(t: string)
    requires IsEmptyObject(t)
    ensures HasEmptyBracesAsWritten(t)
  {
    assert t[0] == '{' && t[|t| - 1] == '}' && AllSpace(t[1..|t| - 1]);
  }

  /** The `newKeyValue` addKey builds for a new member, given the outcome of the emptiness test. */
  function NewMemberText(span: ParentSpan, lastKey: string, jsonValue: string, empty: bool): string {
    if !empty then
      var needsComma := if EndsWith(Trim(span.fullObject), "}") then "," else "";
      needsComma + span.objectInnerIndent + Quoted(lastKey) + ": " + jsonValue + span.objectIndent
    else
      span.objectInnerIndent + "\t" + Quoted(lastKey) + ": " + jsonValue + span.objectIndent
  }

  /** The parent's new text: its text up to the closing `}` (trailing space dropped), the member, `}` and what followed. */
  function WithMember(full: string, memberText: string): string {
    var newLines := SliceFrom(full, LastIndexOfChar(full, '}') + 1);
    KeptHead(full) + memberText + "}" + newLines
  }

  /** `jsonObject.trimEnd().slice(0, -1).trimEnd()`: the text kept before the new member. */
  function KeptHead(full: string): string {
    TrimEnd(Slice(TrimEnd(full), 0, -1))
  }

  /** The parent text addKey's insertion produces, as written. */
  function InsertedAsWritten(span: ParentSpan, lastKey: string, jsonValue: string): string {
    WithMember(span.fullObject,
      NewMemberText(span, lastKey, jsonValue, HasEmptyBracesAsWritten(Trim(span.objectContent))))
  }

  /** The parent text addKey's insertion produces with the anchored emptiness test. */
  function Inserted(span: ParentSpan, lastKey: string, jsonValue: string): string {
    WithMember(span.fullObject,
      NewMemberText(span, lastKey, jsonValue, IsEmptyObject(Trim(span.objectContent))))
  }

  /**
   * A parent whose last member holds `{}` passes the unanchored test, so the new
   * member is appended without a comma; the anchored test puts the comma in.
   */
  lemma AddAfterEmptyValueAsWritten()
    ensures var span := ParentSpan("{\"a\": {}}", "{\"a\": {}}", "{\"a\": {}}", "", "", Some({"a"}));
      && InsertedAsWritten(span, "b", "\"b\"") == "{\"a\": {}\t\"b\": \"b\"}"
      && Inserted(span, "b", "\"b\"") == "{\"a\": {},\"b\": \"b\"}"
  {
    var t := "{\"a\": {}}";
    var span := ParentSpan(t, t, t, "", "", Some({"a"}));
    AddExampleTests();
    AddExampleSplices();
    AddExampleMember(span);
    assert InsertedAsWritten(span, "b", "\"b\"") == WithMember(t, NewMemberText(span, "b", "\"b\"", true));
    assert Inserted(span, "b", "\"b\"") == WithMember(t, NewMemberText(span, "b", "\"b\"", false));
  }

  /** The member text for `"b"` after a parent with no indentation whose text ends with `}`, without and with a comma. */
  lemma AddExampleMember(span: ParentSpan)
    requires span.objectInnerIndent == [] && span.objectIndent == []
    requires EndsWith(Trim(span.fullObject), "}")
    ensures NewMemberText(span, "b", "\"b\"", true) == "\t\"b\": \"b\""
    ensures NewMemberText(span, "b", "\"b\"", false) == ",\"b\": \"b\""
  {
    assert Quoted("b") == "\"b\"";
  }

  /** The example parent contains `{}` but is not empty, and it is already trimmed. */
  lemma AddExampleTests()
    ensures var t := "{\"a\": {}}";
      HasEmptyBracesAsWritten(t) && !IsEmptyObject(t) && Trim(t) == t && EndsWith(t, "}")
  {
    var t := "{\"a\": {}}";
    assert t[6] == '{' && t[7] == '}' && t[7..7] == [];
    assert !IsSpace(t[1]);
    assert TrimStart(t) == t;
    assert TrimEnd(t) == t;
  }

  /** Where the example's member goes: before its last `}`, nothing after it. */
  lemma AddExampleSplices()
    ensures var t := "{\"a\": {}}";
      && WithMember(t, "\t\"b\": \"b\"") == "{\"a\": {}\t\"b\": \"b\"}"
      && WithMember(t, ",\"b\": \"b\"") == "{\"a\": {},\"b\": \"b\"}"
  {
    var t := "{\"a\": {}}";
    assert TrimEnd(t) == t;
    assert LastIndexOfChar(t, '}') == 8;
    assert SliceFrom(t, 9) == [];
    var cut := "{\"a\": {}";
    assert Slice(t, 0, -1) == cut;
    assert TrimEnd(cut) == cut by {
      assert cut[|cut| - 1] == '}';
    }
  }

  /**
   * The new member starts with a comma exactly when the parent already has
   * members (its trimmed text ends with `}` and is not an empty object).
   */
  lemma InsertedCommaIffMembers(span: ParentSpan, lastKey: string, jsonValue: string)
    requires EndsWith(Trim(span.fullObject), "}")
    requires AllSpace(span.objectInnerIndent)
    ensures var m := NewMemberText(span, lastKey, jsonValue, IsEmptyObject(Trim(span.objectContent)));
      m != [] && (m[0] == ',' <==> !IsEmptyObject(Trim(span.objectContent)))
  {
    var inner := span.objectInnerIndent;
    if inner != [] {
      assert IsSpace(inner[0]);
    }
  }

  /**
   * Where the insertion puts the member, whatever follows the parent's last `}`:
   * the new text starts with a prefix of the old text that ends in no white
   * space, then comes the member `"lastKey": value` with the closing indent,
   * then `}` and everything that followed the old last `}`.
   */
  lemma InsertedBeforeClosingBrace(span: ParentSpan, lastKey: string, jsonValue: string)
    requires '}' in span.fullObject
    ensures var full := span.fullObject;
      var p := LastIndexOfChar(full, '}');
      var m := NewMemberText(span, lastKey, jsonValue, IsEmptyObject(Trim(span.objectContent)));
      var tail := m + "}" + full[p + 1..];
      var ins := Inserted(span, lastKey, jsonValue);
      && 0 <= p && full[p] == '}' && '}' !in full[p + 1..]
      && EndsWith(m, Quoted(lastKey) + ": " + jsonValue + span.objectIndent)
      && EndsWith(ins, tail)
      && StartsWith(full, ins[..|ins| - |tail|])
      && (|ins| == |tail| || !IsSpace(ins[|ins| - |tail| - 1]))
  {
    NewMemberTextEnds(span, lastKey, jsonValue, IsEmptyObject(Trim(span.objectContent)));
    InsertedIsHeadAndTail(span, lastKey, jsonValue);
    KeptHeadPrefix(span.fullObject);
    HeadAndTail(Inserted(span, lastKey, jsonValue), KeptHead(span.fullObject),
      NewMemberText(span, lastKey, jsonValue, IsEmptyObject(Trim(span.objectContent)))
        + "}" + span.fullObject[LastIndexOfChar(span.fullObject, '}') + 1..]);
  }

  /** The inserted text split at the member: the kept head, then the member, `}` and the text after the last `}`. */
  lemma InsertedIsHeadAndTail(span: ParentSpan, lastKey: string, jsonValue: string)
    requires '}' in span.fullObject
    ensures var full := span.fullObject;
      var p := LastIndexOfChar(full, '}');
      && 0 <= p && full[p] == '}' && '}' !in full[p + 1..]
      && Inserted(span, lastKey, jsonValue)
        == KeptHead(full) + (NewMemberText(span, lastKey, jsonValue, IsEmptyObject(Trim(span.objectContent))) + "}" + full[p + 1..])
  {
    WithMemberIsHeadAndTail(span.fullObject,
      NewMemberText(span, lastKey, jsonValue, IsEmptyObject(Trim(span.objectContent))));
  }

  /** `WithMember` on a text holding `}`: the kept head, then the member text, `}` and the text after the last `}`. */
  lemma WithMemberIsHeadAndTail(full: string, memberText: string)
    requires '}' in full
    ensures var p := LastIndexOfChar(full, '}');
      && 0 <= p && full[p] == '}' && '}' !in full[p + 1..]
      && WithMember(full, memberText) == KeptHead(full) + (memberText + "}" + full[p + 1..])
  {
    var p := LastIndexOfChar(full, '}');
    LastIndexOfCharLast(full, '}');
    assert p != -1 by {
      var k :| 0 <= k < |full| && full[k] == '}';
    }
    assert SliceFrom(full, p + 1) == full[p + 1..];
  }

  /** A text built as a head and a tail ends with the tail, and what precedes the tail is the head. */
  lemma HeadAndTail(ins: string, head: string, tail: string)
    requires ins == head + tail
    ensures EndsWith(ins, tail) && ins[..|ins| - |tail|] == head
  {
  }

  /** The part of the parent text that the insertion keeps before the member: a prefix ending in no white space. */
  lemma KeptHeadPrefix(full: string)
    ensures var h := KeptHead(full);
      StartsWith(full, h) && (h == [] || !IsSpace(h[|h| - 1]))
  {
    var t := TrimEnd(full);
    TrimEndSpec(full);
    var cut := Slice(t, 0, -1);
    assert cut == t[..|cut|];
    TrimEndSpec(cut);
  }
  /**
   * When the parent text ends with its `}` (only white space after it), the
   * insertion keeps the text before that `}` less its trailing white space,
   * then the member and the closing indent, then `}` and the white space after it.
   */
  lemma InsertedAfterTrimmedBody(span: ParentSpan, lastKey: string, jsonValue: string, p: nat)
    requires p < |span.fullObject| && span.fullObject[p] == '}' && AllSpace(span.fullObject[p + 1..])
    ensures LastIndexOfChar(span.fullObject, '}') == p
    ensures Inserted(span, lastKey, jsonValue)
      == TrimEnd(span.fullObject[..p])
        + NewMemberText(span, lastKey, jsonValue, IsEmptyObject(Trim(span.objectContent)))
        + "}" + span.fullObject[p + 1..]
  {
    var full := span.fullObject;
    var head, rest := full[..p + 1], full[p + 1..];
    assert full == head + rest;
    assert '}' !in rest by {
      assert !IsSpace('}');
    }
    LastIndexOfCharSkip(head, rest, '}');
    assert head[|head| - 1] == '}';
    TrimEndUnique(head, rest);
    assert Slice(head, 0, -1) == full[..p] by {
      assert Clamp(-1, |head|) == p;
      assert head[0..p] == full[..p];
    }
    assert SliceFrom(full, p + 1) == rest;
  }

  /** Whatever prefix the comma test chooses, the member text ends with the member and the closing indent. */
  lemma NewMemberTextEnds(span: ParentSpan, lastKey: string, jsonValue: string, empty: bool)
    ensures EndsWith(NewMemberText(span, lastKey, jsonValue, empty), Quoted(lastKey) + ": " + jsonValue + span.objectIndent)
  {
    var m := NewMemberText(span, lastKey, jsonValue, empty);
    var tail := Quoted(lastKey) + ": " + jsonValue + span.objectIndent;
    var needsComma := if EndsWith(Trim(span.fullObject), "}") then "," else "";
    if empty {
      assert m == (span.objectInnerIndent + "\t") + tail;
    } else {
      assert m == (needsComma + span.objectInnerIndent) + tail;
    }
  }

  /** addKey's result: an existing key is updated in place, a new one inserted before the parent's `}`. */
  function AddKeyResult(keyPath: string, value: Json, span: ParentSpan): (r: Result<string, Error>)
    ensures !IsValidKeyPath(keyPath) ==> r == Failure(InvalidKeyPath)
    ensures IsValidKeyPath(keyPath) && span.fullObject == [] ==> r == Failure(NoObjectFound)
  {
    match Located(keyPath, span, NoObjectFound)
    case Failure(e) => Failure(e)
    case Success(keys) =>
      var last := LastSegment(keyPath);
      Success(AddedText(last, StoredValue(last, value), span, keys))
  }

  /** The encoded value addKey stores: a falsy value is replaced by the key's own name. */
  function StoredValue(last: string, value: Json): string {
    ValueToJsonString(if Truthy(value) then value else Str(last))
  }

  /** The document addKey writes once the parent is located and its keys are known. */
  function AddedText(last: string, jsonValue: string, span: ParentSpan, keys: set<string>): string {
    if last in keys then
      var content := Inner(span.objectContent);
      Splice(span.document, span.fullObject, content, Updated(content, last, jsonValue))
    else ReplaceFirst(span.document, span.fullObject, Inserted(span, last, jsonValue))
  }

  /** A falsy value is stored as the key's own name. */
  lemma AddKeyFalsyValueIsKeyName(keyPath: string, value: Json, span: ParentSpan)
    requires !Truthy(value)
    ensures AddKeyResult(keyPath, value, span) == AddKeyResult(keyPath, Str(LastSegment(keyPath)), span)
  {
  }

  /** Once the parent is located, addKey's document is `AddedText`. */
  lemma AddKeyResultIs(keyPath: string, value: Json, span: ParentSpan)
    requires AddKeyResult(keyPath, value, span).Success? && span.contentKeys.Some?
    ensures AddKeyResult(keyPath, value, span).value
      == AddedText(LastSegment(keyPath), StoredValue(LastSegment(keyPath), value), span, span.contentKeys.value)
  {
    assert Located(keyPath, span, NoObjectFound) == Success(span.contentKeys.value);
  }

  /**
   * addKey on a key the parent already has never inserts: the document around
   * the parent's content is kept and the content is the one with that key's
   * value replaced by the encoded value (the key's own name when the value is falsy).
   */
  lemma AddKeyExistingPresent(keyPath: string, value: Json, span: ParentSpan, p: nat, q: nat)
    requires AddKeyResult(keyPath, value, span).Success?
    requires span.contentKeys.Some? && LastSegment(keyPath) in span.contentKeys.value
    requires IndexOf(span.document, span.fullObject) == p
    requires IndexOf(span.fullObject, Inner(span.objectContent)) == q
    ensures AddKeyResult(keyPath, value, span).value
      == span.document[..p] + span.fullObject[..q]
        + Updated(Inner(span.objectContent), LastSegment(keyPath), StoredValue(LastSegment(keyPath), value))
        + span.fullObject[q + |Inner(span.objectContent)|..] + span.document[p + |span.fullObject|..]
  {
    AddKeyResultIs(keyPath, value, span);
    AddedTextExistingAt(LastSegment(keyPath), StoredValue(LastSegment(keyPath), value), span, span.contentKeys.value, p, q);
  }

  lemma AddedTextExistingAt(last: string, jsonValue: string, span: ParentSpan, keys: set<string>, p: nat, q: nat)
    requires last in keys
    requires IndexOf(span.document, span.fullObject) == p
    requires IndexOf(span.fullObject, Inner(span.objectContent)) == q
    ensures AddedText(last, jsonValue, span, keys)
      == span.document[..p] + span.fullObject[..q]
        + Updated(Inner(span.objectContent), last, jsonValue)
        + span.fullObject[q + |Inner(span.objectContent)|..] + span.document[p + |span.fullObject|..]
  {
    SpliceAt(span.document, span.fullObject, Inner(span.objectContent),
      Updated(Inner(span.objectContent), last, jsonValue), p, q);
  }

  /**
   * addKey on a key the parent lacks: the document around the parent is kept
   * and the parent is replaced by its text with the new member inserted.
   */
  lemma AddKeyNewInserts(keyPath: string, value: Json, span: ParentSpan, p: nat)
    requires AddKeyResult(keyPath, value, span).Success?
    requires span.contentKeys.Some? && LastSegment(keyPath) !in span.contentKeys.value
    requires IndexOf(span.document, span.fullObject) == p
    ensures p + |span.fullObject| <= |span.document|
    ensures AddKeyResult(keyPath, value, span).value
      == span.document[..p] + Inserted(span, LastSegment(keyPath), StoredValue(LastSegment(keyPath), value))
        + span.document[p + |span.fullObject|..]
  {
    AddKeyResultIs(keyPath, value, span);
    AddedTextNewAt(LastSegment(keyPath), StoredValue(LastSegment(keyPath), value), span, span.contentKeys.value, p);
  }

  lemma AddedTextNewAt(last: string, jsonValue: string, span: ParentSpan, keys: set<string>, p: nat)
    requires last !in keys
    requires IndexOf(span.document, span.fullObject) == p
    ensures p + |span.fullObject| <= |span.document|
    ensures AddedText(last, jsonValue, span, keys)
      == span.document[..p] + Inserted(span, last, jsonValue) + span.document[p + |span.fullObject|..]
  {
    ReplaceFirstAt(span.document, span.fullObject, Inserted(span, last, jsonValue), p);
  }

  /**
   * Where the parent occurs first at `p` in the document and the content first
   * at `q` in the parent, a splice changes only the content's span.
   */
  lemma SpliceAt(doc: string, full: string, content: string, updated: string, p: nat, q: nat)
    requires IndexOf(doc, full) == p && IndexOf(full, content) == q
    ensures p + |full| <= |doc| && q + |content| <= |full|
    ensures Splice(doc, full, content, updated)
      == doc[..p] + full[..q] + updated + full[q + |content|..] + doc[p + |full|..]
  {
    var r := ReplaceFirst(full, content, updated);
    assert r == full[..q] + updated + full[q + |content|..];
    assert Splice(doc, full, content, updated) == doc[..p] + r + doc[p + |full|..];
  }

  /**
   * renameKey on a key the parent holds: the document around the parent's
   * content is kept and the content is the one with the key renamed.
   */
  lemma RenameKeyPresent(keyPath: string, newKey: string, span: ParentSpan, p: nat, q: nat)
    requires RenameKeyResult(keyPath, newKey, span).Success?
    requires span.contentKeys.Some? && LastSegment(keyPath) in span.contentKeys.value
    requires IndexOf(span.document, span.fullObject) == p
    requires IndexOf(span.fullObject, Inner(span.objectContent)) == q
    ensures RenameKeyResult(keyPath, newKey, span).value
      == span.document[..p] + span.fullObject[..q]
        + Renamed(Inner(span.objectContent), LastSegment(keyPath), newKey)
        + span.fullObject[q + |Inner(span.objectContent)|..] + span.document[p + |span.fullObject|..]
  {
    RenameKeyResultIs(keyPath, newKey, span);
    RenamedSpliceAt(span, LastSegment(keyPath), newKey, p, q);
  }

  lemma RenameKeyResultIs(keyPath: string, newKey: string, span: ParentSpan)
    requires RenameKeyResult(keyPath, newKey, span).Success?
    requires span.contentKeys.Some? && LastSegment(keyPath) in span.contentKeys.value
    ensures RenameKeyResult(keyPath, newKey, span).value
      == Splice(span.document, span.fullObject, Inner(span.objectContent), Renamed(Inner(span.objectContent), LastSegment(keyPath), newKey))
  {
    assert Located(keyPath, span, NoParentObject) == Success(span.contentKeys.value);
  }

  lemma RenamedSpliceAt(span: ParentSpan, last: string, newKey: string, p: nat, q: nat)
    requires IndexOf(span.document, span.fullObject) == p
    requires IndexOf(span.fullObject, Inner(span.objectContent)) == q
    ensures Splice(span.document, span.fullObject, Inner(span.objectContent), Renamed(Inner(span.objectContent), last, newKey))
      == span.document[..p] + span.fullObject[..q]
        + Renamed(Inner(span.objectContent), last, newKey)
        + span.fullObject[q + |Inner(span.objectContent)|..] + span.document[p + |span.fullObject|..]
  {
    SpliceAt(span.document, span.fullObject, Inner(span.objectContent), Renamed(Inner(span.objectContent), last, newKey), p, q);
  }

  /**
   * removeKey on a key the parent holds: the document around the parent's
   * content is kept and the content is the one with the entry removed, less
   * one trailing comma.
   */
  lemma RemoveKeyPresent(keyPath: string, span: ParentSpan, p: nat, q: nat)
    requires RemoveKeyResult(keyPath, span).Success?
    requires span.contentKeys.Some? && LastSegment(keyPath) in span.contentKeys.value
    requires IndexOf(span.document, span.fullObject) == p
    requires IndexOf(span.fullObject, Inner(span.objectContent)) == q
    ensures RemoveKeyResult(keyPath, span).value
      == span.document[..p] + span.fullObject[..q]
        + DropTrailingComma(Removed(Inner(span.objectContent), LastSegment(keyPath)))
        + span.fullObject[q + |Inner(span.objectContent)|..] + span.document[p + |span.fullObject|..]
  {
    RemoveKeyResultIs(keyPath, span);
    RemovedSpliceAt(span, LastSegment(keyPath), p, q);
  }

  lemma RemovedSpliceAt(span: ParentSpan, last: string, p: nat, q: nat)
    requires IndexOf(span.document, span.fullObject) == p
    requires IndexOf(span.fullObject, Inner(span.objectContent)) == q
    ensures Splice(span.document, span.fullObject, Inner(span.objectContent), DropTrailingComma(Removed(Inner(span.objectContent), last)))
      == span.document[..p] + span.fullObject[..q]
        + DropTrailingComma(Removed(Inner(span.objectContent), last))
        + span.fullObject[q + |Inner(span.objectContent)|..] + span.document[p + |span.fullObject|..]
  {
    SpliceAt(span.document, span.fullObject, Inner(span.objectContent),
      DropTrailingComma(Removed(Inner(span.objectContent), last)), p, q);
  }

  lemma RemoveKeyResultIs(keyPath: string, span: ParentSpan)
    requires RemoveKeyResult(keyPath, span).Success?
    requires span.contentKeys.Some? && LastSegment(keyPath) in span.contentKeys.value
    ensures RemoveKeyResult(keyPath, span).value == Splice(span.document, span.fullObject, Inner(span.objectContent),
      DropTrailingComma(Removed(Inner(span.objectContent), LastSegment(keyPath))))
  {
    assert Located(keyPath, span, NoParentObject) == Success(span.contentKeys.value);
  }

  /** The manipulator: the document text, which `getObject` may replace. */
  class JsonStringManipulator {
    var jsonString: string

    constructor(jsonString: string)
      ensures this.jsonString == jsonString
    {
      this.jsonString := jsonString;
    }

    /**
     * getObject: throws on an invalid path before touching the text; otherwise
     * the located parent, with the document it produced stored back.
     */
    method GetObject(keyPath: string, located: ParentSpan) returns (r: Result<ParentSpan, Error>)
      modifies this
      ensures !IsValidKeyPath(keyPath) ==> r == Failure(InvalidKeyPath) && jsonString == old(jsonString)
      ensures IsValidKeyPath(keyPath) ==> r == Success(located) && jsonString == located.document
    {
      if !IsValidKeyPath(keyPath) {
        return Failure(InvalidKeyPath);
      }
      jsonString := located.document;
      r := Success(located);
    }

    /** checkKeyExists: whether `JSON.parse` of the text has the key as an own property. */
    static method CheckKeyExists(span: ParentSpan, key: string) returns (r: Result<bool, Error>)
      ensures span.contentKeys.None? ==> r == Failure(ContentNotJson)
      ensures span.contentKeys.Some? ==> r == Success(key in span.contentKeys.value)
    {
      if span.contentKeys.None? {
        return Failure(ContentNotJson);
      }
      r := Success(key in span.contentKeys.value);
    }

    method RenameKey(keyPath: string, newKey: string, located: ParentSpan) returns (r: Result<string, Error>)
      modifies this
      ensures r == RenameKeyResult(keyPath, newKey, located)
      ensures jsonString == if IsValidKeyPath(keyPath) then located.document else old(jsonString)
    {
      var keys := Split(keyPath, '.');
      var lastKey := keys[|keys| - 1];
      var obj := GetObject(keyPath, located);
      if obj.Failure? {
        return Failure(obj.error);
      }
      var span := obj.value;
      if |keys| > 1 && span.fullObject == [] {
        return Failure(NoParentObject);
      }
      var exists_ := CheckKeyExists(span, lastKey);
      if exists_.Failure? {
        return Failure(exists_.error);
      }
      if exists_.value {
        var content := Inner(span.objectContent);
        var updated := RenameKeyInObject(content, lastKey, newKey);
        r := Success(ReplaceFirst(jsonString, span.fullObject, ReplaceFirst(span.fullObject, content, updated)));
      } else {
        r := Success(jsonString);
      }
    }

    method RemoveKey(keyPath: string, located: ParentSpan) returns (r: Result<string, Error>)
      modifies this
      ensures r == RemoveKeyResult(keyPath, located)
      ensures jsonString == if IsValidKeyPath(keyPath) then located.document else old(jsonString)
    {
      var keys := Split(keyPath, '.');
      var lastKey := keys[|keys| - 1];
      var obj := GetObject(keyPath, located);
      if obj.Failure? {
        return Failure(obj.error);
      }
      var span := obj.value;
      if |keys| > 1 && span.fullObject == [] {
        return Failure(NoParentObject);
      }
      var exists_ := CheckKeyExists(span, lastKey);
      if exists_.Failure? {
        return Failure(exists_.error);
      }
      if exists_.value {
        var content := Inner(span.objectContent);
        var updated := RemoveKeyFromObject(content, lastKey);
        if EndsWith(updated, ",") {
          updated := Slice(updated, 0, -1);
        }
        r := Success(ReplaceFirst(jsonString, span.fullObject, ReplaceFirst(span.fullObject, content, updated)));
      } else {
        r := Success(jsonString);
      }
    }

    method AddKey(keyPath: string, value: Json, located: ParentSpan) returns (r: Result<string, Error>)
      modifies this
      ensures r == AddKeyResult(keyPath, value, located)
      ensures jsonString == if IsValidKeyPath(keyPath) then located.document else old(jsonString)
    {
      var keys := Split(keyPath, '.');
      var lastKey := keys[|keys| - 1];
      assert lastKey == LastSegment(keyPath);
      var jsonValue := ValueToJsonString(if Truthy(value) then value else Str(lastKey));
      var obj := GetObject(keyPath, located);
      if obj.Failure? {
        return Failure(obj.error);
      }
      var span := obj.value;
      if span.fullObject == [] {
        return Failure(NoObjectFound);
      }
      var exists_ := CheckKeyExists(span, lastKey);
      if exists_.Failure? {
        return Failure(exists_.error);
      }
      if exists_.value {
        var content := Inner(span.objectContent);
        var updated := UpdateKeyInObject(content, lastKey, jsonValue);
        return Success(ReplaceFirst(jsonString, span.fullObject, ReplaceFirst(span.fullObject, content, updated)));
      }
      var empty := IsEmptyObject(Trim(span.objectContent));
      var newKeyValue := NewMemberText(span, lastKey, jsonValue, empty);
      var newLines := SliceFrom(span.fullObject, LastIndexOfChar(span.fullObject, '}') + 1);
      var inserted := TrimEnd(Slice(TrimEnd(span.fullObject), 0, -1)) + newKeyValue + "}" + newLines;
      assert inserted == Inserted(span, lastKey, jsonValue);
      r := Success(ReplaceFirst(jsonString, span.fullObject, inserted));
    }
  }
}
