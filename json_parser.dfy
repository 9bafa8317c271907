/**
 * The second-generation key operations (src/utils/json-parser.ts). A parser
 * works on one translation file in one of two modes:
 *  - preserving formatting, it edits the file's text: a regular expression
 *    built from the key path locates the last key's `"key": "value"` entry and
 *    its trailing comma, and the operation splices the text around it;
 *  - otherwise it edits the parsed tree: the parent object of the last key is
 *    changed in place and the whole tree is written back.
 * The regular-expression engine and the JSON parser are not part of this
 * model: a match and the parsed text are inputs.
 */
module JsonParser {
  import opened Wrappers
  import opened Strings
  import opened JsValues
  import opened JsonUtils

  // ---------------------------------------------------------------------------
  // Errors

  /** The errors the operations throw. */
  datatype ParserError = NoMatch | KeyPathNotFound(keyPath: string) | NoParentObject(keyPath: string)

  function ErrorMessage(e: ParserError): string {
    match e
    case NoMatch => "No match found for the specified key path."
    case KeyPathNotFound(p) => "Key path not found: " + p
    case NoParentObject(p) => "Cannot find parent object for key path:" + p
  }

  // ---------------------------------------------------------------------------
  // createRegexPattern

  /** The piece for the first segment: `{`, anything, the quoted key, a colon. */
  function FirstPiece(key: string): string {
    "{[\\s\\S]*?\"" + key + "\"\\s*:"
  }

  /** The piece for an intermediate segment: anything, `{`, anything, the quoted key, a colon. */
  function MiddlePiece(key: string): string {
    "[\\s\\S]*?{[\\s\\S]*?\"" + key + "\"\\s*:"
  }

  /** The piece for the last segment: group 1 captures the entry up to its closing quote, group 2 an optional comma. */
  function LastPiece(key: string): string {
    "[\\s\\S]*?(\"" + key + "\"\\s*:[\\s\\S]*?\".*\")(,?)"
  }

  /** The piece createRegexPattern appends for segment `i`, as written: the first segment is never captured. */
  function PieceAsWritten(keys: seq<string>, i: nat): string
    requires i < |keys|
  {
    if i == 0 then FirstPiece(keys[i])
    else if i == |keys| - 1 then LastPiece(keys[i])
    else MiddlePiece(keys[i])
  }

  /** The piece for segment `i`, with the last segment captured even when it is also the first. */
  function Piece(keys: seq<string>, i: nat): string
    requires i < |keys|
  {
    if i == |keys| - 1 then (if i == 0 then "{" else "") + LastPiece(keys[i])
    else if i == 0 then FirstPiece(keys[i])
    else MiddlePiece(keys[i])
  }

  function Concat(parts: seq<string>): string {
    if parts == [] then [] else Concat(parts[..|parts| - 1]) + parts[|parts| - 1]
  }

  function PiecesAsWritten(keys: seq<string>): (r: seq<string>)
    ensures |r| == |keys|
  {
    seq(|keys|, i requires 0 <= i < |keys| => PieceAsWritten(keys, i))
  }

  function Pieces(keys: seq<string>): (r: seq<string>)
    ensures |r| == |keys|
  {
    seq(|keys|, i requires 0 <= i < |keys| => Piece(keys, i))
  }

  /** The pattern as written. */
  function PatternAsWritten(keyPath: string): string {
    Concat(PiecesAsWritten(Split(keyPath, '.')))
  }

  /** The pattern with the last segment always captured. */
  function Pattern(keyPath: string): string {
    Concat(Pieces(Split(keyPath, '.')))
  }

  /** createRegexPattern: one piece appended per segment. */
  method CreateRegexPattern(keyPath: string) returns (pattern: string)
    ensures pattern == Pattern(keyPath)
  {
    var keys := Split(keyPath, '.');
    ghost var pieces := Pieces(keys);
    pattern := "";
    for index := 0 to |keys|
      invariant pattern == Concat(pieces[..index])
    {
      var piece;
      if index == |keys| - 1 {
        piece := (if index == 0 then "{" else "") + LastPiece(keys[index]);
      } else if index == 0 {
        piece := FirstPiece(keys[index]);
      } else {
        piece := MiddlePiece(keys[index]);
      }
      assert piece == pieces[index];
      ConcatPrefix(pieces, index);
      pattern := pattern + piece;
    }
    assert pieces[..|keys|] == pieces;
  }

  /** Extending a prefix of the parts by one appends that part to the concatenation. */
  lemma ConcatPrefix(parts: seq<string>, i: nat)
    requires i < |parts|
    ensures Concat(parts[..i + 1]) == Concat(parts[..i]) + parts[i]
  {
    assert parts[..i + 1][..i] == parts[..i];
  }

  /** The number of `c` in `s`; for `(` in a pattern without escapes, its number of capture groups. */
  function CountChar(s: string, c: char): nat {
    if s == [] then 0 else CountChar(s[..|s| - 1], c) + (if s[|s| - 1] == c then 1 else 0)
  }

  lemma {:induction false} CountCharAppend(a: string, b: string, c: char)
    ensures CountChar(a + b, c) == CountChar(a, c) + CountChar(b, c)
    decreases |b|
  {
    if b == [] {
      assert a + b == a;
    } else {
      assert (a + b)[..|a + b| - 1] == a + b[..|b| - 1];
      CountCharAppend(a, b[..|b| - 1], c);
    }
  }

  lemma {:induction false} CountCharAbsent(s: string, c: char)
    requires c !in s
    ensures CountChar(s, c) == 0
    decreases |s|
  {
    if s != [] {
      assert c !in s[..|s| - 1] by { assert s == s[..|s| - 1] + [s[|s| - 1]]; }
      CountCharAbsent(s[..|s| - 1], c);
    }
  }

  lemma {:induction false} CountCharConcat(parts: seq<string>, c: char, last: nat)
    requires |parts| == last + 1
    requires forall i | 0 <= i < last :: CountChar(parts[i], c) == 0
    ensures CountChar(Concat(parts), c) == CountChar(parts[last], c)
    decreases last
  {
    if last == 0 {
      assert parts[..0] == [];
      assert Concat(parts) == Concat(parts[..0]) + parts[0];
      assert Concat(parts) == parts[0];
    } else {
      var init := parts[..last];
      assert Concat(init) == Concat(init[..last - 1]) + init[last - 1];
      CountCharConcatZero(init, c);
      CountCharAppend(Concat(init), parts[last], c);
    }
  }

  lemma {:induction false} CountCharConcatZero(parts: seq<string>, c: char)
    requires forall i | 0 <= i < |parts| :: CountChar(parts[i], c) == 0
    ensures CountChar(Concat(parts), c) == 0
    decreases |parts|
  {
    if parts != [] {
      CountCharConcatZero(parts[..|parts| - 1], c);
      CountCharAppend(Concat(parts[..|parts| - 1]), parts[|parts| - 1], c);
    }
  }

  /** The pieces' capture groups: none before the last segment, two in the last-segment piece. */
  lemma PieceGroups(key: string)
    requires '(' !in key
    ensures CountChar(FirstPiece(key), '(') == 0
    ensures CountChar(MiddlePiece(key), '(') == 0
    ensures CountChar(LastPiece(key), '(') == 2
    ensures CountChar("{" + LastPiece(key), '(') == 2
  {
    CountCharAbsent(key, '(');
    var a := "{[\\s\\S]*?\"";
    var b := "\"\\s*:";
    CountCharAbsent(a, '(');
    CountCharAbsent(b, '(');
    CountCharAppend(a, key, '(');
    CountCharAppend(a + key, b, '(');
    var m := "[\\s\\S]*?{[\\s\\S]*?\"";
    CountCharAbsent(m, '(');
    CountCharAppend(m, key, '(');
    CountCharAppend(m + key, b, '(');
    var l1 := "[\\s\\S]*?";
    var l2 := "\"";
    var l3 := "\"\\s*:[\\s\\S]*?\".*\")";
    var l4 := ",?)";
    CountCharAbsent(l1, '(');
    CountCharAbsent(l2, '(');
    CountCharAbsent(l3, '(');
    CountCharAbsent(l4, '(');
    assert CountChar("(", '(') == 1;
    assert LastPiece(key) == l1 + "(" + l2 + key + l3 + "(" + l4;
    CountCharAppend(l1, "(", '(');
    CountCharAppend(l1 + "(", l2, '(');
    CountCharAppend(l1 + "(" + l2, key, '(');
    CountCharAppend(l1 + "(" + l2 + key, l3, '(');
    CountCharAppend(l1 + "(" + l2 + key + l3, "(", '(');
    CountCharAppend(l1 + "(" + l2 + key + l3 + "(", l4, '(');
    CountCharAbsent("{", '(');
    CountCharAppend("{", LastPiece(key), '(');
  }

  /** The corrected pieces: no capture group before the last segment's, two in it. */
  lemma PiecesGroups(keys: seq<string>)
    requires |keys| >= 1
    requires forall k | 0 <= k < |keys| :: '(' !in keys[k]
    ensures forall i | 0 <= i < |keys| - 1 :: CountChar(Pieces(keys)[i], '(') == 0
    ensures CountChar(Pieces(keys)[|keys| - 1], '(') == 2
  {
    var pieces := Pieces(keys);
    forall i | 0 <= i < |keys| - 1
      ensures CountChar(pieces[i], '(') == 0
    {
      PieceGroups(keys[i]);
    }
    var n := |keys|;
    PieceGroups(keys[n - 1]);
    if n == 1 {
      assert pieces[n - 1] == "{" + LastPiece(keys[n - 1]);
    } else {
      assert pieces[n - 1] == LastPiece(keys[n - 1]);
    }
  }

  /** The pieces as written: no capture group before the last segment's, and two in it only when it is not also the first. */
  lemma PiecesAsWrittenGroups(keys: seq<string>)
    requires |keys| >= 1
    requires forall k | 0 <= k < |keys| :: '(' !in keys[k]
    ensures forall i | 0 <= i < |keys| - 1 :: CountChar(PiecesAsWritten(keys)[i], '(') == 0
    ensures CountChar(PiecesAsWritten(keys)[|keys| - 1], '(') == if |keys| == 1 then 0 else 2
  {
    var pieces := PiecesAsWritten(keys);
    forall i | 0 <= i < |keys| - 1
      ensures CountChar(pieces[i], '(') == 0
    {
      PieceGroups(keys[i]);
    }
    var n := |keys|;
    PieceGroups(keys[n - 1]);
    if n == 1 {
      assert pieces[0] == FirstPiece(keys[0]);
    } else {
      assert pieces[n - 1] == LastPiece(keys[n - 1]);
    }
  }

  /** The corrected pattern has two capture groups for every key path without `(`. */
  lemma PatternGroups(keyPath: string)
    requires '(' !in keyPath
    ensures CountChar(Pattern(keyPath), '(') == 2
  {
    var keys := Split(keyPath, '.');
    SplitKeepsAbsent(keyPath, '.', '(');
    PiecesGroups(keys);
    CountCharConcat(Pieces(keys), '(', |keys| - 1);
  }

  /**
   * As written, a key path of one segment gets a pattern without capture
   * groups, so `match[1]` and `match[2]` are `undefined`; with two or more
   * segments the pattern is the corrected one.
   */
  lemma PatternGroupsAsWritten(keyPath: string)
    requires '(' !in keyPath
    ensures CountChar(PatternAsWritten(keyPath), '(') == if '.' in keyPath then 2 else 0
    ensures '.' in keyPath ==> PatternAsWritten(keyPath) == Pattern(keyPath)
  {
    var keys := Split(keyPath, '.');
    SplitKeepsAbsent(keyPath, '.', '(');
    SplitSingle(keyPath, '.');
    PiecesAsWrittenGroups(keys);
    CountCharConcat(PiecesAsWritten(keys), '(', |keys| - 1);
    if '.' in keyPath {
      PiecesAgree(keys);
    }
  }

  /** With two or more segments the pieces as written are the corrected ones. */
  lemma PiecesAgree(keys: seq<string>)
    requires |keys| >= 2
    ensures PiecesAsWritten(keys) == Pieces(keys)
  {
    forall i | 0 <= i < |keys|
      ensures PiecesAsWritten(keys)[i] == Pieces(keys)[i]
    {
      assert PieceAsWritten(keys, i) == Piece(keys, i);
    }
  }

  // ---------------------------------------------------------------------------
  // getRegexMatches

  /** What `exec` returns: the match's offset, the whole match and the two groups (None for `undefined`). */
  datatype RegexMatch = RegexMatch(index: nat, whole: string, group1: Option<string>, group2: Option<string>)

  /** The record getRegexMatches builds. */
  datatype MatchRecord = MatchRecord(
    fullMatch: string, keyValue: Option<string>, comma: Option<string>, hasComma: bool,
    startChangeIndex: int, endChangeIndex: int)

  /** `String(x)` / `${x}` of a string that may be `undefined`. */
  function JsText(s: Option<string>): string {
    match s
    case None => "undefined"
    case Some(t) => t
  }

  /** getRegexMatches as written: the change offsets are counted from the start of the match. */
  function GetRegexMatchesAsWritten(m: RegexMatch): MatchRecord {
    MatchRecord(m.whole, m.group1, m.group2, m.group2 == Some(","),
      LastIndexOf(m.whole, JsText(m.group1)), |m.whole|)
  }

  /** getRegexMatches with the change offsets counted from the start of the document. */
  function GetRegexMatches(m: RegexMatch): MatchRecord {
    MatchRecord(m.whole, m.group1, m.group2, m.group2 == Some(","),
      m.index + LastIndexOf(m.whole, JsText(m.group1)), m.index + |m.whole|)
  }

  /**
   * What a match of the corrected pattern in `text` holds: the whole match
   * sits at its offset and ends with the two groups; group 1 ends with the
   * value's closing quote and group 2 is an optional comma.
   */
  predicate CapturesEntry(text: string, m: RegexMatch) {
    && m.index + |m.whole| <= |text| && text[m.index..m.index + |m.whole|] == m.whole
    && m.group1.Some? && m.group2.Some?
    && m.group1.value != [] && m.group1.value[|m.group1.value| - 1] == '"'
    && (m.group2.value == "" || m.group2.value == ",")
    && EndsWith(m.whole, m.group1.value + m.group2.value)
  }

  /** `lastIndexOf` of group 1 in the whole match finds the captured group, not an earlier copy. */
  lemma RecordSpansCapture(whole: string, pre: string, g1: string, g2: string)
    requires whole == pre + g1 + g2
    requires g1 != [] && g1[|g1| - 1] == '"'
    requires g2 == "" || g2 == ","
    ensures LastIndexOf(whole, g1) == |pre|
  {
    assert whole[|pre|..|pre| + |g1|] == g1;
    forall q | |pre| < q < |whole| + 1
      ensures !OccursAt(whole, g1, q)
    {
      if q + |g1| <= |whole| {
        assert g2 == "," && q == |pre| + 1;
        assert whole[q + |g1| - 1] == ',';
        assert whole[q..q + |g1|][|g1| - 1] == ',';
      }
    }
    LastIndexOfBelowIs(whole, g1, |whole| + 1, |pre|);
  }

  /**
   * The corrected record's change span is exactly the captured entry and its
   * comma; the record as written reports the same span shifted back by the
   * match's offset.
   */
  lemma RecordCoversCapture(text: string, m: RegexMatch)
    requires CapturesEntry(text, m)
    ensures var r := GetRegexMatches(m);
      && 0 <= r.startChangeIndex <= r.endChangeIndex <= |text|
      && text[r.startChangeIndex..r.endChangeIndex] == m.group1.value + m.group2.value
      && (r.hasComma <==> m.group2.value == ",")
    ensures GetRegexMatchesAsWritten(m).startChangeIndex + m.index == GetRegexMatches(m).startChangeIndex
    ensures GetRegexMatchesAsWritten(m).endChangeIndex + m.index == GetRegexMatches(m).endChangeIndex
  {
    var g := m.group1.value + m.group2.value;
    var pre := m.whole[..|m.whole| - |g|];
    assert m.whole == pre + m.group1.value + m.group2.value;
    RecordSpansCapture(m.whole, pre, m.group1.value, m.group2.value);
    var r := GetRegexMatches(m);
    assert r.startChangeIndex == m.index + |pre|;
    assert text[m.index + |pre|..m.index + |m.whole|] == m.whole[|pre|..];
  }

  // ---------------------------------------------------------------------------
  // Preserve-formatting mode

  /** `text.slice(0, start) + insert + text.slice(end)`. */
  function Splice(text: string, start: int, end: int, insert: string): string {
    Slice(text, 0, start) + insert + SliceFrom(text, end)
  }

  /** The entry `"key": "value"` followed by the captured comma, as the template literal writes it. */
  function EntryText(key: string, value: string, comma: Option<string>): string {
    "\"" + key + "\": \"" + value + "\"" + JsText(comma)
  }

  predicate LastCharIs(s: string, c: char) {
    s != [] && s[|s| - 1] == c
  }

  /**
   * The text left when the entry between `before` and `after` is removed:
   * after `{` the entry was first, its comma goes with it and the white space
   * after it is trimmed; with a comma of its own, a comma before it is cut
   * and its own comma kept; without one, the text is cut at the last comma
   * before it.
   */
  function RemovedEntry(before: string, after: string, hasComma: bool): string {
    var visible := TrimEnd(before);
    if LastCharIs(visible, '{') then before + TrimStart(after)
    else if hasComma then
      (if LastCharIs(visible, ',') then visible[..|visible| - 1] + "," + after else before + "," + after)
    else
      var lastComma := LastIndexOfChar(before, ',');
      if lastComma >= 0 then before[..lastComma] + after else before + TrimStart(after)
  }

  /** The comma repair of removeKey: `beforeStart` and `afterEnd` adjusted step by step, then joined. */
  method RemoveEntry(before: string, after: string, hasComma: bool) returns (updatedContent: string)
    ensures updatedContent == RemovedEntry(before, after, hasComma)
  {
    var beforeStart := before;
    var afterEnd := after;
    var trimmedBeforeStart := Trim(beforeStart);
    TrimLast(before);
    var haveComma := hasComma && !LastCharIs(trimmedBeforeStart, '{');
    var comma := if haveComma then "," else "";
    if !haveComma {
      if LastCharIs(trimmedBeforeStart, '{') {
        afterEnd := TrimStart(afterEnd);
      } else {
        var lastCommaIndex := LastIndexOfChar(beforeStart, ',');
        LastIndexOfCharLast(beforeStart, ',');
        if lastCommaIndex != -1 {
          beforeStart := Slice(beforeStart, 0, lastCommaIndex);
        } else {
          afterEnd := TrimStart(afterEnd);
        }
      }
    } else {
      if LastCharIs(trimmedBeforeStart, ',') {
        var visible := TrimEnd(before);
        TrimEndSpec(before);
        assert before == visible + before[|visible|..];
        assert ',' !in before[|visible|..] by {
          assert forall k | 0 <= k < |before[|visible|..]| :: IsSpace(before[|visible|..][k]);
        }
        LastIndexOfCharSkip(visible, before[|visible|..], ',');
        assert visible == visible[..|visible| - 1] + [','];
        var lastCommaIndex := LastIndexOfChar(beforeStart, ',');
        if lastCommaIndex != -1 {
          beforeStart := Slice(beforeStart, 0, lastCommaIndex);
        }
      }
    }
    updatedContent := beforeStart + comma + afterEnd;
  }

  /** Removing the first entry of an object: no comma is written and the white space after the entry goes. */
  lemma RemoveFirstEntry(open: string, space: string, after: string, hasComma: bool)
    requires LastCharIs(open, '{') && AllSpace(space)
    ensures RemovedEntry(open + space, after, hasComma) == open + space + TrimStart(after)
  {
    TrimEndUnique(open, space);
  }

  /**
   * Removing an entry that has a comma after a previous entry's comma: the
   * white space after the previous comma goes and one comma separates the
   * neighbours.
   */
  lemma RemoveMiddleEntry(previous: string, space: string, after: string)
    requires AllSpace(space)
    ensures RemovedEntry(previous + "," + space, after, true) == previous + "," + after
  {
    TrimEndUnique(previous + ",", space);
  }

  /** Removing the last entry: the text before it is cut at the previous comma, so no comma dangles. */
  lemma RemoveLastEntry(previous: string, space: string, after: string)
    requires AllSpace(space)
    ensures RemovedEntry(previous + "," + space, after, false) == previous + after
  {
    TrimEndUnique(previous + ",", space);
    assert ',' !in space by {
      assert forall k | 0 <= k < |space| :: IsSpace(space[k]);
    }
    LastIndexOfCharSkip(previous + ",", space, ',');
    assert (previous + ",")[|previous|] == ',';
    assert previous + "," + space == (previous + ",") + space;
    assert (previous + "," + space)[..|previous|] == previous;
  }

  /** removeKey in preserve mode on a located record: the error, or the new text. */
  function RemovePreserveWith(text: string, parsed: Json, keyPath: string, rec: Option<MatchRecord>): Result<string, ParserError> {
    if !KeyExists(parsed, keyPath) then Failure(NoMatch)
    else match rec
      case None => Failure(NoMatch)
      case Some(r) => Success(RemovedEntry(Slice(text, 0, r.startChangeIndex), SliceFrom(text, r.endChangeIndex), r.hasComma))
  }

  /** renamekey in preserve mode: the entry rewritten with the new key and the old value as text. */
  function RenamePreserveWith(text: string, parsed: Json, keyPath: string, newKey: string, rec: Option<MatchRecord>): Result<string, ParserError> {
    if !KeyExists(parsed, keyPath) then Failure(NoMatch)
    else match rec
      case None => Failure(NoMatch)
      case Some(r) =>
        var entry := EntryText(newKey, ToJsString(KeyValue(parsed, keyPath)), r.comma);
        Success(Splice(text, r.startChangeIndex, r.endChangeIndex, entry))
  }

  /** updateKey in preserve mode: the entry rewritten with the last key and the new value. */
  function UpdatePreserveWith(text: string, parsed: Json, keyPath: string, newValue: string, rec: Option<MatchRecord>): Result<string, ParserError> {
    if !KeyExists(parsed, keyPath) then Failure(NoMatch)
    else match rec
      case None => Failure(NoMatch)
      case Some(r) => Success(Splice(text, r.startChangeIndex, r.endChangeIndex, EntryText(LastKey(keyPath), newValue, r.comma)))
  }

  function RecordOf(m: Option<RegexMatch>): Option<MatchRecord> {
    match m
    case None => None
    case Some(x) => Some(GetRegexMatches(x))
  }

  function RecordOfAsWritten(m: Option<RegexMatch>): Option<MatchRecord> {
    match m
    case None => None
    case Some(x) => Some(GetRegexMatchesAsWritten(x))
  }

  /** updateKey in preserve mode as written. */
  function UpdatePreserveAsWritten(text: string, parsed: Json, keyPath: string, newValue: string, m: Option<RegexMatch>): Result<string, ParserError> {
    UpdatePreserveWith(text, parsed, keyPath, newValue, RecordOfAsWritten(m))
  }

  /** updateKey in preserve mode with document offsets. */
  function UpdatePreserve(text: string, parsed: Json, keyPath: string, newValue: string, m: Option<RegexMatch>): Result<string, ParserError> {
    UpdatePreserveWith(text, parsed, keyPath, newValue, RecordOf(m))
  }

  /** Without the key in the parsed file, or without a match, every preserve-mode edit throws NoMatch. */
  lemma PreserveNoMatch(text: string, parsed: Json, keyPath: string, s: string, m: Option<RegexMatch>)
    requires !KeyExists(parsed, keyPath) || m.None?
    ensures RemovePreserveWith(text, parsed, keyPath, RecordOf(m)) == Failure(NoMatch)
    ensures RenamePreserveWith(text, parsed, keyPath, s, RecordOf(m)) == Failure(NoMatch)
    ensures UpdatePreserve(text, parsed, keyPath, s, m) == Failure(NoMatch)
  {
  }

  /** A splice inside the text keeps what lies before and after the replaced span. */
  lemma SpliceInside(text: string, start: int, end: int, insert: string)
    requires 0 <= start <= end <= |text|
    ensures Splice(text, start, end, insert) == text[..start] + insert + text[end..]
  {
  }

  /** An update of a key that exists, on a located record, is the splice of the new entry at the record's offsets. */
  lemma UpdatePreserveWithSplice(text: string, parsed: Json, keyPath: string, newValue: string, r: MatchRecord)
    requires KeyExists(parsed, keyPath)
    ensures UpdatePreserveWith(text, parsed, keyPath, newValue, Some(r))
      == Success(Splice(text, r.startChangeIndex, r.endChangeIndex, EntryText(LastKey(keyPath), newValue, r.comma)))
  {
  }

  /** A rename of a key that exists, on a located record, is the splice of the renamed entry at the record's offsets. */
  lemma RenamePreserveWithSplice(text: string, parsed: Json, keyPath: string, newKey: string, r: MatchRecord)
    requires KeyExists(parsed, keyPath)
    ensures RenamePreserveWith(text, parsed, keyPath, newKey, Some(r))
      == Success(Splice(text, r.startChangeIndex, r.endChangeIndex, EntryText(newKey, ToJsString(KeyValue(parsed, keyPath)), r.comma)))
  {
  }

  /**
   * Preserve-mode rename and update replace exactly the captured entry and its
   * comma; the text before and after is kept, and the new entry ends with a
   * comma exactly when the old one did.
   */
  lemma PreserveSpliceSpec(text: string, parsed: Json, keyPath: string, s: string, m: RegexMatch)
    requires KeyExists(parsed, keyPath) && CapturesEntry(text, m)
    ensures var r := GetRegexMatches(m);
      var g := m.group1.value + m.group2.value;
      var old_ := ToJsString(KeyValue(parsed, keyPath));
      && 0 <= r.startChangeIndex <= r.endChangeIndex <= |text|
      && text == text[..r.startChangeIndex] + g + text[r.endChangeIndex..]
      && UpdatePreserve(text, parsed, keyPath, s, Some(m))
           == Success(text[..r.startChangeIndex] + EntryText(LastKey(keyPath), s, m.group2) + text[r.endChangeIndex..])
      && RenamePreserveWith(text, parsed, keyPath, s, RecordOf(Some(m)))
           == Success(text[..r.startChangeIndex] + EntryText(s, old_, m.group2) + text[r.endChangeIndex..])
  {
    RecordCoversCapture(text, m);
    var r := GetRegexMatches(m);
    assert text == text[..r.startChangeIndex] + text[r.startChangeIndex..r.endChangeIndex] + text[r.endChangeIndex..];
    UpdatePreserveWithSplice(text, parsed, keyPath, s, r);
    RenamePreserveWithSplice(text, parsed, keyPath, s, r);
    SpliceInside(text, r.startChangeIndex, r.endChangeIndex, EntryText(LastKey(keyPath), s, r.comma));
    SpliceInside(text, r.startChangeIndex, r.endChangeIndex, EntryText(s, ToJsString(KeyValue(parsed, keyPath)), r.comma));
  }

  /** A rewritten entry ends with a comma exactly when the captured comma group is `,`. */
  lemma EntryTextComma(key: string, value: string, comma: string)
    requires comma == "" || comma == ","
    ensures EndsWith(EntryText(key, value, Some(comma)), ",") <==> comma == ","
  {
    var e := EntryText(key, value, Some(comma));
    assert e == "\"" + key + "\": \"" + value + "\"" + comma;
    assert e[|e| - 1] == (if comma == "" then '"' else ',');
  }

  /** Preserve-mode remove on a captured entry: the comma repair of the text around it. */
  lemma RemovePreserveSpec(text: string, parsed: Json, keyPath: string, m: RegexMatch)
    requires KeyExists(parsed, keyPath) && CapturesEntry(text, m)
    ensures var r := GetRegexMatches(m);
      && 0 <= r.startChangeIndex <= r.endChangeIndex <= |text|
      && RemovePreserveWith(text, parsed, keyPath, RecordOf(Some(m)))
           == Success(RemovedEntry(text[..r.startChangeIndex], text[r.endChangeIndex..], m.group2.value == ","))
  {
    RecordCoversCapture(text, m);
  }

  // ---------------------------------------------------------------------------
  // Structural mode

  /**
   * The object holding the last key. getParentObject is not part of this
   * model; the parent is the object reached along the intermediate segments.
   */
  function ParentOf(tree: Json, keyPath: string): Option<seq<Member>> {
    match Reach(tree, Parents(keyPath))
    case Some(Obj(ms)) => Some(ms)
    case _ => None
  }

  /** The tree with the parent object changed in place to `ms`. */
  function WithParent(tree: Json, keyPath: string, ms: seq<Member>): Json {
    ReplaceAt(tree, Parents(keyPath), Obj(ms))
  }

  /** Changing the parent in place: the same path then reaches the new parent. */
  lemma ParentOfWithParent(tree: Json, keyPath: string, ms: seq<Member>)
    requires ParentOf(tree, keyPath).Some?
    ensures ParentOf(WithParent(tree, keyPath, ms), keyPath) == Some(ms)
  {
    ReachReplaceAt(tree, Parents(keyPath), Obj(ms));
  }

  /** removeKey in structural mode: `delete parent[lastKey]`. */
  function RemoveInTree(tree: Json, keyPath: string): Result<Json, ParserError> {
    var lastKey := LastKey(keyPath);
    match ParentOf(tree, keyPath)
    case None => Failure(KeyPathNotFound(keyPath))
    case Some(ms) =>
      if !HasKey(ms, lastKey) then Failure(KeyPathNotFound(keyPath))
      else Success(WithParent(tree, keyPath, DeleteProp(ms, lastKey)))
  }

  /** The parent after `parent[newKey] = parent[lastKey]; delete parent[lastKey]`, as written. */
  function RenamedParentAsWritten(ms: seq<Member>, lastKey: string, newKey: string): seq<Member> {
    DeleteProp(SetProp(ms, newKey, Lookup(ms, lastKey)), lastKey)
  }

  /** The parent after a rename that leaves it alone when the name does not change. */
  function RenamedParent(ms: seq<Member>, lastKey: string, newKey: string): seq<Member> {
    if newKey == lastKey then ms else RenamedParentAsWritten(ms, lastKey, newKey)
  }

  /** renamekey in structural mode as written. */
  function RenameInTreeAsWritten(tree: Json, keyPath: string, newKey: string): Result<Json, ParserError> {
    var lastKey := LastKey(keyPath);
    match ParentOf(tree, keyPath)
    case None => Failure(KeyPathNotFound(keyPath))
    case Some(ms) =>
      if !HasKey(ms, lastKey) then Failure(KeyPathNotFound(keyPath))
      else Success(WithParent(tree, keyPath, RenamedParentAsWritten(ms, lastKey, newKey)))
  }

  /** renamekey in structural mode, keeping the entry when the new name is the old one. */
  function RenameInTree(tree: Json, keyPath: string, newKey: string): Result<Json, ParserError> {
    var lastKey := LastKey(keyPath);
    match ParentOf(tree, keyPath)
    case None => Failure(KeyPathNotFound(keyPath))
    case Some(ms) =>
      if !HasKey(ms, lastKey) then Failure(KeyPathNotFound(keyPath))
      else Success(WithParent(tree, keyPath, RenamedParent(ms, lastKey, newKey)))
  }

  /** updateKey in structural mode: `parent[lastKey] = newValue`. */
  function UpdateInTree(tree: Json, keyPath: string, newValue: string): Result<Json, ParserError> {
    var lastKey := LastKey(keyPath);
    match ParentOf(tree, keyPath)
    case None => Failure(KeyPathNotFound(keyPath))
    case Some(ms) =>
      if !HasKey(ms, lastKey) then Failure(KeyPathNotFound(keyPath))
      else Success(WithParent(tree, keyPath, SetProp(ms, lastKey, Str(newValue))))
  }

  /** `value || lastKey` for a string value. */
  function ValueOrKey(value: string, lastKey: string): string {
    if value == "" then lastKey else value
  }

  /** addKey in structural mode: an existing key is updated, a new one is set; `value || lastKey` either way. */
  function AddInTree(tree: Json, keyPath: string, value: string): Result<Json, ParserError> {
    var lastKey := LastKey(keyPath);
    match ParentOf(tree, keyPath)
    case None => Failure(NoParentObject(keyPath))
    case Some(ms) =>
      if HasKey(ms, lastKey) then UpdateInTree(tree, keyPath, ValueOrKey(value, lastKey))
      else Success(WithParent(tree, keyPath, SetProp(ms, lastKey, Str(ValueOrKey(value, lastKey)))))
  }

  /**
   * Structural remove succeeds exactly when the parent holds the last key; the
   * parent then loses that key and keeps every other property.
   */
  lemma RemoveInTreeSpec(tree: Json, keyPath: string, k: string)
    ensures var p := ParentOf(tree, keyPath);
      var lastKey := LastKey(keyPath);
      && (RemoveInTree(tree, keyPath).Success? <==> p.Some? && HasKey(p.value, lastKey))
      && (RemoveInTree(tree, keyPath).Failure? ==> RemoveInTree(tree, keyPath).error == KeyPathNotFound(keyPath))
      && (RemoveInTree(tree, keyPath).Success? ==>
            var q := ParentOf(RemoveInTree(tree, keyPath).value, keyPath);
            && q.Some? && !HasKey(q.value, lastKey)
            && (k != lastKey ==> Lookup(q.value, k) == Lookup(p.value, k) && (HasKey(q.value, k) <==> HasKey(p.value, k))))
  {
    var p := ParentOf(tree, keyPath);
    var lastKey := LastKey(keyPath);
    if p.Some? && HasKey(p.value, lastKey) {
      ParentOfWithParent(tree, keyPath, DeleteProp(p.value, lastKey));
      if k != lastKey {
        LookupDeleteProp(p.value, lastKey, k);
        KeysDeleteProp(p.value, lastKey, k);
      }
    }
  }

  /** Structural update: the last key now holds the new string, the parent's keys and other values are unchanged. */
  lemma UpdateInTreeSpec(tree: Json, keyPath: string, newValue: string, k: string)
    ensures var p := ParentOf(tree, keyPath);
      var lastKey := LastKey(keyPath);
      && (UpdateInTree(tree, keyPath, newValue).Success? <==> p.Some? && HasKey(p.value, lastKey))
      && (UpdateInTree(tree, keyPath, newValue).Success? ==>
            var q := ParentOf(UpdateInTree(tree, keyPath, newValue).value, keyPath);
            && q.Some? && Keys(q.value) == Keys(p.value)
            && Lookup(q.value, k) == (if k == lastKey then Str(newValue) else Lookup(p.value, k)))
  {
    var p := ParentOf(tree, keyPath);
    var lastKey := LastKey(keyPath);
    if p.Some? && HasKey(p.value, lastKey) {
      ParentOfWithParent(tree, keyPath, SetProp(p.value, lastKey, Str(newValue)));
      LookupSetProp(p.value, lastKey, Str(newValue), k);
    }
  }

  /**
   * Structural rename: the value moves from the last key to the new key and
   * every other property is unchanged; renaming a key to itself changes nothing.
   */
  lemma RenameInTreeSpec(tree: Json, keyPath: string, newKey: string, k: string)
    ensures var p := ParentOf(tree, keyPath);
      var lastKey := LastKey(keyPath);
      && (RenameInTree(tree, keyPath, newKey).Success? <==> p.Some? && HasKey(p.value, lastKey))
      && (RenameInTree(tree, keyPath, newKey).Success? ==>
            var q := ParentOf(RenameInTree(tree, keyPath, newKey).value, keyPath);
            && q.Some?
            && Lookup(q.value, newKey) == Lookup(p.value, lastKey)
            && (newKey == lastKey ==> q.value == p.value)
            && (newKey != lastKey ==> !HasKey(q.value, lastKey))
            && (k != lastKey && k != newKey ==> Lookup(q.value, k) == Lookup(p.value, k)))
  {
    var p := ParentOf(tree, keyPath);
    var lastKey := LastKey(keyPath);
    if p.Some? && HasKey(p.value, lastKey) {
      var ms := p.value;
      ParentOfWithParent(tree, keyPath, RenamedParent(ms, lastKey, newKey));
      if newKey != lastKey {
        var set_ := SetProp(ms, newKey, Lookup(ms, lastKey));
        LookupSetProp(ms, newKey, Lookup(ms, lastKey), newKey);
        LookupDeleteProp(set_, lastKey, newKey);
        if k != lastKey && k != newKey {
          LookupSetProp(ms, newKey, Lookup(ms, lastKey), k);
          LookupDeleteProp(set_, lastKey, k);
        }
      }
    }
  }

  /** As written, renaming a key to its own name deletes it from the parent. */
  lemma RenameToSameKeyAsWritten(ms: seq<Member>, lastKey: string)
    ensures !HasKey(RenamedParentAsWritten(ms, lastKey, lastKey), lastKey)
    ensures HasKey(ms, lastKey) ==> RenamedParentAsWritten(ms, lastKey, lastKey) != ms
  {
  }

  /**
   * Structural add fails only without a parent; otherwise the last key holds
   * `value || lastKey`, an existing key keeps its place (no duplicate) and a
   * new key goes last.
   */
  lemma AddInTreeSpec(tree: Json, keyPath: string, value: string)
    ensures var p := ParentOf(tree, keyPath);
      var lastKey := LastKey(keyPath);
      var r := AddInTree(tree, keyPath, value);
      && (r.Success? <==> p.Some?)
      && (r.Failure? ==> r.error == NoParentObject(keyPath))
      && (r.Success? ==>
            var q := ParentOf(r.value, keyPath);
            && q.Some?
            && Lookup(q.value, lastKey) == Str(ValueOrKey(value, lastKey))
            && (HasKey(p.value, lastKey) ==> Keys(q.value) == Keys(p.value))
            && (!HasKey(p.value, lastKey) ==> q.value == p.value + [Member(lastKey, Str(ValueOrKey(value, lastKey)))]))
  {
    var p := ParentOf(tree, keyPath);
    var lastKey := LastKey(keyPath);
    if p.Some? {
      var v := Str(ValueOrKey(value, lastKey));
      ParentOfWithParent(tree, keyPath, SetProp(p.value, lastKey, v));
      LookupSetProp(p.value, lastKey, v, lastKey);
    }
  }

  // ---------------------------------------------------------------------------
  // Findings shown on concrete files

  /** The path `a.b` exists in `{"a": {"b": "x"}}`, with parent segments `["a"]` and last key `b`. */
  lemma KeyPathAB()
    ensures Parents("a.b") == ["a"] && LastKey("a.b") == "b"
    ensures KeyExists(Obj([Member("a", Obj([Member("b", Str("x"))]))]), "a.b")
  {
    assert "a.b"[1..] == ".b" && ".b"[1..] == "b";
    assert IndexOfChar(".b", '.') == 0;
    assert IndexOfChar("a.b", '.') == 1;
    assert "a.b"[..1] == "a" && "a.b"[2..] == "b";
    assert "b"[1..] == [];
    assert IndexOfChar("b", '.') == -1;
    assert Split("b", '.') == ["b"];
    assert Split("a.b", '.') == ["a", "b"];
    var ms := [Member("b", Str("x"))];
    assert Lookup([Member("a", Obj(ms))], "a") == Obj(ms);
    assert Lookup(ms, "b") == Str("x");
  }

  /** The path `a` exists in `{"a": "x"}`, with no parent segment. */
  lemma KeyPathA()
    ensures Parents("a") == [] && LastKey("a") == "a"
    ensures KeyExists(Obj([Member("a", Str("x"))]), "a")
  {
    assert "a"[1..] == [];
    assert IndexOfChar("a", '.') == -1;
    assert Lookup([Member("a", Str("x"))], "a") == Str("x");
  }

  /** The match of `a.b` in a file that starts with a newline: it begins at offset 1. */
  lemma NestedMatch()
    ensures CapturesEntry("\n{\"a\": {\"b\": \"x\"}}",
      RegexMatch(1, "{\"a\": {\"b\": \"x\"", Some("\"b\": \"x\""), Some("")))
    ensures LastIndexOf("{\"a\": {\"b\": \"x\"", "\"b\": \"x\"") == 7
  {
    var text := "\n{\"a\": {\"b\": \"x\"}}";
    var whole := "{\"a\": {\"b\": \"x\"";
    var g1 := "\"b\": \"x\"";
    assert text[1..16] == whole;
    assert whole == "{\"a\": {" + g1 + "";
    assert EndsWith(whole, g1 + "");
    RecordSpansCapture(whole, "{\"a\": {", g1, "");
  }

  lemma NestedSplices()
    ensures Splice("\n{\"a\": {\"b\": \"x\"}}", 7, 15, EntryText("b", "y", Some("")))
      == "\n{\"a\": \"b\": \"y\"\"}}"
    ensures Splice("\n{\"a\": {\"b\": \"x\"}}", 8, 16, EntryText("b", "y", Some("")))
      == "\n{\"a\": {\"b\": \"y\"}}"
  {
    var text := "\n{\"a\": {\"b\": \"x\"}}";
    assert EntryText("b", "y", Some("")) == "\"b\": \"y\"";
    assert text[..7] == "\n{\"a\": " && text[15..] == "\"}}";
    assert text[..8] == "\n{\"a\": {" && text[16..] == "}}";
  }

  /**
   * updateKey `a.b` to `y` in a file that starts with a newline: the offsets
   * as written splice one character too early and break the file.
   */
  lemma NestedUpdateAsWritten()
    ensures UpdatePreserveAsWritten("\n{\"a\": {\"b\": \"x\"}}", Obj([Member("a", Obj([Member("b", Str("x"))]))]), "a.b", "y",
      Some(RegexMatch(1, "{\"a\": {\"b\": \"x\"", Some("\"b\": \"x\""), Some(""))))
      == Success("\n{\"a\": \"b\": \"y\"\"}}")
  {
    var m := RegexMatch(1, "{\"a\": {\"b\": \"x\"", Some("\"b\": \"x\""), Some(""));
    KeyPathAB();
    NestedMatch();
    NestedSplices();
    UpdatePreserveWithSplice("\n{\"a\": {\"b\": \"x\"}}", Obj([Member("a", Obj([Member("b", Str("x"))]))]), "a.b", "y",
      GetRegexMatchesAsWritten(m));
  }

  /** The same update with document offsets rewrites only the entry. */
  lemma NestedUpdate()
    ensures UpdatePreserve("\n{\"a\": {\"b\": \"x\"}}", Obj([Member("a", Obj([Member("b", Str("x"))]))]), "a.b", "y",
      Some(RegexMatch(1, "{\"a\": {\"b\": \"x\"", Some("\"b\": \"x\""), Some(""))))
      == Success("\n{\"a\": {\"b\": \"y\"}}")
  {
    var m := RegexMatch(1, "{\"a\": {\"b\": \"x\"", Some("\"b\": \"x\""), Some(""));
    KeyPathAB();
    NestedMatch();
    NestedSplices();
    UpdatePreserveWithSplice("\n{\"a\": {\"b\": \"x\"}}", Obj([Member("a", Obj([Member("b", Str("x"))]))]), "a.b", "y",
      GetRegexMatches(m));
  }

  lemma TopLevelSpliceAsWritten()
    ensures Splice("{\"a\": \"x\"}", -1, 5, EntryText("a", "y", None))
      == "{\"a\": \"x\"\"a\": \"y\"undefined \"x\"}"
  {
    var text := "{\"a\": \"x\"}";
    assert EntryText("a", "y", None) == "\"a\": \"y\"undefined";
    assert Slice(text, 0, -1) == text[..9];
    assert text[..9] == "{\"a\": \"x\"" && text[5..] == " \"x\"}";
  }

  lemma TopLevelSplice()
    ensures Splice("{\"a\": \"x\"}", 1, 9, EntryText("a", "y", Some("")))
      == "{\"a\": \"y\"}"
  {
    var text := "{\"a\": \"x\"}";
    assert EntryText("a", "y", Some("")) == "\"a\": \"y\"";
    assert text[..1] == "{" && text[9..] == "}";
  }

  /** The as-written record of the group-less match of `a`: it starts at -1. */
  lemma TopLevelRecordAsWritten()
    ensures var r := GetRegexMatchesAsWritten(RegexMatch(0, "{\"a\":", None, None));
      r.startChangeIndex == -1 && r.endChangeIndex == 5 && r.comma == None
  {
    LastIndexOfBelowNone("{\"a\":", "undefined", 6);
  }

  /**
   * updateKey `a` to `y` as written: the pattern has no groups, the start
   * offset is `lastIndexOf("undefined")`, i.e. -1, and the text is corrupted.
   */
  lemma TopLevelUpdateAsWritten()
    ensures CountChar(PatternAsWritten("a"), '(') == 0
    ensures UpdatePreserveAsWritten("{\"a\": \"x\"}", Obj([Member("a", Str("x"))]), "a", "y",
      Some(RegexMatch(0, "{\"a\":", None, None)))
      == Success("{\"a\": \"x\"\"a\": \"y\"undefined \"x\"}")
  {
    PatternGroupsAsWritten("a");
    KeyPathA();
    TopLevelRecordAsWritten();
    TopLevelSpliceAsWritten();
    UpdatePreserveWithSplice("{\"a\": \"x\"}", Obj([Member("a", Str("x"))]), "a", "y",
      GetRegexMatchesAsWritten(RegexMatch(0, "{\"a\":", None, None)));
  }

  /** The match of `a` under the corrected pattern captures the entry, at offset 1. */
  lemma TopLevelMatch()
    ensures CapturesEntry("{\"a\": \"x\"}", RegexMatch(0, "{\"a\": \"x\"", Some("\"a\": \"x\""), Some("")))
    ensures LastIndexOf("{\"a\": \"x\"", "\"a\": \"x\"") == 1
  {
    var text := "{\"a\": \"x\"}";
    var whole := "{\"a\": \"x\"";
    var g1 := "\"a\": \"x\"";
    assert text[0..9] == whole;
    assert whole == "{" + g1 + "";
    assert EndsWith(whole, g1 + "");
    RecordSpansCapture(whole, "{", g1, "");
  }

  /** With the corrected pattern the match captures the entry and the update rewrites only it. */
  lemma TopLevelUpdate()
    ensures CountChar(Pattern("a"), '(') == 2
    ensures var text := "{\"a\": \"x\"}";
      var m := RegexMatch(0, "{\"a\": \"x\"", Some("\"a\": \"x\""), Some(""));
      && CapturesEntry(text, m)
      && UpdatePreserve(text, Obj([Member("a", Str("x"))]), "a", "y", Some(m)) == Success("{\"a\": \"y\"}")
  {
    PatternGroups("a");
    KeyPathA();
    TopLevelMatch();
    TopLevelSplice();
    UpdatePreserveWithSplice("{\"a\": \"x\"}", Obj([Member("a", Str("x"))]), "a", "y",
      GetRegexMatches(RegexMatch(0, "{\"a\": \"x\"", Some("\"a\": \"x\""), Some(""))));
  }

  /** Renaming `a` to `a` in `{"a": "x"}`: as written the entry is lost; corrected, the file is unchanged. */
  lemma RenameToSameKeyExample()
    ensures var tree := Obj([Member("a", Str("x"))]);
      && RenameInTreeAsWritten(tree, "a", "a") == Success(Obj([]))
      && RenameInTree(tree, "a", "a") == Success(tree)
  {
    KeyPathA();
    var ms := [Member("a", Str("x"))];
    assert HasKey(ms, "a") by { assert Keys(ms)[0] == "a"; }
    assert SetProp(ms, "a", Str("x")) == ms;
    assert DeleteProp(ms, "a") == [];
  }

  // ---------------------------------------------------------------------------
  // The parser object

  /** How an operation's result lands in the state: the new value written, or the old one kept and the error reported. */
  predicate Applied<T(==)>(res: Result<T, ParserError>, before: T, after: T, err: Option<ParserError>) {
    && (res.Success? ==> after == res.value && err == None)
    && (res.Failure? ==> after == before && err == Some(res.error))
  }

  /**
   * A parser bound to one translation file: its text, edited in preserve
   * mode, and its parsed tree, edited otherwise. In preserve mode each
   * operation also receives the parsed text and the match of Pattern(keyPath)
   * in the text.
   */
  class JsonParser {
    const preserveFormatting: bool
    var text: string
    var tree: Json

    constructor(preserveFormatting: bool, text: string, tree: Json)
      ensures this.preserveFormatting == preserveFormatting && this.text == text && this.tree == tree
    {
      this.preserveFormatting := preserveFormatting;
      this.text := text;
      this.tree := tree;
    }

    /** removeKey. */
    method RemoveKey(keyPath: string, parsed: Json, m: Option<RegexMatch>) returns (err: Option<ParserError>)
      modifies this
      ensures preserveFormatting ==>
        Applied(RemovePreserveWith(old(text), parsed, keyPath, RecordOf(m)), old(text), text, err) && tree == old(tree)
      ensures !preserveFormatting ==>
        Applied(RemoveInTree(old(tree), keyPath), old(tree), tree, err) && text == old(text)
    {
      if preserveFormatting {
        var exists_ := CheckExistKey(parsed, keyPath);
        if !exists_ || m.None? {
          return Some(NoMatch);
        }
        var matches := GetRegexMatches(m.value);
        var updatedContent := RemoveEntry(
          Slice(text, 0, matches.startChangeIndex), SliceFrom(text, matches.endChangeIndex), matches.hasComma);
        text := updatedContent;
        return None;
      } else {
        var parent := ParentOf(tree, keyPath);
        var lastKey := LastKey(keyPath);
        if parent.None? || !HasKey(parent.value, lastKey) {
          return Some(KeyPathNotFound(keyPath));
        }
        tree := WithParent(tree, keyPath, DeleteProp(parent.value, lastKey));
        return None;
      }
    }

    /** renamekey. */
    method RenameKey(keyPath: string, newKey: string, parsed: Json, m: Option<RegexMatch>) returns (err: Option<ParserError>)
      modifies this
      ensures preserveFormatting ==>
        Applied(RenamePreserveWith(old(text), parsed, keyPath, newKey, RecordOf(m)), old(text), text, err) && tree == old(tree)
      ensures !preserveFormatting ==>
        Applied(RenameInTree(old(tree), keyPath, newKey), old(tree), tree, err) && text == old(text)
    {
      if preserveFormatting {
        var exists_ := CheckExistKey(parsed, keyPath);
        if !exists_ || m.None? {
          return Some(NoMatch);
        }
        var matches := GetRegexMatches(m.value);
        var value := GetKeyValue(parsed, keyPath);
        var objData := EntryText(newKey, ToJsString(value), matches.comma);
        text := Splice(text, matches.startChangeIndex, matches.endChangeIndex, objData);
        return None;
      } else {
        var parent := ParentOf(tree, keyPath);
        var lastKey := LastKey(keyPath);
        if parent.None? || !HasKey(parent.value, lastKey) {
          return Some(KeyPathNotFound(keyPath));
        }
        tree := WithParent(tree, keyPath, RenamedParent(parent.value, lastKey, newKey));
        return None;
      }
    }

    /** updateKey. */
    method UpdateKey(keyPath: string, newValue: string, parsed: Json, m: Option<RegexMatch>) returns (err: Option<ParserError>)
      modifies this
      ensures preserveFormatting ==>
        Applied(UpdatePreserve(old(text), parsed, keyPath, newValue, m), old(text), text, err) && tree == old(tree)
      ensures !preserveFormatting ==>
        Applied(UpdateInTree(old(tree), keyPath, newValue), old(tree), tree, err) && text == old(text)
    {
      if preserveFormatting {
        var exists_ := CheckExistKey(parsed, keyPath);
        if !exists_ || m.None? {
          return Some(NoMatch);
        }
        var matches := GetRegexMatches(m.value);
        var objData := EntryText(LastKey(keyPath), newValue, matches.comma);
        text := Splice(text, matches.startChangeIndex, matches.endChangeIndex, objData);
        return None;
      } else {
        var parent := ParentOf(tree, keyPath);
        var lastKey := LastKey(keyPath);
        if parent.None? || !HasKey(parent.value, lastKey) {
          return Some(KeyPathNotFound(keyPath));
        }
        tree := WithParent(tree, keyPath, SetProp(parent.value, lastKey, Str(newValue)));
        return None;
      }
    }

    /** addKey in structural mode; an existing key is handed to UpdateKey. */
    method AddKey(keyPath: string, value: string) returns (err: Option<ParserError>)
      requires !preserveFormatting
      modifies this
      ensures Applied(AddInTree(old(tree), keyPath, value), old(tree), tree, err) && text == old(text)
    {
      var parent := ParentOf(tree, keyPath);
      if parent.None? {
        return Some(NoParentObject(keyPath));
      }
      var lastKey := LastKey(keyPath);
      if HasKey(parent.value, lastKey) {
        err := UpdateKey(keyPath, ValueOrKey(value, lastKey), tree, None);
        return;
      }
      tree := WithParent(tree, keyPath, SetProp(parent.value, lastKey, Str(ValueOrKey(value, lastKey))));
      return None;
    }
  }
}
