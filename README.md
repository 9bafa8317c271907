# json-i18n-key: a verified model of the key-editing core

json-i18n-key is a VS Code extension for i18n translation files. It adds,
renames, updates and removes dotted keys (`common.buttons.ok`) in JSON
translation files. It also completes key paths while the user types, and
warns about keys used in source code that the translation files lack.

This project models the logic behind those features:

- `JsonStringManipulator` edits the JSON document as text, so the file keeps
  its formatting. Its character scanners track `depth`, `inString`, `escaped`
  and `currentKey`. It also has a brace-balanced prefix finder, key-path
  validation and a JSON value encoder.
- `JsonParser` is the second generation of the same operations. Its
  preserve-formatting mode splices the text at offsets taken from a regex
  match. Its structural mode edits one property of a parsed parent object.
- The tree walks of `jsonUtils.js` check whether a key exists, read a value,
  add a key (creating missing intermediate objects), rename a key in place,
  list child keys and find a key's line.
- `convertCase` converts keys to camel, Pascal, snake or kebab case.
- The completion candidates offered while a key path is typed.
- The diagnostic manager's key set, its missing-key diagnostics and the key
  it recovers from a diagnostic message.

JSON values are a datatype. `Undefined` stands for JavaScript's
`undefined`. Objects are ordered member sequences, so key order (which the
rename keeps) is part of the model. JavaScript's truthiness, `slice` with
negative indices, `lastIndexOf`, `trim`, `split`, `replace` with a string
pattern (first occurrence; `ReplaceFirst` inserts the replacement literally,
`JsReplaceFirst` expands its `$` patterns as JavaScript does) and
template-string coercion are defined in `strings.dfy` and `js_values.dfy`.

Each imperative operation is a method whose loop is proved against a
specification function: the scanners, the comma repair, the pattern builder,
the cursor walks and the line search. The properties are then proved about
those functions. The two classes whose fields the source updates,
`JsonStringManipulator` (the document text) and `DiagnosticManager` (the key
set), are classes here too. Where the code as written disagrees with its
evident intent, both are modelled: see "Findings".

Files:

- `wrappers.dfy`: `Option` and `Result`.
- `strings.dfy`: the JavaScript string operations.
- `js_values.dfy`: the JSON value datatype, truthiness and property get, set and delete.
- `key_scanner.dfy`: the character scanner state machine, the value-end scan and `parseObjectString`.
- `string_manipulator.dfy`: the in-object edits and the class `JsonStringManipulator`.
- `json_parser.dfy`: the class `JsonParser`.
- `json_utils.dfy`: the walks of `jsonUtils.js`.
- `key_format.dfy`: `convertCase`.
- `completion.dfy`: the completion candidates.
- `diagnostics.dfy`: the class `DiagnosticManager`.

## Model

| member | source | states |
|---|---|---|
| KeyScanner.ParseObjectString | src/utils/JsonStringManipulator.ts:8-26 | the result is a prefix of the input; it ends at the first brace where the running `{`/`}` count returns to 0, or is the whole input if the count never does |
| KeyScanner.FirstCloseIsClosingBrace | src/utils/JsonStringManipulator.ts:12-22 | on text that opens with `{`, the brace where the count first returns to 0 is a `}` |
| KeyScanner.CheckKeyExistsInObject | src/utils/JsonStringManipulator.ts:196-247 | true exactly when some position is a hit: a closing quote at depth 0 whose string token equals the key, followed by `:` |
| KeyScanner.ScanChar | src/utils/JsonStringManipulator.ts:259-290 | one pass of the scanner loop body equals the transition function `Step`; in the rename/remove mode the escape branch fires only at the last index and depth is tracked only for a key with a `.`, while checkKeyExistsInObject's copy (lines 203-233) escapes at every index |
| KeyScanner.FirstHitMinimal | src/utils/JsonStringManipulator.ts:293-298 | no position before the first hit is a hit, so the scanners stop at the leftmost key token |
| KeyScanner.KeyTokenAtHit | src/utils/JsonStringManipulator.ts:287-298 | at a hit, `currentKey` is `"` plus the key, and the text ending at the hit is the quoted key |
| KeyScanner.ScanValueEnd | src/utils/JsonStringManipulator.ts:304-339 | the value scan stops at the first `,` or `}` at depth 0 outside a string, or at the end of the text |
| StringManipulator.ValidKeyPathIffWellDotted | src/utils/JsonStringManipulator.ts:44-46 | on a path without white space, the path is valid iff it is non-empty and has no leading, trailing or doubled `.` |
| StringManipulator.JsonStringManipulator.GetObject | src/utils/JsonStringManipulator.ts:64-189 | an invalid key path fails with "Invalid key Path" and leaves the document unchanged; otherwise the located parent span is returned and the document becomes its text |
| StringManipulator.ValueToJsonString | src/utils/JsonStringManipulator.ts:48-62 | null and undefined give `null`; a number gives `IntToString` of it and a boolean `true` or `false`; a string gives a JSON literal that decodes back to it (with the corrected escape of the Findings row for line 51); arrays give `[..]` and objects `{..}` |
| StringManipulator.ArrayEncodingCons | src/utils/JsonStringManipulator.ts:53-54 | an array is encoded element by element: `[]` when empty, `[x]` for one element, and the first element's encoding, `, ` and the rest's encoding after its `[` otherwise |
| StringManipulator.ObjectEncodingCons | src/utils/JsonStringManipulator.ts:55-60 | an object is encoded member by member: `{}` when empty, and each member as the quoted key (not escaped), `: ` and the value's encoding, joined by `, ` |
| StringManipulator.DecodeEscapeJson | src/utils/JsonStringManipulator.ts:50-52 | escaping `"` and `\` and adding the closing quote yields a literal body that decodes to the original string |
| StringManipulator.RenameKeyInObject | src/utils/JsonStringManipulator.ts:249-357 | the scanning method computes `Renamed`: with no hit the input is returned unchanged |
| StringManipulator.RenameSwapsToken | src/utils/JsonStringManipulator.ts:341-344 | on a hit, the result is the text before the key's opening quote, then the quoted new key, then the original text from the `:` onward |
| StringManipulator.RemoveKeyFromObject | src/utils/JsonStringManipulator.ts:359-491 | the scanning method computes `Removed`: with no hit the input is returned unchanged (corrected start of the cut; see the Findings row for JsonStringManipulator.ts:411) |
| StringManipulator.RemovedSpan | src/utils/JsonStringManipulator.ts:411-478 | on a hit, the quoted key sits at `k`; the text before it (less the one character before `k` when that character is white space) is joined with the text after the entry, less a `}` directly after it (corrected; see the Findings row for JsonStringManipulator.ts:411) |
| StringManipulator.RemovedMiddleEntry | src/utils/JsonStringManipulator.ts:443-448 | an entry followed by `,` and another quoted key goes together with its comma; the trailing white space before it goes too |
| StringManipulator.RemovedLastEntry | src/utils/JsonStringManipulator.ts:472-476 | the last entry's removal drops the comma before it and puts the last white-space run before the entry's own indent in its place |
| StringManipulator.RemovedLastIndented | src/utils/JsonStringManipulator.ts:411-476 | the same for a last entry indented by white space: the run put back is the one before that indent character |
| StringManipulator.RemovedLastCompact | src/utils/JsonStringManipulator.ts:411-476 | the same for a last entry right after its comma: the run put back is the last one of the kept text |
| StringManipulator.RemovedAgreesWhenIndented | src/utils/JsonStringManipulator.ts:411 | when the character before the key's opening quote is white space, the cut as written and the corrected cut give the same text |
| StringManipulator.RemovedAfterCommaAsWritten | src/utils/JsonStringManipulator.ts:411-478 | for a middle entry right after its comma, the cut as written loses that comma (the kept text is trimmed and the next entry follows it), while the corrected cut keeps it |
| StringManipulator.RemoveIndentedLastEntry | src/utils/JsonStringManipulator.ts:411-478 | removing the last entry `b` of an indented two-entry text leaves the first entry and the final line break, as written and corrected alike |
| StringManipulator.RemoveFirstEntryAsWritten | src/utils/JsonStringManipulator.ts:411-478 | removing the first entry `a` of `"a":1,"b":2`: as written the text becomes `"a":1,"b":"b":2`, corrected `"b":2` |
| StringManipulator.RemoveMiddleEntryAsWritten | src/utils/JsonStringManipulator.ts:411-478 | removing the middle entry `b` of `"a":1,"b":2,"c":3`: as written the text becomes `"a":1"c":3`, corrected `"a":1,"c":3` |
| StringManipulator.UpdateKeyInObject | src/utils/JsonStringManipulator.ts:493-611 | the scanning method computes `Updated`: with no hit the input is returned unchanged (corrected skip after an object value; see the Findings row for JsonStringManipulator.ts:587) |
| StringManipulator.UpdatedKeepsSurroundings | src/utils/JsonStringManipulator.ts:541-598 | on a hit, the old value ends at a `,`, a `}` or the end; the text up to the value start (after `:`, spaces and commas) is kept, the new value is written, then the text from that `,` (or after that `}`), with its trailing white space replaced by the text's last white-space run |
| StringManipulator.RenameKeyResult | src/utils/JsonStringManipulator.ts:613-633 | an invalid path fails with "Invalid key Path"; when the parent lacks the last key, the document is returned unchanged |
| StringManipulator.RenameKeyPresent | src/utils/JsonStringManipulator.ts:625-629 | when the parent holds the key and occurs first at `p` (its content first at `q` inside it), the document keeps everything outside the content and the content becomes the content with the key renamed |
| StringManipulator.RemoveKeyResult | src/utils/JsonStringManipulator.ts:635-657 | an invalid path fails with "Invalid key Path"; when the parent lacks the last key, the document is returned unchanged |
| StringManipulator.RemoveKeyPresent | src/utils/JsonStringManipulator.ts:646-653 | when the parent holds the key and occurs first at `p` (its content first at `q` inside it), the document keeps everything outside the content and the content becomes the content with the entry removed, less one trailing `,` |
| StringManipulator.SpliceAt | src/utils/JsonStringManipulator.ts:628-629 | replacing the content's first occurrence inside the parent's first occurrence changes that span only |
| Strings.JsReplaceFirst | src/utils/JsonStringManipulator.ts:628-629 | JavaScript's `replace` with a string pattern and a replacement that holds no `$` is the literal first-occurrence replacement |
| StringManipulator.SpliceAsWrittenAgrees | src/utils/JsonStringManipulator.ts:628-629 | the two nested `replace` calls as JavaScript evaluates them give the literal splice when neither the parent text nor the new content holds `$` |
| StringManipulator.AddKeyResult | src/utils/JsonStringManipulator.ts:659-694 | an invalid path fails with "Invalid key Path"; a valid path with no parent object fails with "No object found" |
| StringManipulator.AddKeyFalsyValueIsKeyName | src/utils/JsonStringManipulator.ts:662 | adding a falsy value is the same as adding the key's own name |
| StringManipulator.AddKeyExistingPresent | src/utils/JsonStringManipulator.ts:671-676 | a key the parent already holds is never added twice: the document keeps everything outside the parent's content, and the content becomes the one with that key's value replaced by the encoded value |
| StringManipulator.AddKeyNewInserts | src/utils/JsonStringManipulator.ts:685-693 | a key the parent lacks: the document keeps everything outside the parent's first occurrence, and the parent becomes `Inserted`, its text with the new member |
| StringManipulator.InsertedCommaIffMembers | src/utils/JsonStringManipulator.ts:678-683 | the new member starts with `,` exactly when the parent is not an empty object |
| StringManipulator.InsertedBeforeClosingBrace | src/utils/JsonStringManipulator.ts:685-693 | the new parent text is a prefix of the old text ending in no white space, then the member `"key": value` and the closing indent, then `}` and the old text after the last `}`; that brace is the member's place only when the old text after it is white space (InsertedAfterTrimmedBody) |
| StringManipulator.InsertedAfterTrimmedBody | src/utils/JsonStringManipulator.ts:685-693 | when only white space follows the parent's `}` at `p`, that is its last `}`, and the new parent text is the text before it less trailing white space, the member text, `}`, and the white space that followed |
| StringManipulator.JsonStringManipulator.RenameKey | src/utils/JsonStringManipulator.ts:613-633 | returns `RenameKeyResult`; the document field is replaced by the located document only when the path is valid |
| StringManipulator.JsonStringManipulator.RemoveKey | src/utils/JsonStringManipulator.ts:635-657 | returns `RemoveKeyResult`; the document field is replaced only when the path is valid |
| StringManipulator.JsonStringManipulator.AddKey | src/utils/JsonStringManipulator.ts:659-694 | returns `AddKeyResult`; the document field is replaced only when the path is valid |
| JsonParser.CreateRegexPattern | src/utils/json-parser.ts:225-240 | the loop builds the pattern one piece per segment: `{` before the first, a lazy `[\s\S]*?` between, and the captured entry and optional comma after the last (corrected pattern; see the Findings row for json-parser.ts:230-236) |
| JsonParser.PatternGroups | src/utils/json-parser.ts:230-236 | the corrected pattern has exactly two capture groups for every key path |
| JsonParser.RecordCoversCapture | src/utils/json-parser.ts:200-223 | the corrected record's change span is exactly the captured entry and its comma in the document, and `hasComma` holds iff the comma was captured |
| JsonParser.RemoveEntry | src/utils/json-parser.ts:26-56 | the step-by-step comma repair computes `RemovedEntry` |
| JsonParser.RemoveFirstEntry | src/utils/json-parser.ts:30-35 | when the trimmed text before the entry ends with `{`, no comma is written and the leading white space after the entry is trimmed |
| JsonParser.RemoveLastEntry | src/utils/json-parser.ts:36-44 | an entry with no comma of its own cuts the text before it at its last `,` |
| JsonParser.RemoveMiddleEntry | src/utils/json-parser.ts:46-54 | an entry with a comma, after a previous entry's comma, leaves exactly one `,` between its neighbours |
| JsonParser.PreserveNoMatch | src/utils/json-parser.ts:19-21 | in preserve mode, remove, rename and update fail with "No match found for the specified key path." when the key is absent or the pattern does not match |
| JsonParser.PreserveSpliceSpec | src/utils/json-parser.ts:87-94 | preserve-mode rename (and update, lines 125-130, alike) replaces only the captured span with `"key": "value"` plus the captured comma; the text before and after it is kept |
| JsonParser.RemovePreserveSpec | src/utils/json-parser.ts:22-58 | preserve-mode remove joins the text before the captured span with the text after it through the comma repair |
| JsonParser.RemoveInTreeSpec | src/utils/json-parser.ts:63-76 | structural remove succeeds iff the parent holds the last key, otherwise fails with "Key path not found"; the parent then lacks that key and keeps every other property |
| JsonParser.UpdateInTreeSpec | src/utils/json-parser.ts:137-151 | structural update succeeds iff the parent holds the last key; the parent keeps its keys and only that key's value changes |
| JsonParser.RenameInTreeSpec | src/utils/json-parser.ts:101-115 | structural rename succeeds iff the parent holds the last key; the new key holds the old value, the old key is gone unless the name did not change, and other properties are kept |
| JsonParser.AddInTreeSpec | src/utils/json-parser.ts:180-197 | structural add fails iff there is no parent; an existing key is updated without changing the key set; a new key is appended with `value` or, if that is empty, the key's name |
| JsonParser.ParentOfWithParent | src/utils/json-parser.ts:66-70 | after the parent is changed in place, the same path reaches the new parent |
| JsonParser.JsonParser.RemoveKey | src/utils/json-parser.ts:15-77 | in preserve mode the text is edited (or the error returned with the text unchanged) and the tree kept; otherwise the tree is edited and the text kept (corrected pattern and offsets; see the Findings rows for json-parser.ts:230-236 and 217-218) |
| JsonParser.JsonParser.RenameKey | src/utils/json-parser.ts:79-116 | the same for rename (corrected pattern, offsets and same-name rename; see the Findings rows for json-parser.ts:230-236, 217-218 and 108-109) |
| JsonParser.JsonParser.UpdateKey | src/utils/json-parser.ts:118-152 | the same for update (corrected pattern and offsets; see the Findings rows for json-parser.ts:230-236 and 217-218) |
| JsonParser.JsonParser.AddKey | src/utils/json-parser.ts:180-197 | structural add: the tree becomes `AddInTree`'s result, or stays unchanged with the error |
| JsonUtils.CheckExistKey | src/utils/jsonUtils.js:52-64 | the cursor loop answers `KeyExists` |
| JsonUtils.KeyExistsSpec | src/utils/jsonUtils.js:52-64 | a key exists iff every parent segment holds a truthy value to descend into and the last key's value is not `undefined` |
| JsonUtils.GetKeyValue | src/utils/jsonUtils.js:106-119 | the cursor loop returns `KeyValue` |
| JsonUtils.KeyValueExists | src/utils/jsonUtils.js:106-119 | an existing key yields its value; otherwise the result is `false` (a parent missing) or `undefined` (the last key missing) |
| JsonUtils.AddInThenWalk | src/utils/jsonUtils.js:39-46 | on a tree whose existing intermediates are objects, the add creates the missing ones, and the last key then holds the value |
| JsonUtils.AddKeyThenExists | src/utils/jsonUtils.js:35-64 | after `addKey`, `checkExistKey` on the same path is true and `getKeyValue` returns the value, or the key's name for a falsy value |
| JsonUtils.AddInKeepsSiblings | src/utils/jsonUtils.js:39-46 | at every depth along the path, every property of the object reached other than the next segment (or the last key) reads as before; an object created for a missing intermediate holds nothing else |
| JsonUtils.RenameEntries | src/utils/jsonUtils.js:85-92 | the entry loop builds `RenamedMembers`: each entry in order, under the new name when it is the old key |
| JsonUtils.RenamedMembersInPlace | src/utils/jsonUtils.js:85-92 | on a parent with unique keys that lacks the new key, the rename keeps the keys in order, replaces only the old key, and keeps the values |
| JsonUtils.RenameKeyOutcome | src/utils/jsonUtils.js:66-104 | the corrected rename writes exactly when the parent holds the last key, and the parent path then reaches the renamed parent |
| JsonUtils.RenameKeyNestedAsWritten | src/utils/jsonUtils.js:94-99 | for a path with a parent segment, the code as written and the corrected rename agree |
| JsonUtils.ReachReplaceAt | src/utils/jsonUtils.js:94-99 | writing an object back at a path makes the path reach it |
| JsonUtils.ReplaceAtKeepsSiblings | src/utils/jsonUtils.js:94-99 | writing back leaves every sibling along the path as it was: at each depth, every property other than the next segment reads as before |
| JsonUtils.GetKeys | src/utils/jsonUtils.js:136-164 | the cursor walk and the `for ... in` loop return `GetKeysResult` |
| JsonUtils.GetKeysSpec | src/utils/jsonUtils.js:145-163 | the keys returned are exactly the parent's keys that start with the last segment, ignoring case |
| JsonUtils.MatchingKeysSpec | src/utils/jsonUtils.js:157-161 | the filter keeps exactly the keys that pass the test, and no more than there were |
| JsonUtils.FindKeyPosition | src/utils/jsonUtils.js:4-33 | the line loop with its level counter computes `FindFrom` |
| JsonUtils.FindFromSound | src/utils/jsonUtils.js:17-32 | a found position lies on a line after lines matching each earlier segment in order, at the last segment's first match on that line |
| JsonUtils.FindFromLeast | src/utils/jsonUtils.js:17-32 | whenever lines match the earlier segments in order and a later line matches the last one, a position is found, on that line or an earlier one |
| JsonUtils.FindFromFirst | src/utils/jsonUtils.js:17-32 | no line between the last earlier-segment match and the line found matches the last segment |
| JsonUtils.FindFromNone | src/utils/jsonUtils.js:17-33 | when nothing is found, no line after lines matching the earlier segments in order matches the last segment |
| JsonUtils.FirstMatchFromLeftmost | src/utils/jsonUtils.js:7-15 | no match of the key pattern lies before the position found |
| KeyFormat.ConvertCase | src/utils/globalUtils.ts:38-39 | the default format returns the key exactly as given |
| KeyFormat.NormalizeSpec | src/utils/globalUtils.ts:4-9 | after trimming, each run of white space, `_` or `-` becomes one space and every other character is kept in order |
| KeyFormat.WordsSpec | src/utils/globalUtils.ts:4-9 | the words hold no separator, only the first and last may be empty, and joined with spaces they give the normalized key |
| KeyFormat.SnakeCaseSeparators | src/utils/globalUtils.ts:28-31 | snake case contains no white space and no `-` |
| KeyFormat.KebabCaseSeparators | src/utils/globalUtils.ts:33-36 | kebab case contains no white space and no `_` |
| KeyFormat.CamelAndPascalNoSeparators | src/utils/globalUtils.ts:12-26 | camel and Pascal case contain no white space, `_` or `-` |
| KeyFormat.CamelAndPascalAreTheWords | src/utils/globalUtils.ts:12-26 | lower-cased, camel and Pascal case are the lower-cased words joined with no separator |
| KeyFormat.CamelCaseShape | src/utils/globalUtils.ts:12-19 | camel case starts with the first word in lower case |
| KeyFormat.SnakeCaseIdempotent | src/utils/globalUtils.ts:4-31 | converting a snake-case key to snake case again leaves it unchanged |
| KeyFormat.KebabCaseIdempotent | src/utils/globalUtils.ts:4-36 | converting a kebab-case key to kebab case again leaves it unchanged |
| Completion.StripQuotesSpec | src/extension.ts:66 | at most one leading and one trailing quote (`'` or `"`) are removed, exactly when present |
| Completion.CompletionCandidatesSpec | src/extension.ts:68-80 | the candidates are duplicate-free and contain no `.`; they are exactly the candidates of the cached keys that start with the typed text |
| Completion.CandidateHasNoDot | src/extension.ts:71-77 | a candidate, the key after the typed text's last `.` cut at the next `.`, never contains `.` |
| Completion.DedupSpec | src/extension.ts:68-69 | the `Set` keeps every candidate and holds no duplicates |
| Completion.TopLevelCandidates | src/extension.ts:72-76 | when the typed text has no `.`, the candidates are the first segments of the matching keys |
| Diagnostics.DiagnosticManager.constructor | src/utils/diagnosticManager.ts:9-13 | the manager starts with the given key set |
| Diagnostics.DiagnosticManager.UpdateKeys | src/utils/diagnosticManager.ts:57-67 | reports a change iff the new set differs from the current one, and the current set becomes the new one |
| Diagnostics.SameSizeSubset | src/utils/diagnosticManager.ts:58-59 | the source's test (same size, every new key present) holds exactly when the sets are equal |
| Diagnostics.MessageRoundTrip | src/utils/diagnosticManager.ts:48-51 | the key is recovered from the message `Missing translation key: k` that line 87 builds, for every `k` without a line terminator |
| Diagnostics.KeyFromDiagnosticWithoutKey | src/utils/diagnosticManager.ts:49-50 | a message with no `key: ` yields `""` |
| Diagnostics.DiagnosticManager.GetDiagnostics | src/utils/diagnosticManager.ts:69-97 | an unsupported language gets no diagnostics; otherwise the loop returns `MissingKeyDiagnostics` |
| Diagnostics.MissingMatchesSpec | src/utils/diagnosticManager.ts:78-94 | the matches reported are exactly the matches whose key is absent from the set |
| Diagnostics.MissingKeyDiagnosticsSpec | src/utils/diagnosticManager.ts:78-94 | one warning per reported match, spanning the match, with source `json-i18n-key`, whose message gives the key back |

## Left out

- File I/O: `loadJsonFileSync`, `writeJsonFileSync` and the file utilities. Documents and trees are passed in and returned.
- `getObjectMatch` and the synthesis inside `getObject` (regex matching over the document): a `ParentSpan` input stands for the located parent. It holds the document, the parent's text and content, the indents, and the parent's own keys (`JSON.parse` of the content, or its failure). The `checkKeyExists` test reads those keys.
- The regex engine: the match of `createRegexPattern`'s pattern (index, whole match, groups) is an input, as are the key-path regex matches of `getDiagnostics`.
- `JSON.parse` of the document in `JsonParser`: in preserve mode the parsed tree is an input beside the text.
- JsonParser.JsonParser.AddKey: requires structural mode, because preserve-mode `addKey` goes through JSONPath, which is not part of this model.
- `getParentObject` is not part of this model: the structural parent is the object reached by walking the path's parent segments (`Reach`).
- Tree mutation in `jsonUtils.js` and the structural branch of `json-parser.ts` (`parentKey[key] = {}`, `delete parent[lastKey]`, `obj[key] = newResult`) is modelled on values. Aliasing between the tree and the objects it contains is not captured.
- Integer-like keys: JavaScript enumerates them first, in numeric order. Objects here keep insertion order for every key.
- `getHoverTranslation`, `updateAllDiagnostics`, the debounce, code actions, providers and every other VS Code or LLM call.
- Floating-point numbers: `Num` holds integers, printed in decimal. JavaScript's `String` prints integers of magnitude 10^21 or more in exponent notation (`1e+21`), and integers beyond 2^53 are not exact JavaScript numbers; neither is modelled.
- Case mapping is ASCII only; `toLowerCase` and `toUpperCase` on other letters are not modelled.
- The scanners' `result += char` accumulation before a hit: it is overwritten on a hit and discarded otherwise, so the results are the same without it.
- Preserve-mode rename and update write the value between quotes without escaping, as the source does; no claim is made that the result is valid JSON.
- The scanners' escape handling is modelled as written (`escaped` is never reset; the rename/remove escape branch fires only at the last index). No property about escaped quotes inside keys is claimed.
- StringManipulator.RenameKeyResult: states the error and absent-key cases only; the present-key case is stated by RenameKeyPresent and RenameSwapsToken.
- StringManipulator.RemoveKeyResult: states the error and absent-key cases only; the present-key case is stated by RemoveKeyPresent and RemovedSpan.
- StringManipulator.AddKeyResult: states the error cases only; the other cases are stated by AddKeyFalsyValueIsKeyName, AddKeyExistingPresent, AddKeyNewInserts, InsertedCommaIffMembers, InsertedBeforeClosingBrace and InsertedAfterTrimmedBody.
- StringManipulator.JsonStringManipulator.RenameKey: returns the document built with the literal replacement (`Splice`); JavaScript's expansion of `$` patterns in the replacement text is modelled by `SpliceAsWritten` only (see Findings), and the two agree when neither the parent text nor the renamed content holds `$`.
- StringManipulator.JsonStringManipulator.RemoveKey: the same as RenameKey for the `$` expansion: the result is the literal splice, which the as-written one equals when no `$` occurs in the parent text or the new content.
- StringManipulator.JsonStringManipulator.AddKey: the same as RenameKey for the `$` expansion, for both the update and the insertion; a stored value such as `"$&"` is written literally here.
- JsValues.Get: reads own members only. JavaScript property access also finds inherited properties (`toString`, `constructor`), indexes strings, and reads array elements by a numeric key (`arr["0"]`); here a non-object gives `Undefined`.
- JsValues.HasKey: own members only; the `in` tests of `json-parser.ts` (lines 67, 105, 141) and `checkExistKey` (jsonUtils.js line 63) also accept inherited names such as `toString`.
- JsonUtils.Walk: descends through objects only; a string or an array on the path is not indexed as JavaScript would.
- JsonUtils.AddIn: an array on the path is treated like any other non-object value: with segments left it gives None, and as the parent it leaves the tree unchanged. In the source an array is an object, so `parentKey[key] = {}` and `parentKey[lastKey] = value` (jsonUtils.js lines 42 and 46) set a named property on it; such properties are not array elements, and a key path here never addresses array elements.
- JsonUtils.Reach: descends through objects only. The source's test `acc && typeof acc === 'object' && key in acc` (jsonUtils.js line 73) also passes an array holding the segment as an index (`"0" in ["x"]`), so renameKey goes on into the array there; here such a path gives `KeyNotFound`.
- Diagnostics.DiagnosticManager.constructor: the manager holds the key set as a value. The source stores the caller's `Set` itself (diagnosticManager.ts line 11), and extension.ts passes it `keyCache` (line 104). Later, `keyCache.clear()` and then `updateKeys(keyCache)` (extension.ts lines 161-162) also empty the manager's keys, so no change is reported and the diagnostics are not refreshed. This holds until an `updateKeys` with a change stores a copy (diagnosticManager.ts line 62). That aliasing is not modelled.
- JsonUtils.ForInKeys: the keys of an object; `for…in` over a string (its indices) or over an array is not modelled, and such values list no keys here.
- JsonUtils.KeyMatchAt: matches the key literally; the source builds a `RegExp` from the raw key (jsonUtils.js line 14), so a key holding `(`, `+`, `*`, `.` or `$` acts as a pattern there.

## Findings

| source | as written | input that shows it | evidently intended | confidence | as-written member | corrected member |
|---|---|---|---|---|---|---|
| src/utils/JsonStringManipulator.ts:411 | the removed entry starts at `i - currentKey.length - 2`, one character before the key's opening quote, whatever that character is; on indented text it is white space and the cut is right | removing `a` from `"a":1,"b":2` gives `"a":1,"b":"b":2`; removing `b` from `"a":1,"b":2,"c":3` gives `"a":1"c":3`, with the comma lost | cut that character only when it is white space, otherwise start at the opening quote: `"b":2` and `"a":1,"c":3` | not executed | StringManipulator.RemoveMiddleEntryAsWritten | StringManipulator.RemovedSpan |
| src/utils/JsonStringManipulator.ts:678 | the emptiness test `{\s*}` is not anchored, so any empty object inside the parent passes it | adding `b` to `{"a": {}}` gives `{"a": {}\t"b": "b"}`, with no comma | test whether the whole parent is `{`, white space, `}` | not executed | StringManipulator.AddAfterEmptyValueAsWritten | StringManipulator.InsertedCommaIffMembers |
| src/utils/JsonStringManipulator.ts:51 | only `"` is escaped, not `\` | the string `\` is written as `"\"`, which is no JSON string | escape `\` as well, as section 7 of RFC 8259 requires | not executed | StringManipulator.EscapeQuotesBreaksBackslash | StringManipulator.DecodeEscapeJson |
| src/utils/JsonStringManipulator.ts:587 | when the new value ends with `}`, one more character after the old value is skipped, taken to be the object's own `}` | updating `a` to `{}` in `"a": 1, "b": 2` gives `"a": {} "b": 2 `, with the comma lost | skip a character only when the old value ended at a `}` | not executed | StringManipulator.UpdateObjectValueAsWritten | StringManipulator.UpdatedKeepsSurroundings |
| src/utils/json-parser.ts:217-218 | the change offsets are found inside the whole match but used as document offsets | a document starting with a newline, `\n{"a": {"b": "x"}}`, updated at `a.b` to `y` gives `\n{"a": "b": "y""}}` | add the match's index to both offsets | not executed | JsonParser.NestedUpdateAsWritten | JsonParser.RecordCoversCapture |
| src/utils/json-parser.ts:230-236 | for a one-segment path, the first-segment branch wins and the pattern has no capture group | updating `a` to `y` in `{"a": "x"}` gives `{"a": "x""a": "y"undefined "x"}` | the last-segment piece, with both groups, for a one-segment path too | not executed | JsonParser.TopLevelUpdateAsWritten | JsonParser.PatternGroups |
| src/utils/json-parser.ts:108-109 | rename assigns `parent[newKey]` and then deletes `parent[lastKey]`, even when they are the same key | renaming `a` to `a` in `{"a": "x"}` gives `{}` | leave the parent alone when the name does not change | not executed | JsonParser.RenameToSameKeyExample | JsonParser.RenameInTreeSpec |
| src/utils/JsonStringManipulator.ts:628-629 | the new parent text and the new document text are passed to `replace` as replacement strings, so their `$$`, `$&`, `` $` `` and `$'` are expanded (the same at lines 652-653, 674-675 and 687-693) | removing `b` from `{"a":"$$","b":1}`, whose new content is `"a":"$$"`, gives `{"a":"$"}`, altering the kept value | insert both texts literally | not executed | StringManipulator.SpliceDollarExample | StringManipulator.SpliceAt |
| src/utils/jsonUtils.js:94-99 | the renamed parent is written back only through the parent path's segments, so a top-level key's rename is built but never stored | renaming `a` to `b` in `{"a": "x"}` writes `{"a": "x"}` | store the renamed object as the whole content when the path has one segment | not executed | JsonUtils.RenameTopLevelExample | JsonUtils.RenameKeyOutcome |
