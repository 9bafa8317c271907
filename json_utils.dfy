/**
 * The tree walks of the first-generation key operations (src/utils/jsonUtils.js).
 * A translation file is a parsed JSON tree; a key path is split at `.`; every
 * segment but the last names an intermediate object and the last names the
 * property itself. Loading and writing the file are left to the caller: the
 * walks take the parsed content and return the content to write.
 */
module JsonUtils {
  import opened Wrappers
  import opened Strings
  import opened JsValues

  // ---------------------------------------------------------------------------
  // Key paths

  /** The intermediate segments of a key path: `keys` after `keys.pop()`. */
  function Parents(keyPath: string): seq<string> {
    var keys := Split(keyPath, '.');
    keys[..|keys| - 1]
  }

  /** The terminal segment: what `keys.pop()` returns. */
  function LastKey(keyPath: string): string {
    var keys := Split(keyPath, '.');
    keys[|keys| - 1]
  }

  /** A path without `.` has no intermediate segment and is its own last segment. */
  lemma FlatPath(keyPath: string)
    requires '.' !in keyPath
    ensures Parents(keyPath) == [] && LastKey(keyPath) == keyPath
  {
    IndexOfCharSpec(keyPath, '.');
  }

  // ---------------------------------------------------------------------------
  // Descending through a tree

  /** `v[k]` followed segment by segment, whatever the values met on the way. */
  function Descend(v: Json, path: seq<string>): Json
    decreases |path|
  {
    if path == [] then v else Descend(Get(v, path[0]), path[1..])
  }

  /**
   * The cursor loop `for (key of keys) { if (!cursor[key]) fail; cursor = cursor[key]; }`
   * shared by checkExistKey, getKeyValue and getKeys: the value reached, or None
   * as soon as a step reads a falsy value.
   */
  function Walk(v: Json, path: seq<string>): Option<Json>
    decreases |path|
  {
    if path == [] then Some(v)
    else if !Truthy(Get(v, path[0])) then None
    else Walk(Get(v, path[0]), path[1..])
  }

  /** Descending a prefix one segment longer than the first step. */
  lemma DescendPrefix(v: Json, path: seq<string>, j: nat)
    requires 1 <= j <= |path|
    ensures Descend(v, path[..j]) == Descend(Get(v, path[0]), path[1..][..j - 1])
  {
    assert path[..j][0] == path[0];
    assert path[..j][1..] == path[1..][..j - 1];
  }

  /**
   * The walk succeeds exactly when every segment reads a truthy value from the
   * value reached so far, and it then reaches the plain descent.
   */
  lemma {:induction false} WalkSpec(v: Json, path: seq<string>)
    ensures Walk(v, path).Some? <==>
      forall j | 0 <= j < |path| :: Truthy(Get(Descend(v, path[..j]), path[j]))
    ensures Walk(v, path).Some? ==> Walk(v, path).value == Descend(v, path)
    decreases |path|
  {
    if path != [] {
      var c := Get(v, path[0]);
      WalkSpec(c, path[1..]);
      assert Descend(v, path[..0]) == v;
      forall j | 1 <= j < |path|
        ensures Get(Descend(v, path[..j]), path[j]) == Get(Descend(c, path[1..][..j - 1]), path[1..][j - 1])
      {
        DescendPrefix(v, path, j);
      }
      if Truthy(c) && Walk(c, path[1..]).Some? {
        forall j | 0 <= j < |path|
          ensures Truthy(Get(Descend(v, path[..j]), path[j]))
        {
          if j > 0 {
            assert Truthy(Get(Descend(c, path[1..][..j - 1]), path[1..][j - 1]));
          }
        }
      }
      if forall j | 0 <= j < |path| :: Truthy(Get(Descend(v, path[..j]), path[j])) {
        assert Truthy(c);
        forall j | 0 <= j < |path[1..]|
          ensures Truthy(Get(Descend(c, path[1..][..j]), path[1..][j]))
        {
          assert Truthy(Get(Descend(v, path[..j + 1]), path[j + 1]));
        }
      }
    }
  }

  // ---------------------------------------------------------------------------
  // checkExistKey and getKeyValue

  /** What checkExistKey reports: the walk to the parent succeeds and the last key does not read `undefined`. */
  predicate KeyExists(content: Json, keyPath: string) {
    match Walk(content, Parents(keyPath))
    case None => false
    case Some(parent) => Get(parent, LastKey(keyPath)) != Undefined
  }

  /** What getKeyValue returns: `false` when the walk to the parent fails, else the last key's value. */
  function KeyValue(content: Json, keyPath: string): Json {
    match Walk(content, Parents(keyPath))
    case None => Bool(false)
    case Some(parent) => Get(parent, LastKey(keyPath))
  }

  /** checkExistKey: the cursor loop over the intermediate segments, then the test of the last one. */
  method CheckExistKey(content: Json, keyFullPath: string) returns (r: bool)
    ensures r <==> KeyExists(content, keyFullPath)
  {
    var keys := Split(keyFullPath, '.');
    var lastKey := keys[|keys| - 1];
    keys := keys[..|keys| - 1];
    var parentKey := content;
    var i := 0;
    while i < |keys|
      invariant 0 <= i <= |keys|
      invariant Walk(content, keys) == Walk(parentKey, keys[i..])
    {
      assert keys[i..][0] == keys[i] && keys[i..][1..] == keys[i + 1..];
      if !Truthy(Get(parentKey, keys[i])) {
        return false;
      }
      parentKey := Get(parentKey, keys[i]);
      i := i + 1;
    }
    return Get(parentKey, lastKey) != Undefined;
  }

  /** getKeyValue: the same cursor loop, returning `false` on a falsy intermediate. */
  method GetKeyValue(content: Json, keyFullPath: string) returns (r: Json)
    ensures r == KeyValue(content, keyFullPath)
  {
    var keys := Split(keyFullPath, '.');
    var lastKey := keys[|keys| - 1];
    keys := keys[..|keys| - 1];
    var parentKey := content;
    var i := 0;
    while i < |keys|
      invariant 0 <= i <= |keys|
      invariant Walk(content, keys) == Walk(parentKey, keys[i..])
    {
      assert keys[i..][0] == keys[i] && keys[i..][1..] == keys[i + 1..];
      if !Truthy(Get(parentKey, keys[i])) {
        return Bool(false);
      }
      parentKey := Get(parentKey, keys[i]);
      i := i + 1;
    }
    return Get(parentKey, lastKey);
  }

  /**
   * checkExistKey is true exactly when every intermediate segment reads a truthy
   * value and the last segment does not read `undefined` from the value reached.
   */
  lemma KeyExistsSpec(content: Json, keyPath: string)
    ensures var ps := Parents(keyPath);
      KeyExists(content, keyPath) <==>
        && (forall j | 0 <= j < |ps| :: Truthy(Get(Descend(content, ps[..j]), ps[j])))
        && Get(Descend(content, ps), LastKey(keyPath)) != Undefined
  {
    WalkSpec(content, Parents(keyPath));
  }

  /**
   * getKeyValue and checkExistKey agree: an existing key's value is what the
   * plain descent reads and is not `undefined`; for a missing key getKeyValue
   * returns `undefined` or `false`.
   */
  lemma KeyValueExists(content: Json, keyPath: string)
    ensures KeyExists(content, keyPath) ==>
      KeyValue(content, keyPath) == Get(Descend(content, Parents(keyPath)), LastKey(keyPath)) != Undefined
    ensures !KeyExists(content, keyPath) ==>
      KeyValue(content, keyPath) == Undefined || KeyValue(content, keyPath) == Bool(false)
  {
    WalkSpec(content, Parents(keyPath));
  }

  // ---------------------------------------------------------------------------
  // addKey

  /** The value addKey stores: `!value ? lastKey : value`. */
  function StoredValue(value: Json, lastKey: string): Json {
    if !Truthy(value) then Str(lastKey) else value
  }

  /**
   * addKey's descent: a falsy intermediate becomes `{}`, then the last key is
   * set on the object reached. None stands for the TypeError thrown once the
   * cursor is `undefined` or `null`; a property written on another primitive
   * is silently dropped, so a primitive parent leaves the tree as it was.
   */
  function AddIn(v: Json, path: seq<string>, last: string, val: Json): Option<Json>
    decreases |path|
  {
    if v.Undefined? || v.Null? then None
    else if !v.Obj? then (if path == [] then Some(v) else None)
    else if path == [] then Some(Obj(SetProp(v.members, last, val)))
    else
      var child := Lookup(v.members, path[0]);
      var child' := if Truthy(child) then child else Obj([]);
      match AddIn(child', path[1..], last, val)
      case None => None
      case Some(c) => Some(Obj(SetProp(v.members, path[0], c)))
  }

  /** addKey on the parsed content: the content to write, or None when it throws. */
  function AddKey(content: Json, keyFullPath: string, value: Json): Option<Json> {
    AddIn(content, Parents(keyFullPath), LastKey(keyFullPath), StoredValue(value, LastKey(keyFullPath)))
  }

  /** Every truthy value met along the path, starting with `v` itself, is an object. */
  predicate ObjectsAlong(v: Json, path: seq<string>)
    decreases |path|
  {
    v.Obj? && (path == [] || var c := Lookup(v.members, path[0]); !Truthy(c) || ObjectsAlong(c, path[1..]))
  }

  /**
   * When the truthy intermediates are objects, addKey's descent succeeds, the
   * walk over the same path then succeeds, and the last key reads the value set.
   */
  lemma {:induction false} AddInThenWalk(v: Json, path: seq<string>, last: string, val: Json)
    requires ObjectsAlong(v, path)
    ensures var r := AddIn(v, path, last, val);
      && r.Some? && r.value.Obj?
      && Walk(r.value, path).Some?
      && Get(Walk(r.value, path).value, last) == val
    decreases |path|
  {
    if path == [] {
      LookupSetProp(v.members, last, val, last);
    } else {
      var child := Lookup(v.members, path[0]);
      var child' := if Truthy(child) then child else Obj([]);
      AddInThenWalk(child', path[1..], last, val);
      var c := AddIn(child', path[1..], last, val).value;
      LookupSetProp(v.members, path[0], c, path[0]);
    }
  }

  /** After addKey on a tree whose truthy intermediates are objects, checkExistKey holds and getKeyValue reads the stored value. */
  lemma AddKeyThenExists(content: Json, keyFullPath: string, value: Json)
    requires ObjectsAlong(content, Parents(keyFullPath))
    ensures AddKey(content, keyFullPath, value).Some?
    ensures KeyExists(AddKey(content, keyFullPath, value).value, keyFullPath)
    ensures KeyValue(AddKey(content, keyFullPath, value).value, keyFullPath) == StoredValue(value, LastKey(keyFullPath))
  {
    AddInThenWalk(content, Parents(keyFullPath), LastKey(keyFullPath), StoredValue(value, LastKey(keyFullPath)));
  }

  /**
   * addKey leaves every sibling along the path as it was: at each depth `j`,
   * every property of the object reached other than the next segment (the last
   * key at the end of the path) reads as before. Where an intermediate was
   * missing or falsy, the object created for it holds nothing else, as nothing
   * was readable there before.
   */
  lemma {:induction false} AddInKeepsSiblings(v: Json, path: seq<string>, last: string, val: Json, j: nat, k: string)
    requires AddIn(v, path, last, val).Some?
    requires j <= |path|
    requires k != (if j == |path| then last else path[j])
    ensures Get(Descend(AddIn(v, path, last, val).value, path[..j]), k) == Get(Descend(v, path[..j]), k)
    decreases |path|
  {
    var r := AddIn(v, path, last, val).value;
    if path == [] {
      if v.Obj? {
        LookupSetProp(v.members, last, val, k);
      }
    } else {
      var child := Lookup(v.members, path[0]);
      var child' := if Truthy(child) then child else Obj([]);
      var c := AddIn(child', path[1..], last, val).value;
      assert r == Obj(SetProp(v.members, path[0], c));
      if j == 0 {
        LookupSetProp(v.members, path[0], c, k);
      } else {
        LookupSetProp(v.members, path[0], c, path[0]);
        DescendPrefix(r, path, j);
        DescendPrefix(v, path, j);
        AddInKeepsSiblings(child', path[1..], last, val, j - 1, k);
        CreatedReadsAsMissing(child, path[1..][..j - 1], k);
      }
    }
  }

  /** The object addKey puts in place of a falsy intermediate reads, below it, as the falsy value did. */
  lemma CreatedReadsAsMissing(child: Json, path: seq<string>, k: string)
    ensures var child' := if Truthy(child) then child else Obj([]);
      Get(Descend(child', path), k) == Get(Descend(child, path), k)
  {
    if !Truthy(child) {
      NothingBelow(Obj([]), path, k);
      NothingBelow(child, path, k);
    }
  }

  /** Below a value that is not an object, or an empty one, every property reads `undefined`. */
  lemma {:induction false} NothingBelow(v: Json, path: seq<string>, k: string)
    requires !v.Obj? || v.members == []
    ensures Get(Descend(v, path), k) == Undefined
    decreases |path|
  {
    if path != [] {
      NothingBelow(Get(v, path[0]), path[1..], k);
    }
  }

  // ---------------------------------------------------------------------------
  // renameKey

  /**
   * The `reduce` that locates the parent: each step needs an object holding the
   * segment (`acc && typeof acc === 'object' && key in acc`); None once a step fails.
   */
  function Reach(v: Json, path: seq<string>): Option<Json>
    decreases |path|
  {
    if path == [] then Some(v)
    else if v.Obj? && HasKey(v.members, path[0]) then Reach(Lookup(v.members, path[0]), path[1..])
    else None
  }

  /** The entry renamed: `lastKey` becomes `newKey`, every other key stays. */
  function RenamedKey(k: string, lastKey: string, newKey: string): string {
    if k == lastKey then newKey else k
  }

  /**
   * The object the `for ... of Object.entries(result)` loop builds: each entry is
   * assigned in order to `newResult`, under `newKey` when it is `lastKey`.
   */
  function RenamedMembers(ms: seq<Member>, lastKey: string, newKey: string): seq<Member>
    decreases |ms|
  {
    if ms == [] then []
    else
      var m := ms[|ms| - 1];
      SetProp(RenamedMembers(ms[..|ms| - 1], lastKey, newKey), RenamedKey(m.key, lastKey, newKey), m.value)
  }

  /** The entry loop of renameKey, assigning into `newResult` one entry at a time. */
  method RenameEntries(ms: seq<Member>, lastKey: string, newKey: string) returns (newResult: seq<Member>)
    ensures newResult == RenamedMembers(ms, lastKey, newKey)
  {
    newResult := [];
    for i := 0 to |ms|
      invariant newResult == RenamedMembers(ms[..i], lastKey, newKey)
    {
      assert ms[..i + 1][..i] == ms[..i];
      newResult := SetProp(newResult, RenamedKey(ms[i].key, lastKey, newKey), ms[i].value);
    }
    assert ms[..|ms|] == ms;
  }

  /** The members with `lastKey` renamed where it stands. */
  function RenamedInPlace(ms: seq<Member>, lastKey: string, newKey: string): (r: seq<Member>)
    ensures |r| == |ms|
  {
    seq(|ms|, i requires 0 <= i < |ms| => Member(RenamedKey(ms[i].key, lastKey, newKey), ms[i].value))
  }

  /**
   * For an object with distinct keys and a new key that is not already another
   * key, the rebuilt object has the same members in the same order, values
   * untouched, with `lastKey` replaced by `newKey` where it stood.
   */
  lemma {:induction false} RenamedMembersInPlace(ms: seq<Member>, lastKey: string, newKey: string)
    requires UniqueKeys(ms)
    requires newKey == lastKey || !HasKey(ms, newKey)
    ensures RenamedMembers(ms, lastKey, newKey) == RenamedInPlace(ms, lastKey, newKey)
    decreases |ms|
  {
    if ms != [] {
      var n := |ms| - 1;
      var init := ms[..n];
      assert UniqueKeys(init);
      forall i | 0 <= i < n
        ensures ms[i].key != ms[n].key && (newKey != lastKey ==> ms[i].key != newKey)
      {
        assert Keys(ms)[i] == ms[i].key;
      }
      assert newKey != lastKey ==> !HasKey(init, newKey);
      RenamedMembersInPlace(init, lastKey, newKey);
      var prev := RenamedInPlace(init, lastKey, newKey);
      var k := RenamedKey(ms[n].key, lastKey, newKey);
      if newKey != lastKey {
        assert ms[n].key != newKey by {
          assert Keys(ms)[n] == ms[n].key;
        }
      }
      forall i | 0 <= i < |prev|
        ensures Keys(prev)[i] != k
      {
        assert Keys(prev)[i] == RenamedKey(ms[i].key, lastKey, newKey);
      }
      assert !HasKey(prev, k);
      assert RenamedMembers(ms, lastKey, newKey) == SetProp(prev, k, ms[n].value);
      RenamedInPlaceSnoc(ms, lastKey, newKey);
    }
  }

  /** Renaming in place member by member: the last member is renamed on its own. */
  lemma RenamedInPlaceSnoc(ms: seq<Member>, lastKey: string, newKey: string)
    requires ms != []
    ensures RenamedInPlace(ms, lastKey, newKey) ==
      RenamedInPlace(ms[..|ms| - 1], lastKey, newKey) + [Member(RenamedKey(ms[|ms| - 1].key, lastKey, newKey), ms[|ms| - 1].value)]
  {
  }

  /** The tree with the value at the end of `path` replaced, every object on the way rebuilt around it. */
  function ReplaceAt(t: Json, path: seq<string>, x: Json): Json
    decreases |path|
  {
    if path == [] then x
    else if t.Obj? then Obj(SetProp(t.members, path[0], ReplaceAt(Lookup(t.members, path[0]), path[1..], x)))
    else t
  }

  /**
   * The write-back `keys.reduce((obj, key, i, a) => { if (i === a.length - 1) obj[key] = newResult; ... })`
   * as written: over an empty list of intermediate segments the callback never
   * runs, so nothing is written.
   */
  function WriteBackAsWritten(t: Json, path: seq<string>, x: Json): Json {
    if path == [] then t else ReplaceAt(t, path, x)
  }

  /** The outcomes of renameKey: an error message and `false`, a thrown TypeError, or content written. */
  datatype RenameOutcome = KeyNotFound | Thrown | Written(content: Json)

  /** renameKey as written. */
  function RenameKeyAsWritten(content: Json, keyFullPath: string, newKey: string): RenameOutcome {
    var path := Parents(keyFullPath);
    var lastKey := LastKey(keyFullPath);
    match Reach(content, path)
    case None => KeyNotFound
    case Some(result) =>
      if result.Null? then Thrown
      else if !result.Obj? || !HasKey(result.members, lastKey) then KeyNotFound
      else Written(WriteBackAsWritten(content, path, Obj(RenamedMembers(result.members, lastKey, newKey))))
  }

  /** renameKey with the rebuilt object written back at every depth, the root included. */
  function RenameKey(content: Json, keyFullPath: string, newKey: string): RenameOutcome {
    var path := Parents(keyFullPath);
    var lastKey := LastKey(keyFullPath);
    match Reach(content, path)
    case None => KeyNotFound
    case Some(result) =>
      if result.Null? then Thrown
      else if !result.Obj? || !HasKey(result.members, lastKey) then KeyNotFound
      else Written(ReplaceAt(content, path, Obj(RenamedMembers(result.members, lastKey, newKey))))
  }

  /** Replacing along a path that reaches a value puts `x` where that value was. */
  lemma {:induction false} ReachReplaceAt(t: Json, path: seq<string>, x: Json)
    requires Reach(t, path).Some?
    ensures Reach(ReplaceAt(t, path, x), path) == Some(x)
    decreases |path|
  {
    if path != [] {
      var c := Lookup(t.members, path[0]);
      ReachReplaceAt(c, path[1..], x);
      var ms' := SetProp(t.members, path[0], ReplaceAt(c, path[1..], x));
      LookupSetProp(t.members, path[0], ReplaceAt(c, path[1..], x), path[0]);
      assert Keys(ms') == Keys(t.members);
    }
  }

  /**
   * The write-back leaves every sibling along the path as it was: at each depth
   * `j`, every property of the object reached other than the next segment
   * reads as before.
   */
  lemma {:induction false} ReplaceAtKeepsSiblings(t: Json, path: seq<string>, x: Json, j: nat, k: string)
    requires j < |path| && k != path[j]
    ensures Get(Descend(ReplaceAt(t, path, x), path[..j]), k) == Get(Descend(t, path[..j]), k)
    decreases |path|
  {
    if t.Obj? {
      var c := Lookup(t.members, path[0]);
      var r := ReplaceAt(t, path, x);
      if j == 0 {
        LookupSetProp(t.members, path[0], ReplaceAt(c, path[1..], x), k);
      } else {
        LookupSetProp(t.members, path[0], ReplaceAt(c, path[1..], x), path[0]);
        DescendPrefix(r, path, j);
        DescendPrefix(t, path, j);
        ReplaceAtKeepsSiblings(c, path[1..], x, j - 1, k);
      }
    }
  }

  /**
   * renameKey writes exactly when every intermediate segment is found and the
   * parent reached is an object holding the last key; then the parent reached over the same path is the rebuilt object.
   */
  lemma RenameKeyOutcome(content: Json, keyFullPath: string, newKey: string)
    ensures var path := Parents(keyFullPath);
      var r := Reach(content, path);
      && (RenameKey(content, keyFullPath, newKey).Written? <==>
          r.Some? && r.value.Obj? && HasKey(r.value.members, LastKey(keyFullPath)))
      && (RenameKey(content, keyFullPath, newKey).Written? ==>
          Reach(RenameKey(content, keyFullPath, newKey).content, path)
            == Some(Obj(RenamedMembers(r.value.members, LastKey(keyFullPath), newKey))))
  {
    var path := Parents(keyFullPath);
    if RenameKey(content, keyFullPath, newKey).Written? {
      var ms := Reach(content, path).value.members;
      ReachReplaceAt(content, path, Obj(RenamedMembers(ms, LastKey(keyFullPath), newKey)));
    }
  }

  /** With at least one intermediate segment the write-back as written is the full replacement. */
  lemma RenameKeyNestedAsWritten(content: Json, keyFullPath: string, newKey: string)
    requires Parents(keyFullPath) != []
    ensures RenameKeyAsWritten(content, keyFullPath, newKey) == RenameKey(content, keyFullPath, newKey)
  {
  }

  /**
   * For a path without `.`, renameKey as written builds the renamed object and
   * then writes the content back as it was read; the corrected write-back
   * replaces the root with the renamed object.
   */
  lemma RenameTopLevelAsWritten(ms: seq<Member>, key: string, newKey: string)
    requires '.' !in key && HasKey(ms, key)
    ensures RenameKeyAsWritten(Obj(ms), key, newKey) == Written(Obj(ms))
    ensures RenameKey(Obj(ms), key, newKey) == Written(Obj(RenamedMembers(ms, key, newKey)))
  {
    FlatPath(key);
  }

  /** The concrete case: renaming `a` to `b` in `{"a": "x"}`. */
  lemma RenameTopLevelExample()
    ensures RenameKeyAsWritten(Obj([Member("a", Str("x"))]), "a", "b") == Written(Obj([Member("a", Str("x"))]))
    ensures RenameKey(Obj([Member("a", Str("x"))]), "a", "b") == Written(Obj([Member("b", Str("x"))]))
  {
    var ms := [Member("a", Str("x"))];
    assert Keys(ms)[0] == "a";
    RenameTopLevelAsWritten(ms, "a", "b");
    assert ms[..0] == [];
    assert RenamedMembers(ms, "a", "b") == SetProp([], "b", Str("x"));
  }

  // ---------------------------------------------------------------------------
  // getKeys

  /** The keys a `for ... in` loop visits on the parent: an object's own keys in order, nothing otherwise. */
  function ForInKeys(v: Json): seq<string> {
    if v.Obj? then Keys(v.members) else []
  }

  /** `key.toLowerCase().startsWith(lastKey.toLowerCase())`. */
  predicate PrefixIgnoringCase(key: string, prefix: string) {
    StartsWith(LowerStr(key), LowerStr(prefix))
  }

  /** The keys that pass getKeys' test, in the order given. */
  function MatchingKeys(ks: seq<string>, prefix: string): seq<string>
    decreases |ks|
  {
    if ks == [] then []
    else
      var rest := MatchingKeys(ks[..|ks| - 1], prefix);
      if PrefixIgnoringCase(ks[|ks| - 1], prefix) then rest + [ks[|ks| - 1]] else rest
  }

  /** A key is listed exactly when it is one of the parent's keys and passes the test. */
  lemma {:induction false} MatchingKeysSpec(ks: seq<string>, prefix: string)
    ensures forall k :: k in MatchingKeys(ks, prefix) <==> k in ks && PrefixIgnoringCase(k, prefix)
    ensures |MatchingKeys(ks, prefix)| <= |ks|
    decreases |ks|
  {
    if ks != [] {
      MatchingKeysSpec(ks[..|ks| - 1], prefix);
      assert ks == ks[..|ks| - 1] + [ks[|ks| - 1]];
    }
  }

  /** Without an English file getKeys returns `[]`; with one, `false` (None) or the matching keys. */
  function GetKeysResult(en: Option<Json>, keyFullPath: string): Option<seq<string>> {
    if en.None? then Some([])
    else match Walk(en.value, Parents(keyFullPath))
      case None => None
      case Some(parent) => Some(MatchingKeys(ForInKeys(parent), LastKey(keyFullPath)))
  }

  /**
   * getKeys: `en` is the parsed English translation file, None when no file is
   * configured for `en` or its path is empty. The cursor loop finds the parent,
   * then the `for ... in` loop pushes every key that passes the test.
   */
  method GetKeys(en: Option<Json>, keyFullPath: string) returns (r: Option<seq<string>>)
    ensures r == GetKeysResult(en, keyFullPath)
  {
    if en.None? {
      return Some([]);
    }
    var keys := Split(keyFullPath, '.');
    var lastKey := keys[|keys| - 1];
    keys := keys[..|keys| - 1];
    var parentKey := en.value;
    var i := 0;
    while i < |keys|
      invariant 0 <= i <= |keys|
      invariant Walk(en.value, keys) == Walk(parentKey, keys[i..])
    {
      assert keys[i..][0] == keys[i] && keys[i..][1..] == keys[i + 1..];
      if !Truthy(Get(parentKey, keys[i])) {
        return None;
      }
      parentKey := Get(parentKey, keys[i]);
      i := i + 1;
    }
    var candidates := ForInKeys(parentKey);
    var keyList := [];
    for j := 0 to |candidates|
      invariant keyList == MatchingKeys(candidates[..j], lastKey)
    {
      assert candidates[..j + 1][..j] == candidates[..j];
      if PrefixIgnoringCase(candidates[j], lastKey) {
        keyList := keyList + [candidates[j]];
      }
    }
    assert candidates[..|candidates|] == candidates;
    return Some(keyList);
  }

  /** getKeys lists exactly the parent's keys that start with the last segment, ignoring ASCII case. */
  lemma GetKeysSpec(en: Json, keyFullPath: string)
    requires Walk(en, Parents(keyFullPath)).Some?
    ensures var parent := Walk(en, Parents(keyFullPath)).value;
      forall k :: k in GetKeysResult(Some(en), keyFullPath).value <==>
        k in ForInKeys(parent) && PrefixIgnoringCase(k, LastKey(keyFullPath))
  {
    MatchingKeysSpec(ForInKeys(Walk(en, Parents(keyFullPath)).value), LastKey(keyFullPath));
  }

  // ---------------------------------------------------------------------------
  // findKeyPosition

  /** A position in a document: line and character. */
  datatype Position = Position(line: nat, character: nat)

  /** The characters `\w` matches, whose edges `\b` marks. */
  predicate IsWordChar(c: char) {
    ('a' <= c <= 'z') || ('A' <= c <= 'Z') || ('0' <= c <= '9') || c == '_'
  }

  /** `\b` at position `p`: a word character on exactly one side. */
  predicate BoundaryAt(s: string, p: nat)
    requires p <= |s|
  {
    (p > 0 && IsWordChar(s[p - 1])) != (p < |s| && IsWordChar(s[p]))
  }

  /** `\s*:` matches at `q`. */
  predicate ColonAfter(s: string, q: nat)
    requires q <= |s|
  {
    var t := TrimStart(s[q..]);
    t != [] && t[0] == ':'
  }

  /**
   * The pattern for one segment matches at `p`: `"key"` then `\s*:` in a JSON
   * document, `\bkey\b` then `\s*:` elsewhere (the trailing `\s*` of some
   * patterns matches the empty text at worst, so it changes neither the test
   * nor the position).
   */
  predicate KeyMatchAt(line: string, key: string, isJson: bool, p: nat) {
    if isJson then
      OccursAt(line, "\"" + key + "\"", p) && ColonAfter(line, p + |key| + 2)
    else
      OccursAt(line, key, p) && BoundaryAt(line, p) && BoundaryAt(line, p + |key|) && ColonAfter(line, p + |key|)
  }

  /** `exec` on one line from position `p` on: the leftmost position where the pattern matches. */
  function FirstMatchFrom(line: string, key: string, isJson: bool, p: nat): (r: Option<nat>)
    ensures r.Some? ==> p <= r.value <= |line| && KeyMatchAt(line, key, isJson, r.value)
    decreases |line| + 1 - p
  {
    if p > |line| then None
    else if KeyMatchAt(line, key, isJson, p) then Some(p)
    else FirstMatchFrom(line, key, isJson, p + 1)
  }

  /** No position before the one found matches; none at all when nothing is found. */
  lemma {:induction false} FirstMatchFromLeftmost(line: string, key: string, isJson: bool, p: nat, q: nat)
    requires p <= q <= |line|
    requires FirstMatchFrom(line, key, isJson, p).None? || q < FirstMatchFrom(line, key, isJson, p).value
    ensures !KeyMatchAt(line, key, isJson, q)
    decreases |line| + 1 - p
  {
    if q > p {
      assert FirstMatchFrom(line, key, isJson, p) ==
        if KeyMatchAt(line, key, isJson, p) then Some(p) else FirstMatchFrom(line, key, isJson, p + 1);
      FirstMatchFromLeftmost(line, key, isJson, p + 1, q);
    }
  }

  /**
   * The rest of findKeyPosition's loop from line `i` with `level` segments
   * matched: while segments remain, a line matching the current one moves to
   * the next; on the last segment the first matching line gives the position.
   */
  function FindFrom(lines: seq<string>, keys: seq<string>, isJson: bool, i: nat, level: nat): Option<Position>
    requires level < |keys|
    decreases |lines| - i
  {
    if i >= |lines| then None
    else if level < |keys| - 1 then
      FindFrom(lines, keys, isJson, i + 1, if FirstMatchFrom(lines[i], keys[level], isJson, 0).Some? then level + 1 else level)
    else
      match FirstMatchFrom(lines[i], keys[level], isJson, 0)
      case Some(p) => Some(Position(i, p))
      case None => FindFrom(lines, keys, isJson, i + 1, level)
  }

  /**
   * findKeyPosition on the document's lines; `isJson` is whether the document's
   * language is `json`. The level counter never decreases and stays below the
   * number of segments.
   */
  method FindKeyPosition(lines: seq<string>, path: string, isJson: bool) returns (r: Option<Position>)
    ensures r == FindFrom(lines, Split(path, '.'), isJson, 0, 0)
  {
    var keys := Split(path, '.');
    var currentLevel := 0;
    var i := 0;
    while i < |lines|
      invariant 0 <= i <= |lines|
      invariant 0 <= currentLevel < |keys|
      invariant FindFrom(lines, keys, isJson, 0, 0) == FindFrom(lines, keys, isJson, i, currentLevel)
    {
      var match_ := FirstMatchFrom(lines[i], keys[currentLevel], isJson, 0);
      if currentLevel < |keys| - 1 {
        if match_.Some? {
          currentLevel := currentLevel + 1;
        }
      } else {
        if match_.Some? {
          return Some(Position(i, match_.value));
        }
      }
      i := i + 1;
    }
    return None;
  }

  /** Line numbers `ws`, strictly increasing and in `[lo, hi)`, on which `keys[level..]` match one after the other. */
  predicate MatchedInOrder(lines: seq<string>, keys: seq<string>, isJson: bool, level: nat, ws: seq<nat>, lo: nat, hi: nat)
    decreases |ws|
  {
    if ws == [] then level == |keys|
    else
      && level < |keys| && lo <= ws[0] < hi && ws[0] < |lines|
      && FirstMatchFrom(lines[ws[0]], keys[level], isJson, 0).Some?
      && MatchedInOrder(lines, keys, isJson, level + 1, ws[1..], ws[0] + 1, hi)
  }

  /** A matching line in front of matches for the following segments on later lines. */
  lemma MatchedInOrderCons(lines: seq<string>, keys: seq<string>, isJson: bool, level: nat, i: nat, ws: seq<nat>, hi: nat)
    requires level < |keys| && i < |lines| && i < hi
    requires FirstMatchFrom(lines[i], keys[level], isJson, 0).Some?
    requires MatchedInOrder(lines, keys, isJson, level + 1, ws, i + 1, hi)
    ensures MatchedInOrder(lines, keys, isJson, level, [i] + ws, i, hi)
  {
    assert ([i] + ws)[1..] == ws;
  }

  /**
   * A position found from line `i` lies on a line at or after `i` whose leftmost
   * match of the last segment starts there, and the segments from `level` up
   * to the last but one matched, in order, on earlier lines from `i` on.
   */
  lemma {:induction false} FindFromSound(lines: seq<string>, keys: seq<string>, isJson: bool, i: nat, level: nat)
      returns (ws: seq<nat>)
    requires level < |keys|
    requires FindFrom(lines, keys, isJson, i, level).Some?
    ensures var pos := FindFrom(lines, keys, isJson, i, level).value;
      && i <= pos.line < |lines|
      && FirstMatchFrom(lines[pos.line], keys[|keys| - 1], isJson, 0) == Some(pos.character)
      && MatchedInOrder(lines, keys[..|keys| - 1], isJson, level, ws, i, pos.line)
    decreases |lines| - i
  {
    var pos := FindFrom(lines, keys, isJson, i, level).value;
    var front := keys[..|keys| - 1];
    var m := FirstMatchFrom(lines[i], keys[level], isJson, 0);
    if level < |keys| - 1 {
      var level' := if m.Some? then level + 1 else level;
      assert FindFrom(lines, keys, isJson, i, level) == FindFrom(lines, keys, isJson, i + 1, level');
      var rest := FindFromSound(lines, keys, isJson, i + 1, level');
      if m.Some? {
        ws := [i] + rest;
        MatchedInOrderCons(lines, front, isJson, level, i, rest, pos.line);
      } else {
        ws := rest;
      }
    } else {
      ws := [];
      if m.None? {
        assert FindFrom(lines, keys, isJson, i, level) == FindFrom(lines, keys, isJson, i + 1, level);
        var _ := FindFromSound(lines, keys, isJson, i + 1, level);
      } else {
        assert pos == Position(i, m.value);
      }
    }
  }

  /**
   * findKeyPosition finds the earliest line it can: whenever lines `ws` from
   * `i` on match the segments from `level` to the last but one in order, and a
   * later line `p` matches the last segment, a position is found, on `p` or
   * before it.
   */
  lemma {:induction false} FindFromLeast(lines: seq<string>, keys: seq<string>, isJson: bool, i: nat, level: nat, ws: seq<nat>, p: nat)
    requires level < |keys| && i <= p < |lines|
    requires MatchedInOrder(lines, keys[..|keys| - 1], isJson, level, ws, i, p)
    requires FirstMatchFrom(lines[p], keys[|keys| - 1], isJson, 0).Some?
    ensures FindFrom(lines, keys, isJson, i, level).Some?
    ensures FindFrom(lines, keys, isJson, i, level).value.line <= p
    decreases |lines| - i
  {
    var m := FirstMatchFrom(lines[i], keys[level], isJson, 0);
    if level < |keys| - 1 {
      assert ws != [];
      if m.Some? {
        assert FindFrom(lines, keys, isJson, i, level) == FindFrom(lines, keys, isJson, i + 1, level + 1);
        FindFromLeast(lines, keys, isJson, i + 1, level + 1, ws[1..], p);
      } else {
        assert ws[0] != i;
        assert FindFrom(lines, keys, isJson, i, level) == FindFrom(lines, keys, isJson, i + 1, level);
        FindFromLeast(lines, keys, isJson, i + 1, level, ws, p);
      }
    } else {
      assert ws == [];
      if m.None? {
        assert p != i;
        assert FindFrom(lines, keys, isJson, i, level) == FindFrom(lines, keys, isJson, i + 1, level);
        FindFromLeast(lines, keys, isJson, i + 1, level, ws, p);
      }
    }
  }

  /**
   * When findKeyPosition finds nothing, no line after lines matching the
   * earlier segments in order matches the last segment.
   */
  lemma FindFromNone(lines: seq<string>, keys: seq<string>, isJson: bool, i: nat, level: nat, ws: seq<nat>, p: nat)
    requires level < |keys| && i <= p < |lines|
    requires FindFrom(lines, keys, isJson, i, level).None?
    requires MatchedInOrder(lines, keys[..|keys| - 1], isJson, level, ws, i, p)
    ensures FirstMatchFrom(lines[p], keys[|keys| - 1], isJson, 0).None?
  {
    if FirstMatchFrom(lines[p], keys[|keys| - 1], isJson, 0).Some? {
      FindFromLeast(lines, keys, isJson, i, level, ws, p);
    }
  }

  /**
   * The line found is the first one after the last earlier-segment match on
   * which the last segment matches: no line in between matches it.
   */
  lemma FindFromFirst(lines: seq<string>, keys: seq<string>, isJson: bool, i: nat, level: nat) returns (ws: seq<nat>)
    requires level < |keys|
    requires FindFrom(lines, keys, isJson, i, level).Some?
    ensures var pos := FindFrom(lines, keys, isJson, i, level).value;
      && i <= pos.line < |lines|
      && MatchedInOrder(lines, keys[..|keys| - 1], isJson, level, ws, i, pos.line)
      && forall l | (if ws == [] then i else ws[|ws| - 1] + 1) <= l < pos.line ::
           FirstMatchFrom(lines[l], keys[|keys| - 1], isJson, 0).None?
  {
    var pos := FindFrom(lines, keys, isJson, i, level).value;
    ws := FindFromSound(lines, keys, isJson, i, level);
    forall l | (if ws == [] then i else ws[|ws| - 1] + 1) <= l < pos.line
      ensures FirstMatchFrom(lines[l], keys[|keys| - 1], isJson, 0).None?
    {
      if FirstMatchFrom(lines[l], keys[|keys| - 1], isJson, 0).Some? {
        MatchedInOrderBefore(lines, keys[..|keys| - 1], isJson, level, ws, i, pos.line, l);
        FindFromLeast(lines, keys, isJson, i, level, ws, l);
      }
    }
  }

  /** Lines matched in order below `hi` are also matched in order below any bound past the last of them. */
  lemma {:induction false} MatchedInOrderBefore(lines: seq<string>, keys: seq<string>, isJson: bool, level: nat, ws: seq<nat>, lo: nat, hi: nat, hi': nat)
    requires MatchedInOrder(lines, keys, isJson, level, ws, lo, hi)
    requires ws == [] || ws[|ws| - 1] < hi'
    ensures MatchedInOrder(lines, keys, isJson, level, ws, lo, hi')
    decreases |ws|
  {
    if ws != [] && |ws| > 1 {
      assert ws[1..][|ws[1..]| - 1] == ws[|ws| - 1];
      MatchedInOrderBefore(lines, keys, isJson, level + 1, ws[1..], ws[0] + 1, hi, hi');
    }
  }
}
