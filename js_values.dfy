/**
 * JavaScript values as the extension sees them after `JSON.parse`, plus
 * `undefined` (what a missing property reads as). An object keeps its members
 * in insertion order, which is the order `Object.entries` and `for ... in`
 * report for the non-numeric keys of a translation file.
 */
module JsValues {
  import opened Strings

  datatype Json =
    | Undefined
    | Null
    | Bool(b: bool)
    | Num(n: int)
    | Str(s: string)
    | Arr(items: seq<Json>)
    | Obj(members: seq<Member>)

  datatype Member = Member(key: string, value: Json)

  /** JavaScript truthiness: `undefined`, `null`, `false`, `0` and `""` are falsy. */
  predicate Truthy(v: Json) {
    match v
    case Undefined => false
    case Null => false
    case Bool(b) => b
    case Num(n) => n != 0
    case Str(s) => s != []
    case Arr(_) => true
    case Obj(_) => true
  }

  /** The keys of an object's members, in order. */
  function Keys(ms: seq<Member>): (ks: seq<string>)
    ensures |ks| == |ms|
    ensures forall i | 0 <= i < |ms| :: ks[i] == ms[i].key
  {
    seq(|ms|, i requires 0 <= i < |ms| => ms[i].key)
  }

  /** No key occurs twice, as in every object `JSON.parse` builds. */
  predicate UniqueKeys(ms: seq<Member>) {
    forall i, j | 0 <= i < j < |ms| :: ms[i].key != ms[j].key
  }

  /** `key in obj` for an own property. */
  predicate HasKey(ms: seq<Member>, k: string) {
    k in Keys(ms)
  }

  /** `obj[k]` on an object: the member's value, or `undefined` when absent. */
  function Lookup(ms: seq<Member>, k: string): (r: Json)
    ensures !HasKey(ms, k) ==> r == Undefined
    ensures HasKey(ms, k) && ms[0].key == k ==> r == ms[0].value
  {
    if ms == [] then Undefined
    else if ms[0].key == k then ms[0].value
    else
      assert HasKey(ms, k) ==> HasKey(ms[1..], k) by {
        if HasKey(ms, k) {
          var i :| 0 <= i < |ms| && Keys(ms)[i] == k;
          assert i > 0 && Keys(ms[1..])[i - 1] == k;
        }
      }
      Lookup(ms[1..], k)
  }

  /** `v[k]` for any value: only objects have the properties a translation path can name. */
  function Get(v: Json, k: string): Json {
    if v.Obj? then Lookup(v.members, k) else Undefined
  }

  /** `obj[k] = v`: an existing member keeps its place, a new one goes last. */
  function SetProp(ms: seq<Member>, k: string, v: Json): (r: seq<Member>)
    ensures HasKey(ms, k) ==> Keys(r) == Keys(ms)
    ensures !HasKey(ms, k) ==> r == ms + [Member(k, v)]
  {
    if ms == [] then [Member(k, v)]
    else if ms[0].key == k then [Member(k, v)] + ms[1..]
    else
      var rest := SetProp(ms[1..], k, v);
      assert HasKey(ms, k) ==> HasKey(ms[1..], k) by {
        if HasKey(ms, k) {
          var i :| 0 <= i < |ms| && Keys(ms)[i] == k;
          assert i > 0 && Keys(ms[1..])[i - 1] == k;
        }
      }
      assert ms == [ms[0]] + ms[1..];
      [ms[0]] + rest
  }

  /** `delete obj[k]`: the member goes, the others keep their order. */
  function DeleteProp(ms: seq<Member>, k: string): (r: seq<Member>)
    ensures !HasKey(r, k)
    ensures |r| <= |ms|
  {
    if ms == [] then []
    else if ms[0].key == k then DeleteProp(ms[1..], k)
    else [ms[0]] + DeleteProp(ms[1..], k)
  }

  /** After `obj[k] = v`, reading `obj[k]` gives `v` and every other property reads as before. */
  lemma {:induction false} LookupSetProp(ms: seq<Member>, k: string, v: Json, k': string)
    ensures Lookup(SetProp(ms, k, v), k') == if k' == k then v else Lookup(ms, k')
  {
    if ms != [] && ms[0].key != k {
      LookupSetProp(ms[1..], k, v, k');
    }
  }

  /** After `delete obj[k]`, every other property reads as before. */
  lemma {:induction false} LookupDeleteProp(ms: seq<Member>, k: string, k': string)
    requires k' != k
    ensures Lookup(DeleteProp(ms, k), k') == Lookup(ms, k')
  {
    if ms != [] {
      LookupDeleteProp(ms[1..], k, k');
    }
  }

  /** Deleting a key removes exactly that key from the key list, order kept. */
  lemma {:induction false} KeysDeleteProp(ms: seq<Member>, k: string, k': string)
    requires k' != k
    ensures HasKey(DeleteProp(ms, k), k') <==> HasKey(ms, k')
  {
    if ms != [] {
      KeysDeleteProp(ms[1..], k, k');
      assert Keys(ms) == [ms[0].key] + Keys(ms[1..]);
      if ms[0].key != k {
        assert Keys(DeleteProp(ms, k)) == [ms[0].key] + Keys(DeleteProp(ms[1..], k));
      }
    }
  }

  /** Decimal digits of a non-negative integer. */
  function NatToString(n: nat): (r: string)
    ensures r != []
    ensures forall i | 0 <= i < |r| :: '0' <= r[i] <= '9'
  {
    if n < 10 then ["0123456789"[n]]
    else NatToString(n / 10) + ["0123456789"[n % 10]]
  }

  /** `String(n)` for an integer. */
  function IntToString(n: int): string {
    if n < 0 then "-" + NatToString(-n) else NatToString(n)
  }

  /**
   * The text a template literal `${v}` produces: strings as they are,
   * `[object Object]` for objects, arrays joined with "," (their `null` and
   * `undefined` elements as "").
   */
  function ToJsString(v: Json): string
    decreases v
  {
    match v
    case Undefined => "undefined"
    case Null => "null"
    case Bool(b) => if b then "true" else "false"
    case Num(n) => IntToString(n)
    case Str(s) => s
    case Obj(_) => "[object Object]"
    case Arr(items) =>
      Join(seq(|items|, i requires 0 <= i < |items| =>
        if items[i].Null? || items[i].Undefined? then "" else ToJsString(items[i])), ",")
  }
}
