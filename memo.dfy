/**
 * The memoization registry of src/firebase/memo.ts: `useMemoFirebase`
 * records every object it hands out in a process-wide set, and
 * `isFirebaseMemoized` asks whether a value came through that path.
 *
 * Objects are known by identity only (ObjId): two structurally equal objects
 * built independently have different identities.
 */
module Memo {

  /** The identity of a heap object. */
  type ObjId = nat

  /** The JavaScript values the registry can be handed. */
  datatype JsValue =
    | Undefined
    | Null
    | Bool(b: bool)
    | Number(n: int)
    | Text(s: string)
    | Function(fid: ObjId)
    | Object(id: ObjId)

  /**
   * JavaScript truthiness (NaN, which is falsy too, is not among the numbers
   * here): the falsy values are exactly undefined, null, false, 0 and "".
   */
  function Truthy(v: JsValue): (b: bool)
    ensures !b <==> v in {Undefined, Null, Bool(false), Number(0), Text("")}
  {
    match v
    case Undefined => false
    case Null => false
    case Bool(b) => b
    case Number(n) => n != 0
    case Text(s) => s != ""
    case Function(_) => true
    case Object(_) => true
  }

  /** The `typeof` operator; note that `typeof null` is "object". */
  function TypeOf(v: JsValue): (t: string)
    ensures t == "object" <==> v.Object? || v.Null?
  {
    match v
    case Undefined => "undefined"
    case Null => "object"
    case Bool(_) => "boolean"
    case Number(_) => "number"
    case Text(_) => "string"
    case Function(_) => "function"
    case Object(_) => "object"
  }

  /**
   * The test `v && typeof v === 'object'` of lines 19 and 31: it holds
   * exactly of objects, `null` being excluded by its falsiness.
   */
  function IsObjectValue(v: JsValue): (b: bool)
    ensures b <==> v.Object?
  {
    Truthy(v) && TypeOf(v) == "object"
  }

  /** What one `useMemoFirebase` call adds to the registry for its result. */
  function Registered(v: JsValue): (ids: set<ObjId>)
    ensures forall x :: x in ids <==> v == Object(x)
  {
    if IsObjectValue(v) then {v.id} else {}
  }

  /** The registry after `useMemoFirebase` has returned each of `results` in turn. */
  function RegistryAfter(start: set<ObjId>, results: seq<JsValue>): (ids: set<ObjId>)
    ensures start <= ids
  {
    if results == [] then start
    else RegistryAfter(start, results[..|results| - 1]) + Registered(results[|results| - 1])
  }

  /**
   * The registry holds exactly the objects it started with and the objects
   * returned since: re-adding changes nothing, nothing else is ever added and
   * nothing is ever removed.
   */
  lemma {:induction false} RegistryAfterHolds(start: set<ObjId>, results: seq<JsValue>, x: ObjId)
    ensures x in RegistryAfter(start, results) <==> x in start || Object(x) in results
  {
    if results != [] {
      var prefix := results[..|results| - 1];
      RegistryAfterHolds(start, prefix, x);
      assert results == prefix + [results[|results| - 1]];
    }
  }

  /** `firebaseMemoRegistry` (line 10), a WeakSet of object identities. */
  class MemoRegistry {
    var members: set<ObjId>

    constructor ()
      ensures members == {}
    {
      members := {};
    }

    /**
     * `isFirebaseMemoized` (lines 29-33): every non-object, `null` included,
     * counts as memoized; an object does when the registry holds it.
     */
    function IsFirebaseMemoized(obj: JsValue): (memoized: bool)
      reads this
      ensures !obj.Object? ==> memoized
      ensures obj.Object? ==> (memoized <==> obj.id in members)
    {
      if !IsObjectValue(obj) then true else obj.id in members
    }

    /**
     * `useMemoFirebase` (lines 15-24); React's `useMemo` is taken to return
     * the factory's value.
     */
    method UseMemoFirebase(factory: () -> JsValue) returns (memoized: JsValue)
      modifies this
      ensures memoized == factory()
      ensures members == RegistryAfter(old(members), [memoized])
      ensures !memoized.Object? ==> members == old(members)
      ensures IsFirebaseMemoized(memoized)
    {
      memoized := factory();
      if IsObjectValue(memoized) {
        members := members + {memoized.id};
      }
    }

    /**
     * When the registry was built by a run of `useMemoFirebase` calls, a
     * value is reported memoized exactly when it is not an object or it was
     * one of the results.
     */
    lemma MemoizedIffReturned(results: seq<JsValue>, v: JsValue)
      requires members == RegistryAfter({}, results)
      ensures IsFirebaseMemoized(v) <==> !v.Object? || v in results
    {
      if v.Object? {
        RegistryAfterHolds({}, results, v.id);
      }
    }
  }

  /**
   * The number 5, `null` and the string "x" count as memoized; a fresh
   * object does not until `useMemoFirebase` has returned it, and another
   * object still does not.
   */
  method RegistryExample() {
    var registry := new MemoRegistry();
    assert registry.IsFirebaseMemoized(Number(5));
    assert registry.IsFirebaseMemoized(Null);
    assert registry.IsFirebaseMemoized(Text("x"));
    assert !registry.IsFirebaseMemoized(Object(1));
    var r := registry.UseMemoFirebase(() => Object(1));
    assert r == Object(1);
    assert registry.IsFirebaseMemoized(Object(1));
    assert !registry.IsFirebaseMemoized(Object(2));
  }
}
