/**
 * The `useCollection` hook of src/firebase/firestore/use-collection.tsx: three
 * state cells (`data`, `isLoading`, `error`) driven by the effect that opens a
 * Firestore listener, by the listener's snapshot and error callbacks and by
 * the effect's cleanup; plus the render-time memoization warning.
 *
 * React's scheduling and Firestore's `onSnapshot` are not modelled: each
 * step is a method the embedding runtime calls, in the orders they allow.
 */
module UseCollection {
  import opened Wrappers
  import Memo

  /** The shape of a listener target: a collection reference or a query. */
  datatype TargetKind =
    | CollectionRef(path: string)
      /** What the query's internal path answers to `canonicalString()` and `toString()`; None when the accessor is missing. */
    | QueryRef(canonical: Option<string>, display: Option<string>)

  /** A target object: its identity (for memoization and effect dependencies) and its shape. */
  datatype Target = Target(id: Memo.ObjId, kind: TargetKind)

  /** A field value of a document. */
  datatype Value = Null | Bool(b: bool) | Number(n: int) | Text(s: string)

  type Fields = map<string, Value>

  /** A document of a query snapshot: its id and what `doc.data()` returns. */
  datatype Doc = Doc(id: string, fields: Fields)

  /** The operation kinds a permission error can carry. */
  datatype Operation = Get | List | Create | Update | Delete | Write

  /** `FirestorePermissionError`, built from its operation and resource path. */
  datatype PermissionError = PermissionError(operation: Operation, path: string)

  /** An emission on the error emitter; the one event name used is "permission-error". */
  datatype Event = PermissionErrorEvent(payload: PermissionError)

  /** `UseCollectionResult` (lines 18-22). */
  datatype UseCollectionResult = UseCollectionResult(data: Option<seq<Fields>>, isLoading: bool, error: Option<PermissionError>)

  /**
   * Line 57: `{ ...doc.data(), id: doc.id }`. The document's fields are kept
   * and `id` is the document id, replacing any field of that name.
   */
  function WithId(d: Doc): (row: Fields)
    ensures row.Keys == d.fields.Keys + {"id"}
    ensures row["id"] == Text(d.id)
    ensures forall k :: k in d.fields && k != "id" ==> row[k] == d.fields[k]
  {
    d.fields["id" := Text(d.id)]
  }

  /** Line 57: `snapshot.docs.map(...)`, one row per document, in the snapshot's order. */
  function Rows(docs: seq<Doc>): (rows: seq<Fields>)
    ensures |rows| == |docs|
    ensures forall i :: 0 <= i < |docs| ==> rows[i] == WithId(docs[i])
  {
    if docs == [] then [] else [WithId(docs[0])] + Rows(docs[1..])
  }

  /** `a || b` on an optional string: a missing or empty text is falsy. */
  predicate Present(s: Option<string>) {
    s.Some? && s.value != ""
  }

  /**
   * Lines 63-69: the path reported when the listener fails. A collection
   * reports its own path; a query its canonical string, else its `toString()`,
   * else "unknown-query". The placeholder "unknown-collection" the source
   * starts from is always overwritten, so it is never reported for a query.
   */
  function FailurePath(kind: TargetKind): (path: string)
    ensures kind.CollectionRef? ==> path == kind.path
    ensures kind.QueryRef? ==> path != ""
    ensures kind.QueryRef? && Present(kind.canonical) ==> path == kind.canonical.value
    ensures kind.QueryRef? && !Present(kind.canonical) && Present(kind.display) ==> path == kind.display.value
    ensures kind.QueryRef? && !Present(kind.canonical) && !Present(kind.display) ==> path == "unknown-query"
  {
    match kind
    case CollectionRef(p) => p
    case QueryRef(canonical, display) =>
      if Present(canonical) then canonical.value
      else if Present(display) then display.value
      else "unknown-query"
  }

  /** The error the failure callback builds (lines 71-74). */
  function FailureError(target: Target): (err: PermissionError)
    ensures err.operation == List
    ensures err.path == FailurePath(target.kind)
  {
    PermissionError(List, FailurePath(target.kind))
  }

  /** Lines 86-88: whether rendering with `target` warns that it was not memoized. */
  function Warns(target: Option<Target>, registry: Memo.MemoRegistry): (warns: bool)
    reads registry
    ensures warns <==> target.Some? && target.value.id !in registry.members
  {
    target.Some? && !registry.IsFirebaseMemoized(Memo.Object(target.value.id))
  }

  /**
   * A target warns exactly when it was never returned by `useMemoFirebase`
   * (for a registry built by a run of such calls); no target never warns.
   */
  lemma WarnsIffNotMemoized(registry: Memo.MemoRegistry, results: seq<Memo.JsValue>, target: Option<Target>)
    requires registry.members == Memo.RegistryAfter({}, results)
    ensures Warns(target, registry) <==> target.Some? && Memo.Object(target.value.id) !in results
  {
    if target.Some? {
      registry.MemoizedIffReturned(results, Memo.Object(target.value.id));
    }
  }

  /** The numbers 0 .. n-1 in order. */
  function Upto(n: nat): (s: seq<int>)
    ensures |s| == n
  {
    if n == 0 then [] else Upto(n - 1) + [n - 1]
  }

  /** Every listener in Upto(n) is listed once, and nothing else is. */
  lemma {:induction false} UptoOnce(n: nat, i: int)
    ensures multiset(Upto(n))[i] == if 0 <= i < n then 1 else 0
  {
    if n > 0 {
      UptoOnce(n - 1, i);
      assert multiset(Upto(n)) == multiset(Upto(n - 1)) + multiset{n - 1};
    }
  }

  /** The process-wide `errorEmitter`, reduced to the log of what it was asked to emit. */
  class ErrorEmitter {
    var emitted: seq<Event>

    constructor ()
      ensures emitted == []
    {
      emitted := [];
    }

    method Emit(e: Event)
      modifies this
      ensures emitted == old(emitted) + [e]
    {
      emitted := emitted + [e];
    }
  }

  /** One mounted `useCollection` hook. */
  class CollectionHook {
    const emitter: ErrorEmitter
    var data: Option<seq<Fields>>
    var isLoading: bool
    var error: Option<PermissionError>
    /** The target of the listener the last effect opened, while its cleanup has not run. */
    var live: Option<Target>
    /** The targets of the listeners opened so far, in order; listener i is listeners[i]. */
    ghost var listeners: seq<Target>
    /** The listeners unsubscribed so far, by index, in order. */
    ghost var unsubscribed: seq<int>

    /**
     * An error is only ever shown with no data and not loading; the live
     * listener is the last one opened; every other listener has been
     * unsubscribed, once, in the order they were opened.
     */
    ghost predicate Valid()
      reads this
      ensures Valid() ==> (error.Some? ==> data.None? && !isLoading)
      ensures Valid() ==> |unsubscribed| == |listeners| - (if live.Some? then 1 else 0)
    {
      && (error.Some? ==> data.None? && !isLoading && error.value.operation == List)
      && (live.Some? ==> |listeners| > 0 && live.value == listeners[|listeners| - 1])
      && unsubscribed == Upto(if live.Some? then |listeners| - 1 else |listeners|)
    }

    /** Lines 39-41: the initial state. */
    constructor (emitter: ErrorEmitter)
      ensures Valid() && this.emitter == emitter
      ensures data.None? && !isLoading && error.None?
      ensures live.None? && listeners == [] && unsubscribed == []
    {
      this.emitter := emitter;
      data, isLoading, error := None, false, None;
      live := None;
      listeners, unsubscribed := [], [];
    }

    /**
     * The effect body (lines 43-54). React runs the previous effect's cleanup
     * before running the effect again, so no listener is live here.
     */
    method RunEffect(target: Option<Target>)
      requires Valid() && live.None?
      modifies this
      ensures Valid() && unsubscribed == old(unsubscribed)
      ensures target.None? ==> data.None? && !isLoading && error.None? && live.None? && listeners == old(listeners)
      ensures target.Some? ==> isLoading && error.None? && data == old(data)
      ensures target.Some? ==> listeners == old(listeners) + [target.value]
      ensures target.Some? ==> live == target
    {
      if target.None? {
        data := None;
        isLoading := false;
        error := None;
        return;
      }
      isLoading := true;
      error := None;
      live := target;
      listeners := listeners + [target.value];
    }

    /** The snapshot callback (lines 56-61); Firestore calls it only on a live listener. */
    method OnSnapshot(docs: seq<Doc>)
      requires Valid() && live.Some?
      modifies this
      ensures Valid()
      ensures data == Some(Rows(docs)) && error.None? && !isLoading
      ensures live == old(live) && listeners == old(listeners) && unsubscribed == old(unsubscribed)
    {
      data := Some(Rows(docs));
      error := None;
      isLoading := false;
    }

    /**
     * The error callback (lines 62-80): whatever Firestore reports, the hook
     * shows a "list" permission error on the path derived from its target and
     * emits that same error once.
     */
    method OnError()
      requires Valid() && live.Some?
      modifies this, emitter
      ensures Valid()
      ensures error == Some(FailureError(old(live).value)) && data.None? && !isLoading
      ensures emitter.emitted == old(emitter.emitted) + [PermissionErrorEvent(error.value)]
      ensures live == old(live) && listeners == old(listeners) && unsubscribed == old(unsubscribed)
    {
      var target := live.value;
      var path := FailurePath(target.kind);
      var contextualError := PermissionError(List, path);
      error := Some(contextualError);
      data := None;
      isLoading := false;
      emitter.Emit(PermissionErrorEvent(contextualError));
    }

    /**
     * The effect's cleanup (line 83): unsubscribes the live listener. An
     * effect that ran with no target returned no cleanup, so then nothing
     * happens.
     */
    method Cleanup()
      requires Valid()
      modifies this
      ensures Valid() && live.None? && listeners == old(listeners)
      ensures old(live).Some? ==> unsubscribed == old(unsubscribed) + [|listeners| - 1]
      ensures old(live).None? ==> unsubscribed == old(unsubscribed)
      ensures data == old(data) && isLoading == old(isLoading) && error == old(error)
    {
      if live.Some? {
        unsubscribed := unsubscribed + [|listeners| - 1];
        live := None;
      }
    }

    /** A render (lines 86-90): the current cells, and whether the memo warning is issued. */
    method Render(target: Option<Target>, registry: Memo.MemoRegistry) returns (result: UseCollectionResult, warn: bool)
      requires Valid()
      ensures result.error.Some? ==> result.data.None? && !result.isLoading
      ensures result == UseCollectionResult(data, isLoading, error)
      ensures warn <==> Warns(target, registry)
    {
      result := UseCollectionResult(data, isLoading, error);
      warn := Warns(target, registry);
    }

    /** Once no listener is live, every listener ever opened has been unsubscribed exactly once. */
    lemma EachUnsubscribedOnce(i: int)
      requires Valid() && live.None?
      ensures multiset(unsubscribed)[i] == if 0 <= i < |listeners| then 1 else 0
    {
      UptoOnce(|listeners|, i);
    }
  }

  /** A mount on a collection, a snapshot, a failure, then the target going away. */
  method HookExample() {
    var emitter := new ErrorEmitter();
    var hook := new CollectionHook(emitter);
    var events := Target(7, CollectionRef("users/u1/events"));
    hook.RunEffect(Some(events));
    assert hook.isLoading && hook.error.None?;
    var doc := Doc("e1", map["id" := Number(3), "name" := Text("Party")]);
    hook.OnSnapshot([doc]);
    var row := WithId(doc);
    assert row.Keys == {"id", "name"};
    assert row == map["id" := Text("e1"), "name" := Text("Party")];
    assert Rows([doc])[0] == row;
    assert Rows([doc]) == [row];
    hook.OnError();
    assert hook.error == Some(PermissionError(List, "users/u1/events")) && hook.data.None?;
    assert emitter.emitted == [PermissionErrorEvent(PermissionError(List, "users/u1/events"))];
    hook.Cleanup();
    hook.RunEffect(None);
    assert hook.data.None? && !hook.isLoading && hook.error.None?;
    assert hook.unsubscribed == [0];
  }
}
