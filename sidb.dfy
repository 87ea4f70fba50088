/**
 * A promise-style key/value façade over one IndexedDB object store
 * ("kvStore"): every public call runs in one transaction of its own, the
 * database connection is opened lazily on first use and then memoised, and
 * forEach/rofEach walk the store with a cursor that may update or delete the
 * entry it stands on.
 */
module SimpleIndexedDB {
  import opened Optional
  import opened KeyOrder

  /** The two transaction modes the helper can ask for. */
  datatype Mode = ReadOnly | ReadWrite

  /** "rw" opens a readwrite transaction; any other permission string a readonly one. */
  function ModeOf(permissions: string): Mode
  {
    if permissions == "rw" then ReadWrite else ReadOnly
  }

  /** One request issued on the object store inside a transaction. */
  datatype Request<V> =
    | Put(key: string, value: V)
    | Get(key: string)
    | Delete(key: string)
    | Clear
    | GetAllKeys
    | Count

  predicate Writes<V>(req: Request<V>)
  {
    req.Put? || req.Delete? || req.Clear?
  }

  /**
   * What a request's `result` holds once it has succeeded: a put yields the key
   * of the record it stored, a get the value or `undefined`, getAllKeys the key
   * list, count the number; `Done` is `undefined`, which delete and clear yield.
   */
  datatype Reply<V> = Done | Key(key: string) | Value(found: Option<V>) | KeyList(keys: seq<string>) | Number(n: nat)

  /** The value stored under `key`, or `undefined`. */
  function Lookup<V>(entries: map<string, V>, key: string): Option<V>
  {
    if key in entries then Some(entries[key]) else None
  }

  /** The store after one request: put upserts, delete of an absent key is a no-op, reads change nothing. */
  function After<V>(entries: map<string, V>, req: Request<V>): map<string, V>
  {
    match req
    case Put(k, v) => entries[k := v]
    case Delete(k) => entries - {k}
    case Clear => map[]
    case _ => entries
  }

  /** The store after the requests of one transaction, issued in order. */
  function ApplyAll<V>(entries: map<string, V>, requests: seq<Request<V>>): map<string, V>
  {
    if requests == [] then entries
    else After(ApplyAll(entries, requests[..|requests| - 1]), requests[|requests| - 1])
  }

  /** The result a request yields on a store in the given state. */
  ghost predicate Answers<V>(entries: map<string, V>, req: Request<V>, reply: Reply<V>)
  {
    match req
    case Put(k, _) => reply == Key(k)
    case Get(k) => reply == Value(Lookup(entries, k))
    case GetAllKeys =>
      && reply.KeyList?
      && Ordered(reply.keys, false)
      && (forall k :: k in reply.keys <==> k in entries)
      && |reply.keys| == |entries|
    case Count => reply == Number(|entries|)
    case _ => reply == Done
  }

  lemma ApplySingle<V>(entries: map<string, V>, req: Request<V>)
    ensures ApplyAll(entries, [req]) == After(entries, req)
  {
    assert [req][..0] == [];
  }

  /** Running two batches one after the other is running their concatenation. */
  lemma {:induction false} ApplyAllAppend<V>(entries: map<string, V>, a: seq<Request<V>>, b: seq<Request<V>>)
    ensures ApplyAll(entries, a + b) == ApplyAll(ApplyAll(entries, a), b)
  {
    if b == [] {
      assert a + b == a;
    } else {
      assert (a + b)[..|a + b| - 1] == a + b[..|b| - 1];
      ApplyAllAppend(entries, a, b[..|b| - 1]);
    }
  }

  /** A batch without put, delete or clear leaves the store as it was. */
  lemma {:induction false} ReadsChangeNothing<V>(entries: map<string, V>, requests: seq<Request<V>>)
    requires forall i :: 0 <= i < |requests| ==> !Writes(requests[i])
    ensures ApplyAll(entries, requests) == entries
  {
    if requests != [] {
      ReadsChangeNothing(entries, requests[..|requests| - 1]);
    }
  }

  /** A batch that neither clears nor names `key` in a put or delete leaves `key`'s entry as it was. */
  lemma {:induction false} UntouchedKey<V>(entries: map<string, V>, requests: seq<Request<V>>, key: string)
    requires forall i :: 0 <= i < |requests| ==>
               !requests[i].Clear? && (Writes(requests[i]) ==> requests[i].key != key)
    ensures Lookup(ApplyAll(entries, requests), key) == Lookup(entries, key)
  {
    if requests != [] {
      UntouchedKey(entries, requests[..|requests| - 1], key);
    }
  }

  /** What a forEach visitor asks for the entry under the cursor: leave it, cursor.update(v), or cursor.delete(). */
  datatype Action<V> = Keep | Update(newValue: V) | Remove

  /** The store after the visitor's action on `key`: only that entry changes. */
  function Step<V>(entries: map<string, V>, key: string, action: Action<V>): map<string, V>
  {
    match action
    case Keep => entries
    case Update(v) => entries[key := v]
    case Remove => entries - {key}
  }

  /** The store once the cursor has visited the keys in `done`, each visited entry seeing its original value. */
  function Partly<V>(start: map<string, V>, visit: (V, string) -> Action<V>, done: set<string>): map<string, V>
  {
    map k | k in start && (k !in done || !visit(start[k], k).Remove?) ::
      if k in done && visit(start[k], k).Update? then visit(start[k], k).newValue else start[k]
  }

  /** The store after a whole forEach/rofEach scan. */
  function Visited<V>(start: map<string, V>, visit: (V, string) -> Action<V>): (r: map<string, V>)
    ensures forall k :: k in r <==> k in start && !visit(start[k], k).Remove?
    ensures forall k :: k in r && !visit(start[k], k).Update? ==> r[k] == start[k]
    ensures forall k :: k in r && visit(start[k], k).Update? ==> r[k] == visit(start[k], k).newValue
  {
    Partly(start, visit, start.Keys)
  }

  /** Visiting one more key changes only that key's entry, as the visitor asked. */
  lemma PartlyStep<V>(start: map<string, V>, visit: (V, string) -> Action<V>, done: set<string>, key: string)
    requires key in start && key !in done
    ensures key in Partly(start, visit, done) && Partly(start, visit, done)[key] == start[key]
    ensures Partly(start, visit, done + {key}) == Step(Partly(start, visit, done), key, visit(start[key], key))
  {
    var before, after := Partly(start, visit, done), Partly(start, visit, done + {key});
    var stepped := Step(before, key, visit(start[key], key));
    assert after.Keys == stepped.Keys;
  }

  /** The façade returned by `simpleIndexedDB()`, over the entries of its one object store. */
  class KvStore<V> {
    /** Whether the host's `indexedDB.open` succeeds; a host without IndexedDB refuses every time. */
    const hostOpens: bool
    /** The memoised connection is set. */
    var database: bool
    /** How many open requests have been issued. */
    var opens: nat
    /** The persistent contents of "kvStore". */
    var entries: map<string, V>

    ghost predicate Valid()
      reads this
    {
      database ==> hostOpens && opens > 0
    }

    /** A call that needed the connection opened it exactly when it was not yet set. */
    twostate predicate OpenedLazily()
      reads this
    {
      && database == (old(database) || hostOpens)
      && opens == if old(database) then old(opens) else old(opens) + 1
    }

    /** `simpleIndexedDB()`: no connection yet; the store holds what earlier sessions left in it. */
    constructor (hostOpens: bool, persisted: map<string, V>)
      ensures Valid()
      ensures this.hostOpens == hostOpens && !database && opens == 0 && entries == persisted
    {
      this.hostOpens := hostOpens;
      database := false;
      opens := 0;
      entries := persisted;
    }

    /** `init()`: one open request; on success the connection is memoised. */
    method Init()
      requires Valid()
      modifies this`database, this`opens
      ensures Valid()
      ensures opens == old(opens) + 1
      ensures database == (old(database) || hostOpens)
    {
      opens := opens + 1;
      if hostOpens {
        database := true;
      }
    }

    /** The first line of `dbTransaction`: open only when no connection is memoised. */
    method Connect() returns (ok: bool)
      requires Valid()
      modifies this`database, this`opens
      ensures Valid() && OpenedLazily()
      ensures ok == database == hostOpens
    {
      if !database {
        Init();
      }
      ok := database;
    }

    /** One request on the object store. */
    method Execute(req: Request<V>) returns (reply: Reply<V>)
      modifies this`entries
      ensures entries == After(old(entries), req)
      ensures Answers(old(entries), req, reply)
    {
      match req {
        case Put(k, v) =>
          entries := entries[k := v];
          reply := Key(k);
        case Get(k) =>
          reply := Value(Lookup(entries, k));
        case Delete(k) =>
          entries := entries - {k};
          reply := Done;
        case Clear =>
          entries := map[];
          reply := Done;
        case GetAllKeys =>
          var ks := SortedKeys(entries.Keys, false);
          reply := KeyList(ks);
        case Count =>
          reply := Number(|entries|);
      }
    }

    /**
     * `dbTransaction(permissions, callback, multipleActions)`: the callback issues
     * `requests` in one transaction. With one action the call yields the result
     * of the request the callback returned (its last); with multiple actions it
     * yields `transaction.result`, which an IDBTransaction does not have, so
     * always `undefined`.
     */
    method DbTransaction(permissions: string, requests: seq<Request<V>>, multipleActions: bool)
      returns (ok: bool, reply: Reply<V>)
      requires Valid()
      requires ModeOf(permissions) == ReadOnly ==> forall i :: 0 <= i < |requests| ==> !Writes(requests[i])
      requires !multipleActions ==> |requests| > 0
      modifies this
      ensures Valid() && OpenedLazily()
      ensures ok == hostOpens
      ensures entries == if ok then ApplyAll(old(entries), requests) else old(entries)
      ensures ModeOf(permissions) == ReadOnly ==> entries == old(entries)
      ensures ok && multipleActions ==> reply == Done
      ensures ok && !multipleActions ==>
                Answers(ApplyAll(old(entries), requests[..|requests| - 1]), requests[|requests| - 1], reply)
    {
      ok := Connect();
      reply := Done;
      if !ok {
        return;
      }
      var i := 0;
      while i < |requests|
        invariant 0 <= i <= |requests|
        invariant entries == ApplyAll(old(entries), requests[..i])
        invariant i > 0 ==> Answers(ApplyAll(old(entries), requests[..i - 1]), requests[i - 1], reply)
        invariant database == hostOpens && Valid() && OpenedLazily()
      {
        assert requests[..i + 1][..i] == requests[..i];
        reply := Execute(requests[i]);
        i := i + 1;
      }
      assert requests[..|requests|] == requests;
      if multipleActions {
        reply := Done;
      }
      if ModeOf(permissions) == ReadOnly {
        ReadsChangeNothing(old(entries), requests);
      }
    }

    /** `set(key, value)`: an unconditional upsert, resolving with the key; no other key changes. */
    method Set(key: string, value: V) returns (ok: bool, result: Reply<V>)
      requires Valid()
      modifies this
      ensures Valid() && OpenedLazily()
      ensures ok == hostOpens
      ensures entries == if ok then old(entries)[key := value] else old(entries)
      ensures ok ==> result == Key(key)
    {
      ok, result := DbTransaction("rw", [Put(key, value)], false);
      assert [Request.Put(key, value)][..0] == [];
      ApplySingle(old(entries), Put(key, value));
    }

    /** `get(key)`: the stored value or `undefined`, in a readonly transaction. */
    method Get(key: string) returns (ok: bool, found: Option<V>)
      requires Valid()
      modifies this
      ensures Valid() && OpenedLazily()
      ensures ok == hostOpens
      ensures entries == old(entries)
      ensures found.Some? <==> ok && key in entries
      ensures found.Some? ==> found.value == entries[key]
    {
      var reply;
      ok, reply := DbTransaction("r", [Request.Get(key)], false);
      assert [Request<V>.Get(key)][..0] == [];
      found := if ok then reply.found else None;
    }

    /** `delete(key)`: removes the entry; an absent key is not an error and changes nothing. */
    method Delete(key: string) returns (ok: bool)
      requires Valid()
      modifies this
      ensures Valid() && OpenedLazily()
      ensures ok == hostOpens
      ensures entries == if ok then old(entries) - {key} else old(entries)
      ensures key !in old(entries) ==> entries == old(entries)
    {
      var reply;
      ok, reply := DbTransaction("rw", [Request.Delete(key)], false);
      ApplySingle(old(entries), Request.Delete(key));
    }

    /** `clear()`: wipes every entry in one transaction. */
    method Clear() returns (ok: bool)
      requires Valid()
      modifies this
      ensures Valid() && OpenedLazily()
      ensures ok == hostOpens
      ensures entries == if ok then map[] else old(entries)
    {
      var reply;
      ok, reply := DbTransaction("rw", [Request.Clear], false);
      ApplySingle(old(entries), Request.Clear);
    }

    /** `keys()`: every key once, in ascending key order, read only. */
    method Keys() returns (ok: bool, keys: seq<string>)
      requires Valid()
      modifies this
      ensures Valid() && OpenedLazily()
      ensures ok == hostOpens
      ensures entries == old(entries)
      ensures ok ==> Ordered(keys, false) && (forall k :: k in keys <==> k in entries) && |keys| == |entries|
      ensures forall i, j :: 0 <= i < j < |keys| ==> keys[i] != keys[j]
    {
      var reply;
      ok, reply := DbTransaction("r", [Request.GetAllKeys], false);
      assert [Request<V>.GetAllKeys][..0] == [];
      keys := if ok then reply.keys else [];
      OrderedDistinct(keys, false);
    }

    /** `size()`: the number of entries, read only. */
    method Size() returns (ok: bool, n: nat)
      requires Valid()
      modifies this
      ensures Valid() && OpenedLazily()
      ensures ok == hostOpens
      ensures entries == old(entries)
      ensures ok ==> n == |entries|
    {
      var reply;
      ok, reply := DbTransaction("r", [Request.Count], false);
      assert [Request<V>.Count][..0] == [];
      n := if ok then reply.n else 0;
    }

    /**
     * `tx(callback)`: the requests the callback issues run in one readwrite
     * transaction; the call yields `transaction.result`, never the callback's own value.
     */
    method Tx(requests: seq<Request<V>>) returns (ok: bool, result: Reply<V>)
      requires Valid()
      modifies this
      ensures Valid() && OpenedLazily()
      ensures ok == hostOpens
      ensures entries == if ok then ApplyAll(old(entries), requests) else old(entries)
      ensures ok ==> result == Done
    {
      ok, result := DbTransaction("rw", requests, true);
    }

    /**
     * `forEach(callback, reverse)`: a readwrite cursor scan. The cursor starts
     * at the first key in scan order and, after the visitor has acted on the
     * entry under it, continues to the next key after its position in the
     * store as it now is. `visited` is the keys the visitor saw, in order.
     */
    method ForEach(visit: (V, string) -> Action<V>, reverse: bool) returns (ok: bool, visited: seq<string>)
      requires Valid()
      modifies this
      ensures Valid() && OpenedLazily()
      ensures ok == hostOpens
      ensures ok ==> Ordered(visited, reverse)
      ensures ok ==> forall k :: k in visited <==> k in old(entries)
      ensures forall i, j :: 0 <= i < j < |visited| ==> visited[i] != visited[j]
      ensures ok ==> |visited| == |old(entries)|
      ensures entries == if ok then Visited(old(entries), visit) else old(entries)
    {
      ok := Connect();
      visited := [];
      if !ok {
        return;
      }
      ghost var start := entries;
      ghost var todo := start.Keys;
      var at: Option<string> := None;
      var next := NextKey(entries.Keys, at, reverse);
      while next.Some?
        invariant Split(start, visited, todo, reverse)
        invariant at.None? <==> visited == []
        invariant at.Some? ==> at.value == visited[|visited| - 1]
        invariant entries == Partly(start, visit, start.Keys - todo)
        invariant next.None? ==> todo == {}
        invariant next.Some? ==> next.value in todo
        invariant next.Some? ==> forall t :: t in todo && t != next.value ==> Before(next.value, t, reverse)
        invariant database == hostOpens && Valid() && OpenedLazily() && start == old(entries)
        decreases todo
      {
        var k := next.value;
        ScanStep(start, visit, visited, todo, k, reverse);
        match visit(entries[k], k) {
          case Keep =>
          case Update(v) => entries := entries[k := v];
          case Remove => entries := entries - {k};
        }
        visited := visited + [k];
        todo := todo - {k};
        at := next;
        next := NextKey(entries.Keys, at, reverse);
      }
      assert start.Keys - todo == start.Keys;
      OrderedDistinct(visited, reverse);
      OrderedCount(visited, start.Keys, reverse);
    }

    /** `set(key, value)` then `get(key)` gives back `value`; every other key keeps its entry. */
    method SetThenGet(key: string, value: V) returns (found: Option<V>)
      requires Valid() && hostOpens
      modifies this
      ensures Valid()
      ensures found == Some(value)
      ensures forall k :: k != key ==> Lookup(entries, k) == Lookup(old(entries), k)
    {
      var ok, stored := Set(key, value);
      ok, found := Get(key);
    }

    /** After `clear()`, `size()` is 0 and `keys()` is empty. */
    method ClearThenMeasure() returns (n: nat, keys: seq<string>)
      requires Valid() && hostOpens
      modifies this
      ensures Valid()
      ensures n == 0 && keys == []
    {
      var ok := Clear();
      ok, n := Size();
      ok, keys := Keys();
    }

    /** `rofEach(fn)`: forEach in descending key order. */
    method RofEach(visit: (V, string) -> Action<V>) returns (ok: bool, visited: seq<string>)
      requires Valid()
      modifies this
      ensures Valid() && OpenedLazily()
      ensures ok == hostOpens
      ensures ok ==> Ordered(visited, true)
      ensures ok ==> forall k :: k in visited <==> k in old(entries)
      ensures forall i, j :: 0 <= i < j < |visited| ==> visited[i] != visited[j]
      ensures ok ==> |visited| == |old(entries)|
      ensures entries == if ok then Visited(old(entries), visit) else old(entries)
    {
      ok, visited := ForEach(visit, true);
    }
  }

  /**
   * Mid-scan bookkeeping: the original keys are split into the ones visited,
   * in cursor order, and the ones still to come, all after every visited key.
   */
  ghost predicate Split<V>(start: map<string, V>, visited: seq<string>, todo: set<string>, reverse: bool)
  {
    && todo <= start.Keys
    && (forall k :: k in start <==> k in visited || k in todo)
    && (forall i :: 0 <= i < |visited| ==> visited[i] !in todo)
    && Ordered(visited, reverse)
    && (forall i, t :: 0 <= i < |visited| && t in todo ==> Before(visited[i], t, reverse))
  }

  /** Visiting the first key still to come keeps the split. */
  lemma Advance<V>(start: map<string, V>, visited: seq<string>, todo: set<string>, k: string, reverse: bool)
    requires Split(start, visited, todo, reverse)
    requires k in todo && forall t :: t in todo && t != k ==> Before(k, t, reverse)
    ensures Split(start, visited + [k], todo - {k}, reverse)
  {
  }

  /** One cursor step: the visited entry still holds its original value, and the split moves on by one key. */
  lemma ScanStep<V>(start: map<string, V>, visit: (V, string) -> Action<V>, visited: seq<string>, todo: set<string>,
                    k: string, reverse: bool)
    requires Split(start, visited, todo, reverse)
    requires k in todo && forall t :: t in todo && t != k ==> Before(k, t, reverse)
    ensures var live := Partly(start, visit, start.Keys - todo);
            && k in live && live[k] == start[k]
            && Step(live, k, visit(start[k], k)) == Partly(start, visit, start.Keys - (todo - {k}))
    ensures Split(start, visited + [k], todo - {k}, reverse)
    ensures var live := Partly(start, visit, start.Keys - (todo - {k}));
            forall key :: (key in live && Before(k, key, reverse)) <==> key in todo - {k}
  {
    PartlyStep(start, visit, start.Keys - todo, k);
    assert start.Keys - todo + {k} == start.Keys - (todo - {k});
    Advance(start, visited, todo, k, reverse);
    CursorSees(start, visit, todo - {k}, visited + [k], k, reverse);
  }

  /** Mid-scan, the keys after the cursor in the live store are exactly the keys not yet visited. */
  lemma CursorSees<V>(start: map<string, V>, visit: (V, string) -> Action<V>, todo: set<string>,
                      visited: seq<string>, at: string, reverse: bool)
    requires Split(start, visited, todo, reverse)
    requires |visited| > 0 && at == visited[|visited| - 1]
    ensures forall k :: k in Partly(start, visit, start.Keys - todo) && Before(at, k, reverse) <==> k in todo
  {
    var live := Partly(start, visit, start.Keys - todo);
    forall k | k in live && Before(at, k, reverse)
      ensures k in todo
    {
      if k !in todo {
        var i :| 0 <= i < |visited| && visited[i] == k;
        if i == |visited| - 1 {
          BeforeIrreflexive(k, reverse);
        } else {
          BeforeTransitive(k, at, k, reverse);
          BeforeIrreflexive(k, reverse);
        }
      }
    }
  }
}
