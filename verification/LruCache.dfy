/** The in-memory LRU response cache and the caching LLM port built on it. */
module LruCache {
  import opened Prelude

  /******* Requests, responses and keys *******/

  datatype Message = Message(role: string, content: string)

  datatype Request = Request(model: string, messages: seq<Message>, temperature: real,
                             maxOutputTokens: Option<nat>)

  datatype Response = Response(text: string, model: Option<string>)

  /** The digest of a request; the hash is taken as injective, so the hashed payload stands for it. */
  datatype Key = Key(model: string, temperature: real, messages: seq<Message>)

  function ComputeCacheKey(r: Request): Key {
    Key(r.model, r.temperature, r.messages)
  }

  datatype CacheEntry = CacheEntry(key: Key, responseText: string, model: string, hitCount: nat)

  /******* The backend as a value: an ordered dictionary (oldest key first) and two counters *******/

  datatype Cache = Cache(maxSize: nat, order: seq<Key>, entries: map<Key, CacheEntry>, hits: nat, misses: nat)

  function Empty(maxSize: nat): Cache {
    Cache(maxSize, [], map[], 0, 0)
  }

  ghost predicate WellFormed(c: Cache) {
    && Distinct(c.order)
    && (forall k :: k in c.order <==> k in c.entries)
    && (forall k :: k in c.entries ==> c.entries[k].key == k)
  }

  function Without<T(==)>(s: seq<T>, x: T): seq<T> {
    if s == [] then [] else if s[0] == x then Without(s[1..], x) else [s[0]] + Without(s[1..], x)
  }

  function MoveToEnd(c: Cache, k: Key): Cache {
    c.(order := Without(c.order, k) + [k])
  }

  function PopOldest(c: Cache): Cache
    requires c.order != []
  {
    c.(order := c.order[1..], entries := c.entries - {c.order[0]})
  }

  function Lookup(c: Cache, k: Key): (Cache, Option<CacheEntry>) {
    if k !in c.entries then
      (c.(misses := c.misses + 1), None)
    else
      var updated := c.entries[k].(hitCount := c.entries[k].hitCount + 1);
      (MoveToEnd(c, k).(hits := c.hits + 1, entries := c.entries[k := updated]), Some(updated))
  }

  function Store(c: Cache, e: CacheEntry): Cache
    requires c.maxSize >= 1
  {
    if e.key in c.entries then
      MoveToEnd(c, e.key).(entries := c.entries[e.key := e])
    else
      var room := if |c.order| >= c.maxSize then PopOldest(c) else c;
      room.(order := room.order + [e.key], entries := room.entries[e.key := e])
  }

  function Cleared(c: Cache): Cache {
    Empty(c.maxSize)
  }

  /******* The backend as an object *******/

  class InMemoryCacheBackend {
    const maxSize: nat
    var order: seq<Key>
    var entries: map<Key, CacheEntry>
    var hits: nat
    var misses: nat

    function View(): Cache
      reads this
    {
      Cache(maxSize, order, entries, hits, misses)
    }

    ghost predicate Valid()
      reads this
    {
      WellFormed(View()) && |order| <= maxSize
    }

    constructor (maxSize: nat)
      ensures Valid() && View() == Empty(maxSize)
    {
      this.maxSize := maxSize;
      order, entries, hits, misses := [], map[], 0, 0;
    }

    method Get(key: Key) returns (found: Option<CacheEntry>)
      requires Valid()
      modifies this
      ensures Valid()
      ensures (View(), found) == Lookup(old(View()), key)
    {
      LookupKeepsWellFormed(View(), key);
      if key !in entries {
        misses := misses + 1;
        return None;
      }
      hits := hits + 1;
      order := Without(order, key) + [key];
      var updated := entries[key].(hitCount := entries[key].hitCount + 1);
      entries := entries[key := updated];
      found := Some(updated);
    }

    /** False where the source raises: at size 0 there is nothing to evict. */
    method Put(entry: CacheEntry) returns (ok: bool)
      requires Valid()
      modifies this
      ensures Valid()
      ensures ok <==> maxSize >= 1
      ensures View() == if maxSize >= 1 then Store(old(View()), entry) else old(View())
    {
      assert maxSize == 0 ==> order == [] && entry.key !in order;
      if maxSize >= 1 {
        StoreKeepsWellFormed(View(), entry);
      }
      ok := true;
      if entry.key in entries {
        order := Without(order, entry.key) + [entry.key];
        entries := entries[entry.key := entry];
        return;
      }
      if |order| >= maxSize {
        if order == [] {
          return false;
        }
        order, entries := order[1..], entries - {order[0]};
      }
      order := order + [entry.key];
      entries := entries[entry.key := entry];
    }

    method Clear()
      requires Valid()
      modifies this
      ensures Valid()
      ensures View() == Cleared(old(View()))
    {
      order, entries, hits, misses := [], map[], 0, 0;
    }
  }

  /******* What the store holds: the most recently used distinct keys *******/

  /** The distinct elements of a touch log, in the order of their last occurrence. */
  function ByLastUse<T(==)>(log: seq<T>): seq<T> {
    if log == [] then []
    else if log[0] in log[1..] then ByLastUse(log[1..])
    else [log[0]] + ByLastUse(log[1..])
  }

  function LastN<T>(s: seq<T>, n: nat): seq<T> {
    if |s| <= n then s else s[|s| - n..]
  }

  lemma {:induction false} WithoutProperties<T>(s: seq<T>, x: T)
    ensures forall y :: y in Without(s, x) <==> y in s && y != x
    ensures x !in s ==> Without(s, x) == s
    ensures Distinct(s) ==> Distinct(Without(s, x))
    ensures Distinct(s) && x in s ==> |Without(s, x)| == |s| - 1
  {
    if s != [] {
      WithoutProperties(s[1..], x);
      assert s == [s[0]] + s[1..];
      if Distinct(s) {
        assert Distinct(s[1..]);
        assert s[0] !in s[1..];
      }
    }
  }

  lemma {:induction false} WithoutConcat<T>(a: seq<T>, b: seq<T>, x: T)
    ensures Without(a + b, x) == Without(a, x) + Without(b, x)
  {
    if a == [] {
      assert a + b == b;
    } else {
      assert (a + b)[1..] == a[1..] + b;
      WithoutConcat(a[1..], b, x);
    }
  }

  lemma {:induction false} ByLastUseElements<T>(log: seq<T>)
    ensures forall x :: x in ByLastUse(log) <==> x in log
    ensures Distinct(ByLastUse(log))
  {
    if log != [] {
      ByLastUseElements(log[1..]);
      assert log == [log[0]] + log[1..];
    }
  }

  lemma {:induction false} ByLastUseSnoc<T>(log: seq<T>, x: T)
    ensures ByLastUse(log + [x]) == Without(ByLastUse(log), x) + [x]
  {
    if log != [] {
      var rest := log[1..];
      assert (log + [x])[1..] == rest + [x];
      ByLastUseSnoc(rest, x);
      ByLastUseElements(rest);
      if log[0] !in rest {
        WithoutProperties(ByLastUse(rest), x);
      }
    }
  }

  /** One touch of x, seen through a window of the last n distinct keys. */
  lemma {:induction false} WindowAfterTouch<T>(order: seq<T>, n: nat, x: T)
    requires Distinct(order) && n >= 1
    ensures
      var w := LastN(order, n);
      LastN(Without(order, x) + [x], n) ==
        if x in w then Without(w, x) + [x]
        else if |w| >= n then w[1..] + [x]
        else w + [x]
  {
    var w := LastN(order, n);
    var dead := order[..|order| - |w|];
    assert order == dead + w;
    WithoutConcat(dead, w, x);
    WithoutProperties(dead, x);
    WithoutProperties(w, x);
    if x in w {
      TouchInsideWindow(dead, w, n, x);
    } else if |w| >= n {
      TouchFullWindow(Without(dead, x), w, n, x);
    }
  }

  lemma LastNOfConcat<T>(a: seq<T>, b: seq<T>, n: nat)
    requires if a == [] then |b| <= n else |b| == n
    ensures LastN(a + b, n) == b
  {
  }

  lemma TouchInsideWindow<T>(dead: seq<T>, w: seq<T>, n: nat, x: T)
    requires Distinct(dead + w) && x in w
    requires if dead == [] then |w| <= n else |w| == n
    ensures LastN(Without(dead + w, x) + [x], n) == Without(w, x) + [x]
  {
    var i :| 0 <= i < |w| && w[i] == x;
    assert (dead + w)[|dead| + i] == x;
    forall j | 0 <= j < |dead|
      ensures dead[j] != x
    {
      assert (dead + w)[j] == dead[j];
    }
    assert Distinct(w) by {
      assert forall j :: 0 <= j < |w| ==> w[j] == (dead + w)[|dead| + j];
    }
    WithoutConcat(dead, w, x);
    WithoutProperties(dead, x);
    WithoutProperties(w, x);
    Regrouped(dead, Without(w, x), [x]);
    LastNOfConcat(dead, Without(w, x) + [x], n);
  }

  lemma TouchFullWindow<T>(dead: seq<T>, w: seq<T>, n: nat, x: T)
    requires |w| == n >= 1
    ensures LastN(dead + w + [x], n) == w[1..] + [x]
  {
    assert dead + w + [x] == (dead + w[..1]) + (w[1..] + [x]);
  }

  lemma LookupKeepsWellFormed(c: Cache, k: Key)
    requires WellFormed(c)
    ensures WellFormed(Lookup(c, k).0)
    ensures |Lookup(c, k).0.order| == |c.order|
  {
    WithoutProperties(c.order, k);
  }

  lemma StoreKeepsWellFormed(c: Cache, e: CacheEntry)
    requires WellFormed(c) && 1 <= c.maxSize && |c.order| <= c.maxSize
    ensures WellFormed(Store(c, e)) && |Store(c, e).order| <= c.maxSize
    ensures e.key in Store(c, e).entries && Store(c, e).entries[e.key] == e
  {
    WithoutProperties(c.order, e.key);
    if e.key !in c.entries && |c.order| >= c.maxSize {
      var room := PopOldest(c);
      assert c.order == [c.order[0]] + room.order;
      assert forall k :: k in room.order <==> k in room.entries;
    }
  }

  datatype Op = GetOp(key: Key) | PutOp(entry: CacheEntry) | ClearOp

  function Step(c: Cache, op: Op): Cache
    requires c.maxSize >= 1
  {
    match op
    case GetOp(k) => Lookup(c, k).0
    case PutOp(e) => Store(c, e)
    case ClearOp => Cleared(c)
  }

  function Run(maxSize: nat, ops: seq<Op>): (c: Cache)
    requires maxSize >= 1
    ensures c.maxSize == maxSize
  {
    if ops == [] then Empty(maxSize) else Step(Run(maxSize, Init(ops)), Last(ops))
  }

  /** The keys hit or put since the last clear, oldest first. */
  function Touched(maxSize: nat, ops: seq<Op>): seq<Key>
    requires maxSize >= 1
  {
    if ops == [] then [] else
    var before := Touched(maxSize, Init(ops));
    match Last(ops)
    case GetOp(k) => if k in Run(maxSize, Init(ops)).entries then before + [k] else before
    case PutOp(e) => before + [e.key]
    case ClearOp => []
  }

  /** After any run of operations the store holds, in order, exactly the last maxSize distinct keys touched. */
  lemma {:induction false} StoreIsMostRecentlyUsed(maxSize: nat, ops: seq<Op>)
    requires maxSize >= 1
    ensures
      var c := Run(maxSize, ops);
      && WellFormed(c)
      && c.order == LastN(ByLastUse(Touched(maxSize, ops)), maxSize)
  {
    if ops != [] {
      StoreIsMostRecentlyUsed(maxSize, Init(ops));
      var c, log := Run(maxSize, Init(ops)), Touched(maxSize, Init(ops));
      ByLastUseElements(log);
      match Last(ops)
      case GetOp(k) =>
        LookupKeepsWellFormed(c, k);
        ByLastUseSnoc(log, k);
        WindowAfterTouch(ByLastUse(log), maxSize, k);
      case PutOp(e) =>
        StoreKeepsWellFormed(c, e);
        ByLastUseSnoc(log, e.key);
        WindowAfterTouch(ByLastUse(log), maxSize, e.key);
      case ClearOp =>
    }
  }

  /** The lookups since the last clear. */
  function GetsSinceClear(ops: seq<Op>): nat {
    if ops == [] then 0
    else match Last(ops)
      case GetOp(_) => GetsSinceClear(Init(ops)) + 1
      case PutOp(_) => GetsSinceClear(Init(ops))
      case ClearOp => 0
  }

  /** The hits on a key since it was last put, on top of the count it was put with. */
  function HitsSincePut(maxSize: nat, ops: seq<Op>, k: Key): nat
    requires maxSize >= 1
  {
    if ops == [] then 0
    else
      var before := HitsSincePut(maxSize, Init(ops), k);
      match Last(ops)
      case GetOp(j) => if j == k && k in Run(maxSize, Init(ops)).entries then before + 1 else before
      case PutOp(e) => if e.key == k then e.hitCount else before
      case ClearOp => 0
  }

  /** Hits and misses are all lookups since the last clear, and each entry counts its own hits since it was put. */
  lemma {:induction false} CountersAddUp(maxSize: nat, ops: seq<Op>, k: Key)
    requires maxSize >= 1
    ensures
      var c := Run(maxSize, ops);
      && c.hits + c.misses == GetsSinceClear(ops)
      && (k in c.entries ==> c.entries[k].hitCount == HitsSincePut(maxSize, ops, k))
  {
    if ops != [] {
      CountersAddUp(maxSize, Init(ops), k);
    }
  }

  /** The entry last put under a key since the last clear. */
  function LastPut(ops: seq<Op>, k: Key): Option<CacheEntry> {
    if ops == [] then None
    else
      match Last(ops)
      case GetOp(_) => LastPut(Init(ops), k)
      case PutOp(e) => if e.key == k then Some(e) else LastPut(Init(ops), k)
      case ClearOp => None
  }

  /** What is stored under a key is what was last put there, with the hits since counted on top. */
  lemma {:induction false} StoredIsLastPut(maxSize: nat, ops: seq<Op>, k: Key)
    requires maxSize >= 1 && k in Run(maxSize, ops).entries
    ensures LastPut(ops, k).Some?
    ensures Run(maxSize, ops).entries[k] == LastPut(ops, k).value.(hitCount := HitsSincePut(maxSize, ops, k))
  {
    if ops != [] && k in Run(maxSize, Init(ops)).entries {
      StoredIsLastPut(maxSize, Init(ops), k);
    }
  }

  /******* The caching port *******/

  /** Two requests share their key exactly when model, temperature and messages are equal. */
  lemma EqualKeysIff(r: Request, s: Request)
    ensures ComputeCacheKey(r) == ComputeCacheKey(s) <==>
            r.model == s.model && r.temperature == s.temperature && r.messages == s.messages
  {
  }

  /** The inner port answers by these three fields alone: the output limit is not part of the key. */
  ghost predicate AnswersByKey(inner: Request -> Response) {
    forall r: Request, s: Request ::
      r.model == s.model && r.temperature == s.temperature && r.messages == s.messages ==>
        inner(r).text == inner(s).text
  }

  function EntryFor(request: Request, response: Response): CacheEntry {
    var model := if response.model.Some? && response.model.value != "" then response.model.value else request.model;
    CacheEntry(ComputeCacheKey(request), response.text, model, 0)
  }

  function Answer(c: Cache, request: Request, inner: Request -> Response): (Cache, Response)
    requires c.maxSize >= 1
  {
    var (looked, found) := Lookup(c, ComputeCacheKey(request));
    if found.Some? then
      (looked, Response(found.value.responseText, Some(found.value.model)))
    else
      (Store(looked, EntryFor(request, inner(request))), inner(request))
  }

  class CachedLlmPort {
    const inner: Request -> Response
    const backend: InMemoryCacheBackend
    var innerCalls: nat

    constructor (inner: Request -> Response, backend: InMemoryCacheBackend)
      ensures this.inner == inner && this.backend == backend && innerCalls == 0
    {
      this.inner, this.backend, innerCalls := inner, backend, 0;
    }

    /** None where storing the answer raises. */
    method Complete(request: Request) returns (response: Option<Response>)
      requires backend.Valid()
      modifies backend, this`innerCalls
      ensures backend.Valid()
      ensures
        if backend.maxSize >= 1 then
          response.Some? && (backend.View(), response.value) == Answer(old(backend.View()), request, inner)
        else
          response.None? && backend.View() == Lookup(old(backend.View()), ComputeCacheKey(request)).0
      ensures innerCalls - old(innerCalls) == backend.misses - old(backend.misses)
    {
      var key := ComputeCacheKey(request);
      var cached := backend.Get(key);
      if cached.Some? {
        return Some(Response(cached.value.responseText, Some(cached.value.model)));
      }
      var answer := inner(request);
      innerCalls := innerCalls + 1;
      var ok := backend.Put(EntryFor(request, answer));
      response := if ok then Some(answer) else None;
    }
  }

  /** The cache after serving a sequence of requests from an empty backend. */
  function Serve(maxSize: nat, requests: seq<Request>, inner: Request -> Response): (c: Cache)
    requires maxSize >= 1
    ensures c.maxSize == maxSize
  {
    if requests == [] then Empty(maxSize)
    else Answer(Serve(maxSize, Init(requests), inner), Last(requests), inner).0
  }

  function Keys(requests: seq<Request>): (ks: seq<Key>)
    ensures |ks| == |requests|
    ensures forall i :: 0 <= i < |ks| ==> ks[i] == ComputeCacheKey(requests[i])
  {
    if requests == [] then [] else Keys(Init(requests)) + [ComputeCacheKey(Last(requests))]
  }

  /** Every served request touches exactly its own key, so the store does not depend on which answers were cached. */
  lemma {:induction false} ServedKeys(maxSize: nat, requests: seq<Request>, inner: Request -> Response)
    requires maxSize >= 1
    ensures
      var c := Serve(maxSize, requests, inner);
      && WellFormed(c)
      && c.order == LastN(ByLastUse(Keys(requests)), maxSize)
      && c.hits + c.misses == |requests|
  {
    if requests != [] {
      ServedKeys(maxSize, Init(requests), inner);
      var c, r := Serve(maxSize, Init(requests), inner), Last(requests);
      var k, log := ComputeCacheKey(r), Keys(Init(requests));
      ByLastUseElements(log);
      ByLastUseSnoc(log, k);
      WindowAfterTouch(ByLastUse(log), maxSize, k);
      LookupKeepsWellFormed(c, k);
      if k !in c.entries {
        StoreKeepsWellFormed(Lookup(c, k).0, EntryFor(r, inner(r)));
      }
    }
  }

  ghost predicate Faithful(c: Cache, inner: Request -> Response) {
    forall r :: ComputeCacheKey(r) in c.entries ==> c.entries[ComputeCacheKey(r)].responseText == inner(r).text
  }

  /** Every stored entry was made from the answer to an earlier request with its key. */
  lemma {:induction false} EntriesComeFrom(maxSize: nat, requests: seq<Request>, inner: Request -> Response, k: Key)
    returns (i: nat)
    requires maxSize >= 1 && k in Serve(maxSize, requests, inner).entries
    ensures i < |requests| && ComputeCacheKey(requests[i]) == k
    ensures Serve(maxSize, requests, inner).entries[k].(hitCount := 0) == EntryFor(requests[i], inner(requests[i]))
  {
    var c, r := Serve(maxSize, Init(requests), inner), Last(requests);
    ServedKeys(maxSize, Init(requests), inner);
    if k == ComputeCacheKey(r) && k !in c.entries {
      i := |requests| - 1;
    } else {
      i := EntriesComeFrom(maxSize, Init(requests), inner, k);
    }
  }

  /** Without any assumption on the inner port: an answer is the inner port's to this request, or, counted as a hit, its
      text is the inner port's to an earlier request with the same model, temperature and messages, with the model that
      was named then, or asked for if none was. */
  lemma AnsweredBy(maxSize: nat, requests: seq<Request>, next: Request, inner: Request -> Response) returns (i: nat)
    requires maxSize >= 1
    ensures
      var c := Serve(maxSize, requests, inner);
      var (after, answer) := Answer(c, next, inner);
      if after.hits == c.hits then after.misses == c.misses + 1 && answer == inner(next)
      else
        && after.hits == c.hits + 1 && after.misses == c.misses
        && i < |requests| && requests[i].model == next.model && requests[i].temperature == next.temperature
        && requests[i].messages == next.messages
        && answer.text == inner(requests[i]).text
        && answer.model == match inner(requests[i]).model
                           case None => Some(next.model)
                           case Some(name) => Some(if name == "" then next.model else name)
  {
    var c, k := Serve(maxSize, requests, inner), ComputeCacheKey(next);
    if k in c.entries {
      i := EntriesComeFrom(maxSize, requests, inner, k);
      EqualKeysIff(requests[i], next);
    } else {
      i := 0;
    }
  }

  /** Every text the caching port returns is the one the inner port would have returned. */
  lemma {:induction false} CachedTextIsInnerText(maxSize: nat, requests: seq<Request>, next: Request,
                                                 inner: Request -> Response)
    requires maxSize >= 1 && AnswersByKey(inner)
    ensures Faithful(Serve(maxSize, requests, inner), inner)
    ensures Answer(Serve(maxSize, requests, inner), next, inner).1.text == inner(next).text
  {
    if requests != [] {
      CachedTextIsInnerText(maxSize, Init(requests), next, inner);
      ServedKeys(maxSize, Init(requests), inner);
      var c, r := Serve(maxSize, Init(requests), inner), Last(requests);
      var c' := Serve(maxSize, requests, inner);
      forall q | ComputeCacheKey(q) in c'.entries
        ensures c'.entries[ComputeCacheKey(q)].responseText == inner(q).text
      {
        EqualKeysIff(q, r);
        var k := ComputeCacheKey(r);
        if k in c.entries {
          assert ComputeCacheKey(q) in c.entries;
        } else if ComputeCacheKey(q) != k {
          assert ComputeCacheKey(q) in c.entries;
        }
      }
    }
  }

  /** LRU inclusion: the smaller cache's keys are a suffix of the larger one's. */
  lemma SmallerIsSuffix(small: nat, large: nat, requests: seq<Request>, inner: Request -> Response)
    requires 1 <= small <= large
    ensures IsSuffix(Serve(small, requests, inner).order, Serve(large, requests, inner).order)
    ensures forall k :: k in Serve(small, requests, inner).entries ==> k in Serve(large, requests, inner).entries
  {
    ServedKeys(small, requests, inner);
    ServedKeys(large, requests, inner);
    forall k | k in Serve(small, requests, inner).entries
      ensures k in Serve(large, requests, inner).entries
    {
      assert k in Serve(small, requests, inner).order;
    }
  }

  /** Hence a smaller cache never has more hits, on any request sequence. */
  lemma {:induction false} SmallerHasFewerHits(small: nat, large: nat, requests: seq<Request>,
                                               inner: Request -> Response)
    requires 1 <= small <= large
    ensures Serve(small, requests, inner).hits <= Serve(large, requests, inner).hits
  {
    if requests != [] {
      SmallerHasFewerHits(small, large, Init(requests), inner);
      SmallerIsSuffix(small, large, Init(requests), inner);
    }
  }

  /** The part of a log after the last occurrence of x. */
  function SinceLast<T(==)>(log: seq<T>, x: T): (rest: seq<T>)
    requires x in log
    ensures x !in rest
  {
    if x in log[1..] then SinceLast(log[1..], x) else log[1..]
  }

  lemma {:induction false} ByLastUseSplit<T>(log: seq<T>, x: T)
    requires x in log
    ensures IsSuffix([x] + ByLastUse(SinceLast(log, x)), ByLastUse(log))
  {
    if x in log[1..] {
      ByLastUseSplit(log[1..], x);
    } else {
      assert log[0] == x;
    }
  }

  /** A request is answered from the cache iff its key was requested before and fewer than
      maxSize distinct other keys were requested since. */
  lemma HitIffReuseDistanceBelowSize(maxSize: nat, requests: seq<Request>, next: Request, inner: Request -> Response)
    requires maxSize >= 1
    ensures
      var (k, log) := (ComputeCacheKey(next), Keys(requests));
      Lookup(Serve(maxSize, requests, inner), k).1.Some? <==>
        k in log && |ByLastUse(SinceLast(log, k))| < maxSize
  {
    ServedKeys(maxSize, requests, inner);
    var k, log := ComputeCacheKey(next), Keys(requests);
    ByLastUseElements(log);
    var order := ByLastUse(log);
    if k in log {
      ByLastUseSplit(log, k);
      InWindowIffFewAfter(order, maxSize, k, ByLastUse(SinceLast(log, k)));
    } else {
      assert forall x :: x in LastN(order, maxSize) ==> x in order;
    }
    var c := Serve(maxSize, requests, inner);
    assert k in c.entries <==> k in c.order;
  }

  lemma InWindowIffFewAfter<T>(order: seq<T>, n: nat, x: T, after: seq<T>)
    requires Distinct(order) && IsSuffix([x] + after, order)
    ensures x in LastN(order, n) <==> |after| < n
  {
    var at := |order| - |after| - 1;
    assert order[at] == ([x] + after)[0];
    var window := LastN(order, n);
    var cut := |order| - |window|;
    assert forall i :: 0 <= i < |window| ==> window[i] == order[cut + i];
    if |after| < n {
      assert window[at - cut] == x;
    }
  }
}
