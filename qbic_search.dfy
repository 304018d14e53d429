/** `search` in demo/qbic-node/donkey.js: answer a request from the cache
    when its query_id is cached, otherwise fetch the query content, ask the
    Thrift backend (thriftSearch) and cache the response under the request's
    id.  A request without a query_id gets a new id from newId before the
    backend is asked.  The content fetcher and the backend are asynchronous
    calls into code outside this file, so their outcomes are parameters:
    `fetchError` is the error the fetcher reports, `backend` the answer of
    client.search, `fix` the meta fix-up of each hit. */
module QbicNodeSearch {
  import opened Wrappers
  import opened SearchPages
  import opened SearchCache

  /** One search request on a cache value: the reply (a page, or the error
      passed to the respond callback) and the cache after it. */
  function Serve<H>(s: Store<Response<H>>, q: Query, fetchError: Option<Error>,
                    backend: Result<Response<H>>, fix: H -> H): (Result<PageJson<H>>, Store<Response<H>>)
  {
    var cached := Lookup(s.entries, q.queryId);
    var (id, s1) := if q.queryId.Some? then (q.queryId.value, s) else Issue(s);
    if cached.Some? then (Ok(Paginate(q, cached.value, id)), s1)
    else if fetchError.Some? then (Err(fetchError.value), s1)
    else if backend.Err? then (Err(backend.error), s1)
    else
      var r := Fixed(backend.value, fix);
      (Ok(Paginate(q, r, id)), s1.(entries := s1.entries[id := r]))
  }

  /** search: the reply and the new cache are those of Serve. */
  method Search<H>(cache: Cache<Response<H>>, q: Query, fetchError: Option<Error>,
                   backend: Result<Response<H>>, fix: H -> H) returns (reply: Result<PageJson<H>>)
    modifies cache
    ensures (reply, cache.Contents()) == Serve(old(cache.Contents()), q, fetchError, backend, fix)
  {
    var result := Lookup(cache.entries, q.queryId);
    var id: nat;
    if q.queryId.Some? {
      id := q.queryId.value;
    } else {
      id := cache.NewId();
    }
    if result.Some? {
      reply := Ok(Paginate(q, result.value, id));
    } else if fetchError.Some? {
      reply := Err(fetchError.value);
    } else if backend.Err? {
      reply := Err(backend.error);
    } else {
      var response := FixResponse(backend.value, fix);
      cache.Set(id, response);
      reply := Ok(Paginate(q, response, id));
    }
  }

  /** A cached query_id is answered from the cache: the reply does not
      depend on the fetcher or the backend, and the cache does not change. */
  lemma CacheHit<H>(s: Store<Response<H>>, q: Query, e1: Option<Error>, b1: Result<Response<H>>, f1: H -> H,
                    e2: Option<Error>, b2: Result<Response<H>>, f2: H -> H)
    requires q.queryId.Some? && q.queryId.value in s.entries
    ensures Serve(s, q, e1, b1, f1) == Serve(s, q, e2, b2, f2)
    ensures Serve(s, q, e1, b1, f1) == (Ok(Paginate(q, s.entries[q.queryId.value], q.queryId.value)), s)
  {
  }

  /** A request without a query_id spends a fresh id whatever happens next;
      only a successful search caches the fixed-up response under it, and
      the reply carries that id. */
  lemma NewQuery<H>(s: Store<Response<H>>, q: Query, fetchError: Option<Error>,
                    backend: Result<Response<H>>, fix: H -> H)
    requires q.queryId.None?
    ensures var (reply, t) := Serve(s, q, fetchError, backend, fix);
            t.cur !in s.entries && t.cur > s.cur &&
            (reply.Ok? <==> fetchError.None? && backend.Ok?) &&
            (reply.Ok? ==> reply.value.queryId == t.cur &&
                           t.entries == s.entries[t.cur := Fixed(backend.value, fix)]) &&
            (reply.Err? ==> t.entries == s.entries)
  {
    IssueFresh(s);
  }

  /** A query_id that is not cached is searched and, on success, cached
      under that same id; no new id is spent. */
  lemma UncachedId<H>(s: Store<Response<H>>, q: Query, fetchError: Option<Error>,
                      backend: Result<Response<H>>, fix: H -> H)
    requires q.queryId.Some? && q.queryId.value !in s.entries
    ensures var (reply, t) := Serve(s, q, fetchError, backend, fix);
            t.cur == s.cur &&
            (reply.Ok? <==> fetchError.None? && backend.Ok?) &&
            (reply.Ok? ==> reply.value.queryId == q.queryId.value &&
                           t.entries == s.entries[q.queryId.value := Fixed(backend.value, fix)]) &&
            (reply.Err? ==> t.entries == s.entries)
  {
  }

  /** The query_id of every page answered names the response the page was
      cut from: asking again with it is answered from the cache, with no
      backend call and no change to the cache. */
  lemma FollowUp<H>(s: Store<Response<H>>, q: Query, fetchError: Option<Error>,
                    backend: Result<Response<H>>, fix: H -> H,
                    q2: Query, e2: Option<Error>, b2: Result<Response<H>>, f2: H -> H)
    requires Serve(s, q, fetchError, backend, fix).0.Ok?
    requires q2.queryId == Some(Serve(s, q, fetchError, backend, fix).0.value.queryId)
    ensures var (reply, t) := Serve(s, q, fetchError, backend, fix);
            var id := reply.value.queryId;
            id in t.entries && reply.value == Paginate(q, t.entries[id], id) &&
            Serve(t, q2, e2, b2, f2) == (Ok(Paginate(q2, t.entries[id], id)), t)
  {
    var (reply, t) := Serve(s, q, fetchError, backend, fix);
    if q.queryId.None? {
      IssueFresh(s);
    }
  }
}
