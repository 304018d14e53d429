/** `search` in webserver/donkey.js: answer a request from the cache when
    its query_id is cached, otherwise fill the query (fetchContent) and ask
    the Thrift backend; on success a new id from newId names the response in
    the cache and in the reply.  The backend is an asynchronous call into
    code outside this file, so its answer is the parameter `backend`, and
    `fix` is the meta fix-up of each hit. */
module WebserverSearch {
  import opened Wrappers
  import opened SearchPages
  import opened SearchCache

  /** One search request on a cache value: the reply (a page, or the error
      passed to the callback) and the cache after it. */
  function Serve<H>(s: Store<Response<H>>, q: Query, backend: Result<Response<H>>, fix: H -> H)
    : (Result<PageJson<H>>, Store<Response<H>>)
  {
    var cached := Lookup(s.entries, q.queryId);
    if cached.Some? then (Ok(Paginate(q, cached.value, q.queryId.value)), s)
    else if backend.Err? then (Err(backend.error), s)
    else
      var (id, s1) := Issue(s);
      var r := Fixed(backend.value, fix);
      (Ok(Paginate(q, r, id)), s1.(entries := s1.entries[id := r]))
  }

  /** search: the reply and the new cache are those of Serve.  The source
      caches the response before it fixes up the hits, but the cache holds
      the same object, so the cached response is the fixed-up one. */
  method Search<H>(cache: Cache<Response<H>>, q: Query, backend: Result<Response<H>>, fix: H -> H)
    returns (reply: Result<PageJson<H>>)
    modifies cache
    ensures (reply, cache.Contents()) == Serve(old(cache.Contents()), q, backend, fix)
  {
    var result := Lookup(cache.entries, q.queryId);
    if result.Some? {
      reply := Ok(Paginate(q, result.value, q.queryId.value));
    } else if backend.Err? {
      reply := Err(backend.error);
    } else {
      var id := cache.NewId();
      var response := FixResponse(backend.value, fix);
      cache.Set(id, response);
      reply := Ok(Paginate(q, response, id));
    }
  }

  /** A cached query_id is answered from the cache: the reply does not
      depend on the backend, and the cache does not change. */
  lemma CacheHit<H>(s: Store<Response<H>>, q: Query, b1: Result<Response<H>>, f1: H -> H,
                    b2: Result<Response<H>>, f2: H -> H)
    requires q.queryId.Some? && q.queryId.value in s.entries
    ensures Serve(s, q, b1, f1) == Serve(s, q, b2, f2)
    ensures Serve(s, q, b1, f1) == (Ok(Paginate(q, s.entries[q.queryId.value], q.queryId.value)), s)
  {
  }

  /** Any other request spends an id only when the backend answers: then the
      reply carries a fresh id under which the fixed-up response is cached;
      a failed search leaves the cache as it was. */
  lemma Uncached<H>(s: Store<Response<H>>, q: Query, backend: Result<Response<H>>, fix: H -> H)
    requires Lookup(s.entries, q.queryId).None?
    ensures var (reply, t) := Serve(s, q, backend, fix);
            (reply.Ok? <==> backend.Ok?) &&
            (reply.Ok? ==> reply.value.queryId == t.cur && t.cur !in s.entries && t.cur > s.cur &&
                           t.entries == s.entries[t.cur := Fixed(backend.value, fix)]) &&
            (reply.Err? ==> t == s)
  {
    IssueFresh(s);
  }

  /** Every cached id came from newId, so ids come out as 1, 2, 3, ...:
      a search keeps every key within 1 .. cur, and the next id is cur + 1. */
  lemma IdsConsecutive<H>(s: Store<Response<H>>, q: Query, backend: Result<Response<H>>, fix: H -> H)
    requires Issued(s)
    ensures Issued(Serve(s, q, backend, fix).1)
    ensures Serve(s, q, backend, fix).0.Ok? && Lookup(s.entries, q.queryId).None? ==>
              Serve(s, q, backend, fix).0.value.queryId == s.cur + 1
  {
    IssueNext(s);
  }

  /** The query_id of every page answered names the response the page was
      cut from: asking again with it is answered from the cache, with no
      backend call and no change to the cache. */
  lemma FollowUp<H>(s: Store<Response<H>>, q: Query, backend: Result<Response<H>>, fix: H -> H,
                    q2: Query, b2: Result<Response<H>>, f2: H -> H)
    requires Serve(s, q, backend, fix).0.Ok?
    requires q2.queryId == Some(Serve(s, q, backend, fix).0.value.queryId)
    ensures var (reply, t) := Serve(s, q, backend, fix);
            var id := reply.value.queryId;
            id in t.entries && reply.value == Paginate(q, t.entries[id], id) &&
            Serve(t, q2, b2, f2) == (Ok(Paginate(q2, t.entries[id], id)), t)
  {
    IssueFresh(s);
  }
}
