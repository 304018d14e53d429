/** KGraphIndex of src/index-kgraph.cpp: a watermark index.  The k-NN graph
    covers entries[0..indexedSize) and a linear scan covers the entries
    added since; the two result lists are merged, sorted by the matcher's
    polarity and cut to K.  The graph search, the linear scan and the graph
    build belong to the kgraph library and are parameters here. */
module DonkeyKGraphIndex {
  import opened Wrappers
  import opened Floats
  import opened Strings
  import opened DonkeyIndex
  import opened Sorting

  // ------------------------------------------------------- match order

  /** The sort key of a match: the order is descending by distance when
      the matcher's polarity is positive, ascending otherwise. */
  function Key(polarity: int, m: Match): real {
    if polarity > 0 then -m.distance else m.distance
  }

  /** operator< on Match. */
  predicate Before(polarity: int, a: Match, b: Match) {
    if polarity > 0 then a.distance > b.distance else a.distance < b.distance
  }

  lemma BeforeIsKeyOrder(polarity: int, a: Match, b: Match)
    ensures Before(polarity, a, b) <==> Key(polarity, a) < Key(polarity, b)
    ensures !(Before(polarity, a, b) && Before(polarity, b, a))
  {
  }

  /** Best first: no match is preceded by one it comes before. */
  predicate InOrder(polarity: int, s: seq<Match>) {
    forall i, j :: 0 <= i < j < |s| ==> !Before(polarity, s[j], s[i])
  }

  /** sort(matches): std::sort by operator<.  Ties between equal distances
      keep their input order here; std::sort leaves it unspecified. */
  function SortMatches(polarity: int, s: seq<Match>): (r: seq<Match>)
    ensures |r| == |s| && multiset(r) == multiset(s)
  {
    SortBy(m => Key(polarity, m), s)
  }

  lemma SortMatchesInOrder(polarity: int, s: seq<Match>)
    ensures InOrder(polarity, SortMatches(polarity, s))
  {
    var key := m => Key(polarity, m);
    SortBySorted(key, s);
    var r := SortBy(key, s);
    forall i, j | 0 <= i < j < |r|
      ensures !Before(polarity, r[j], r[i])
    {
      BeforeIsKeyOrder(polarity, r[j], r[i]);
    }
  }

  /** matches->resize(K) when there are more than K. */
  function Truncate(s: seq<Match>, k: nat): (r: seq<Match>)
    ensures |r| <= k && |r| <= |s| && r == s[..|r|]
    ensures |s| <= k ==> r == s
  {
    if |s| > k then s[..k] else s
  }

  // ------------------------------------------------------ search params

  /** K and R of a search: hint_K unless it is <= 0, hint_R unless it is not
      normal, and R negated when the feature similarity's polarity is >= 0
      (kgraph always minimises). */
  function SearchParams(req: SearchRequest, defaultK: nat, defaultR: real, featurePolarity: int): (p: (nat, real))
    requires defaultK > 0
    ensures p.0 > 0
    ensures p.0 == (if req.hintK <= 0 then defaultK else req.hintK)
    ensures var r := if IsNormal(req.hintR) then req.hintR.v else defaultR;
      p.1 == (if featurePolarity >= 0 then -r else r)
  {
    var k := if req.hintK <= 0 then defaultK else req.hintK as nat;
    var r := if IsNormal(req.hintR) then req.hintR.v else defaultR;
    (k, if featurePolarity >= 0 then -r else r)
  }

  // -------------------------------------------------------------- index

  /** One indexed feature: its object id, tag and feature. */
  datatype Entry<F> = Entry(obj: nat, tag: nat, feature: F)

  /** A graph held by the index: built by KGraph::build over the first n
      entries, or loaded from a file. */
  datatype Graph = Built(n: nat) | Loaded(path: string)

  /** A hit of a kgraph search: a position in the searched range and its
      distance. */
  type Hit = (nat, real)

  predicate HitsBelow(hits: seq<Hit>, n: nat) {
    forall i :: 0 <= i < |hits| ==> hits[i].0 < n
  }

  /** The candidates before sorting: the graph's hits, then the scan's hits
      shifted by the watermark, each resolved to its entry. */
  function Candidates<F>(entries: seq<Entry<F>>, hits: seq<Hit>): (ms: seq<Match>)
    requires HitsBelow(hits, |entries|)
    ensures |ms| == |hits|
    ensures forall i :: 0 <= i < |hits| ==>
      ms[i] == Match(entries[hits[i].0].obj, entries[hits[i].0].tag, hits[i].1)
  {
    seq(|hits|, i requires 0 <= i < |hits| =>
      Match(entries[hits[i].0].obj, entries[hits[i].0].tag, hits[i].1))
  }

  function Shift(hits: seq<Hit>, off: nat): (r: seq<Hit>)
    ensures |r| == |hits| && forall i :: 0 <= i < |hits| ==> r[i] == (hits[i].0 + off, hits[i].1)
  {
    seq(|hits|, i requires 0 <= i < |hits| => (hits[i].0 + off, hits[i].1))
  }

  // ------------------------------------------------ watermark and graph

  /** What decides which entries a search reaches: the watermark and the
      graph.  The graph answers for entries[0..indexedSize) and the linear
      scan for the rest. */
  datatype Coverage = Coverage(indexedSize: nat, graph: Option<Graph>)

  /** search passes its first BOOST_VERIFY: without a graph nothing may lie
      below the watermark. */
  predicate Searchable(c: Coverage) {
    c.graph.None? ==> c.indexedSize == 0
  }

  /** search reaches every one of n entries: it does not abort, and the
      graph's range and the scanned tail together are entries[0..n). */
  predicate CoversAll(c: Coverage, n: nat) {
    Searchable(c) && c.indexedSize <= n
  }

  /** rebuild as written. */
  function RebuildOf(linear: bool, minIndexSize: nat, n: nat, c: Coverage): Result<Coverage> {
    if linear then (if c.indexedSize != 0 then Err(Abort) else Ok(c))
    else if n == c.indexedSize then Ok(c)
    else Ok(Coverage(n, if n >= minIndexSize then Some(Built(n)) else None))
  }

  /** rebuild as written: a second rebuild over the same entries changes
      nothing, and with at least minIndexSize entries every entry is in the
      graph. */
  lemma RebuildSettles(linear: bool, minIndexSize: nat, n: nat, c: Coverage)
    requires RebuildOf(linear, minIndexSize, n, c).Ok?
    ensures var c' := RebuildOf(linear, minIndexSize, n, c).value;
      RebuildOf(linear, minIndexSize, n, c') == Ok(c')
      && (!linear ==> c'.indexedSize == n)
      && (!linear && n >= minIndexSize && n != c.indexedSize ==> c'.graph == Some(Built(n)) && CoversAll(c', n))
  {
  }

  /** rebuild as written over fewer than minIndexSize entries (the default
      is 10000), at least one of them new, drops the graph and still moves
      the watermark past them: every later search fails its BOOST_VERIFY
      (and, with assertions off, finds none of those entries). */
  lemma RebuildSmallStrands(minIndexSize: nat, n: nat, c: Coverage)
    requires 0 < n < minIndexSize && n != c.indexedSize
    ensures RebuildOf(false, minIndexSize, n, c).Ok?
    ensures !Searchable(RebuildOf(false, minIndexSize, n, c).value)
  {
  }

  /** The input that shows it: five entries, the default minimum. */
  lemma RebuildFiveEntries()
    ensures RebuildOf(false, 10000, 5, Coverage(0, None)) == Ok(Coverage(5, None))
    ensures !Searchable(Coverage(5, None))
  {
  }

  /** rebuild as evidently intended: the watermark only moves past entries
      the new graph holds. */
  function RebuildFixedOf(linear: bool, minIndexSize: nat, n: nat, c: Coverage): Result<Coverage> {
    if linear then (if c.indexedSize != 0 then Err(Abort) else Ok(c))
    else if n == c.indexedSize then Ok(c)
    else if n >= minIndexSize then Ok(Coverage(n, Some(Built(n))))
    else Ok(Coverage(0, None))
  }

  /** After the corrected rebuild every entry is reachable by search, and
      it agrees with rebuild as written whenever a graph is built. */
  lemma RebuildFixedCovers(linear: bool, minIndexSize: nat, n: nat, c: Coverage)
    requires CoversAll(c, n)
    ensures RebuildFixedOf(linear, minIndexSize, n, c).Ok? ==> CoversAll(RebuildFixedOf(linear, minIndexSize, n, c).value, n)
    ensures n >= minIndexSize ==> RebuildFixedOf(linear, minIndexSize, n, c) == RebuildOf(linear, minIndexSize, n, c)
    ensures linear ==> (RebuildFixedOf(linear, minIndexSize, n, c).Ok? <==> c.indexedSize == 0)
  {
  }

  /** clear as written: the graph goes and the watermark stays. */
  function ClearOf(c: Coverage): Coverage {
    Coverage(c.indexedSize, None)
  }

  /** clear as written on an index that had built a graph leaves a
      watermark above the (now empty) entries: the next search fails its
      BOOST_VERIFY, and the first indexedSize entries inserted afterwards
      are never scanned. */
  lemma ClearStrands(c: Coverage)
    requires c.indexedSize > 0
    ensures !Searchable(ClearOf(c)) && !CoversAll(ClearOf(c), 0)
  {
  }

  /** clear as evidently intended: the watermark returns to 0. */
  function ClearFixedOf(c: Coverage): Coverage {
    Coverage(0, None)
  }

  /** After the corrected clear, search reaches every entry inserted later. */
  lemma ClearFixedCovers(c: Coverage, n: nat)
    ensures CoversAll(ClearFixedOf(c), n)
  {
  }

  /** insert keeps every entry reachable: the new one lies in the tail. */
  lemma InsertCovers(c: Coverage, n: nat)
    requires CoversAll(c, n)
    ensures CoversAll(c, n + 1)
  {
  }

  class KGraphIndex<F> {
    const linear: bool
    const minIndexSize: nat
    const defaultK: nat
    const defaultR: real
    /** FeatureSimilarity::POLARITY and Matcher::POLARITY. */
    const featurePolarity: int
    const matcherPolarity: int
    var indexedSize: nat
    var entries: seq<Entry<F>>
    var graph: Option<Graph>

    function Cov(): Coverage
      reads this
    {
      Coverage(indexedSize, graph)
    }

    /** The constructor: min_index_size from donkey.kgraph.min (default
        10000), nothing indexed and no graph. */
    constructor (linear: bool, configuredMin: Option<nat>, defaultK: nat, defaultR: real,
                 featurePolarity: int, matcherPolarity: int)
      requires defaultK > 0
      ensures this.linear == linear && this.defaultK == defaultK && this.defaultR == defaultR
      ensures this.featurePolarity == featurePolarity && this.matcherPolarity == matcherPolarity
      ensures minIndexSize == (if configuredMin.Some? then configuredMin.value else 10000)
      ensures indexedSize == 0 && entries == [] && graph.None?
    {
      this.linear, this.defaultK, this.defaultR := linear, defaultK, defaultR;
      this.featurePolarity, this.matcherPolarity := featurePolarity, matcherPolarity;
      minIndexSize := if configuredMin.Some? then configuredMin.value else 10000;
      indexedSize, entries, graph := 0, [], None;
    }

    /** search.  graphSearch(K, eps) and scanSearch(K, eps) are the
        library's answers over entries[0..indexedSize) and over the tail
        entries[indexedSize..); each returns at most K hits inside its range.
        A graph-less index with a non-zero watermark, and a watermark past
        the end of the entries, fail the BOOST_VERIFYs. */
    method Search(req: SearchRequest, graphSearch: (nat, real) -> seq<Hit>, scanSearch: (nat, real) -> seq<Hit>)
      returns (r: Result<seq<Match>>)
      requires defaultK > 0
      requires forall k, eps :: |graphSearch(k, eps)| <= k && HitsBelow(graphSearch(k, eps), indexedSize)
      requires forall k, eps :: |scanSearch(k, eps)| <= k && HitsBelow(scanSearch(k, eps), TailSize())
      ensures !Searchable(Cov()) ==> r == Err(Abort)
      ensures Searchable(Cov()) && indexedSize > |entries| ==> r == Err(Abort)
      ensures CoversAll(Cov(), |entries|) ==>
        var (k, eps) := SearchParams(req, defaultK, defaultR, featurePolarity);
        var hits := HitsOf(graphSearch(k, eps), scanSearch(k, eps));
        r.Ok? && |hits| <= 2 * k && HitsBelow(hits, |entries|)
          && r.value == Truncate(SortMatches(matcherPolarity, Candidates(entries, hits)), k)
    {
      var (k, eps) := SearchParams(req, defaultK, defaultR, featurePolarity);
      if graph.None? && indexedSize != 0 {
        return Err(Abort);
      }
      var hits := GatherHits(graphSearch(k, eps), scanSearch(k, eps));
      if indexedSize > |entries| {
        return Err(Abort);
      }
      var matches := Resolve(hits);
      r := Ok(Truncate(SortMatches(matcherPolarity, matches), k));
    }

    /** The number of entries the graph does not cover. */
    function TailSize(): nat
      reads this
    {
      if indexedSize <= |entries| then |entries| - indexedSize else 0
    }

    /** ids[0..L): the graph's hits when there is a graph, then the scan's
        hits when some entries lie past the watermark. */
    function HitsOf(graphHits: seq<Hit>, scanHits: seq<Hit>): seq<Hit>
      reads this
    {
      (if graph.Some? then graphHits else [])
        + (if indexedSize < |entries| then Shift(scanHits, indexedSize) else [])
    }

    /** The two searches of `search` with the scan's ids shifted in place
        past the watermark. */
    method GatherHits(graphHits: seq<Hit>, scanHits: seq<Hit>) returns (hits: seq<Hit>)
      requires HitsBelow(graphHits, indexedSize) && HitsBelow(scanHits, TailSize())
      ensures hits == HitsOf(graphHits, scanHits)
      ensures indexedSize <= |entries| ==> HitsBelow(hits, |entries|)
    {
      hits := [];
      if graph.Some? {
        hits := graphHits;
      }
      if indexedSize < |entries| {
        var l0 := |hits|;
        hits := ShiftFrom(hits + scanHits, l0, indexedSize);
        assert (hits[..l0] + scanHits)[l0..] == scanHits;
      } else {
        assert hits + [] == hits;
      }
    }

    /** The second loop of `search`: each hit becomes a match carrying its
        entry's object and tag. */
    method Resolve(hits: seq<Hit>) returns (matches: seq<Match>)
      requires HitsBelow(hits, |entries|)
      ensures matches == Candidates(entries, hits)
    {
      matches := [];
      var i := 0;
      while i < |hits|
        invariant 0 <= i <= |hits| && matches == Candidates(entries, hits[..i])
      {
        var e := entries[hits[i].0];
        matches := matches + [Match(e.obj, e.tag, hits[i].1)];
        i := i + 1;
      }
      assert hits[..i] == hits;
    }

    /** insert: one more entry; the watermark and the graph stay. */
    method Insert(obj: nat, tag: nat, feature: F)
      modifies this
      ensures entries == old(entries) + [Entry(obj, tag, feature)]
      ensures indexedSize == old(indexedSize) && graph == old(graph)
    {
      entries := entries + [Entry(obj, tag, feature)];
    }

    /** clear: drops the graph and the entries, and keeps the watermark. */
    method Clear()
      modifies this
      ensures entries == [] && Cov() == ClearOf(old(Cov()))
    {
      graph := None;
      entries := [];
    }

    /** rebuild.  A linear index only checks that nothing was ever
        indexed; otherwise nothing happens when no entry was added,
        and else the watermark moves to the end and a graph is built when
        there are at least minIndexSize entries (and dropped when there are
        fewer). */
    method Rebuild() returns (r: Result<()>)
      modifies this
      ensures entries == old(entries)
      ensures var out := RebuildOf(linear, minIndexSize, |entries|, old(Cov()));
        (r.Ok? <==> out.Ok?) && (out.Ok? ==> Cov() == out.value)
        && (out.Err? ==> r == Err(out.error) && Cov() == old(Cov()))
    {
      if linear {
        if indexedSize != 0 {
          return Err(Abort);
        }
        return Ok(());
      }
      if |entries| == indexedSize {
        return Ok(());
      }
      var kg: Option<Graph> := None;
      if |entries| >= minIndexSize {
        kg := Some(Built(|entries|));
      }
      indexedSize := |entries|;
      graph := kg;
      r := Ok(());
    }

    /** recover.  `loaded` says whether KGraph::load succeeded and `meta`
        whether path.meta could be opened and what `>>` read from it (0
        when the text is no number); on failure the index is rebuilt. */
    method Recover(path: string, loaded: bool, meta: Option<nat>) returns (r: Result<()>)
      modifies this
      ensures entries == old(entries)
      ensures loaded && meta.Some? ==> r.Ok? && Cov() == Coverage(meta.value, Some(Loaded(path)))
      ensures !(loaded && meta.Some?) ==> var out := RebuildOf(linear, minIndexSize, |entries|, old(Cov()));
        (r.Ok? <==> out.Ok?) && (out.Ok? ==> Cov() == out.value)
    {
      if loaded && meta.Some? {
        indexedSize := meta.value;
        graph := Some(Loaded(path));
        r := Ok(());
      } else {
        r := Rebuild();
      }
    }

    /** snapshot: with a graph, the graph file and the text of path.meta
        (the watermark and a newline); without one nothing is written. */
    method Snapshot(path: string) returns (written: Option<(Graph, string)>)
      ensures graph.None? <==> written.None?
      ensures written.Some? ==> written.value == (graph.value, NatToDecimal(indexedSize) + "\n")
    {
      if graph.Some? {
        written := Some((graph.value, NatToDecimal(indexedSize) + "\n"));
      } else {
        written := None;
      }
    }
  }

  /** for (l = L0; l < L; ++l) ids[l] += off. */
  method ShiftFrom(hits: seq<Hit>, l0: nat, off: nat) returns (r: seq<Hit>)
    requires l0 <= |hits|
    ensures r == hits[..l0] + Shift(hits[l0..], off)
  {
    r := hits;
    var l := l0;
    while l < |r|
      invariant l0 <= l <= |r| == |hits| && r[..l0] == hits[..l0]
      invariant forall i :: l0 <= i < l ==> r[i] == (hits[i].0 + off, hits[i].1)
      invariant forall i :: l <= i < |r| ==> r[i] == hits[i]
    {
      r := r[l := (r[l].0 + off, r[l].1)];
      l := l + 1;
    }
  }

  /** The merged list never holds more than 2K candidates and the answer
      never more than K, every match taken from a real entry, best first. */
  lemma SearchAnswer<F>(entries: seq<Entry<F>>, polarity: int, hits: seq<Hit>, k: nat)
    requires HitsBelow(hits, |entries|)
    ensures var r := Truncate(SortMatches(polarity, Candidates(entries, hits)), k);
      |r| <= k && InOrder(polarity, r)
      && multiset(r) <= multiset(Candidates(entries, hits))
      && (forall m :: m in r ==>
            exists i :: 0 <= i < |hits| && m == Match(entries[hits[i].0].obj, entries[hits[i].0].tag, hits[i].1))
  {
    var c := Candidates(entries, hits);
    var s := SortMatches(polarity, c);
    SortMatchesInOrder(polarity, c);
    var r := Truncate(s, k);
    assert s == r + s[|r|..];
    assert multiset(s) == multiset(r) + multiset(s[|r|..]);
    forall m | m in r
      ensures exists i :: 0 <= i < |hits| && m == Match(entries[hits[i].0].obj, entries[hits[i].0].tag, hits[i].1)
    {
      assert m in multiset(c);
      var i :| 0 <= i < |c| && c[i] == m;
    }
  }
}
