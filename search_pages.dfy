/** Pagination of a search result in the Node.js front ends (the `paginate`
    function of demo/qbic-node/donkey.js and of webserver/donkey.js, which
    compute the same page).  Query parameters reach `paginate` as JavaScript
    numbers (`x - 0`), so a missing or non-numeric parameter is NaN. */
module SearchPages {
  import opened Wrappers
  import opened Floats

  /** config.apiOptions.numberOfItems in both front ends' config.js. */
  const DEFAULT_ITEMS: real := 20.0

  /** A search response: the backend's timings and its list of hits. */
  datatype Response<H> = Response(time: real, loadTime: real, filterTime: real, rankTime: real, hits: seq<H>)

  /** The JSON a front end answers with: the query id, the page number, the
      number of pages and the response cut down to the page's hits. */
  datatype PageJson<H> = PageJson(queryId: nat, pageNum: FloatValue, numOfPages: int, data: Response<H>)

  /** The request parameters paginate and search read: query_id (absent or an
      id), num_of_items and page. */
  datatype Query = Query(queryId: Option<nat>, numOfItems: FloatValue, page: FloatValue)

  /** JavaScript `x < c` for a number x and a finite c: NaN compares false. */
  predicate Less(x: FloatValue, c: real) {
    match x
    case Finite(v) => v < c
    case Infinity(negative) => negative
    case NaN => false
  }

  /** A page size paginate keeps: a finite number of at least 1, or +Infinity. */
  predicate PageSize(n: FloatValue) {
    (n.Finite? && n.v >= 1.0) || n == Infinity(false)
  }

  /** A page number paginate keeps: a finite number of at least 0, or +Infinity. */
  predicate PageIndex(p: FloatValue) {
    (p.Finite? && p.v >= 0.0) || p == Infinity(false)
  }

  /** The page size: num_of_items unless it is NaN or below 1, when the
      configured numberOfItems is used.  (`numOfItems == null` never holds
      for the result of `x - 0`.) */
  function ItemsPerPage(q: FloatValue): (n: FloatValue)
    ensures PageSize(n)
    ensures PageSize(q) ==> n == q
    ensures !PageSize(q) ==> n == Finite(DEFAULT_ITEMS)
  {
    if q.NaN? || Less(q, 1.0) then Finite(DEFAULT_ITEMS) else q
  }

  /** The page number: page unless it is NaN or negative, when it is 0. */
  function PageNumber(q: FloatValue): (p: FloatValue)
    ensures PageIndex(p)
    ensures PageIndex(q) ==> p == q
    ensures !PageIndex(q) ==> p == Finite(0.0)
  {
    if q.NaN? || Less(q, 0.0) then Finite(0.0) else q
  }

  /** JavaScript `a * b`; overflow to Infinity and the sign of zero are not
      modelled. */
  function Mul(a: FloatValue, b: FloatValue): FloatValue {
    match (a, b)
    case (NaN, _) => NaN
    case (_, NaN) => NaN
    case (Finite(x), Finite(y)) => Finite(x * y)
    case (Infinity(s), Finite(y)) => if y == 0.0 then NaN else Infinity(s != (y < 0.0))
    case (Finite(x), Infinity(s)) => if x == 0.0 then NaN else Infinity(s != (x < 0.0))
    case (Infinity(s), Infinity(t)) => Infinity(s != t)
  }

  /** JavaScript `a + b`, with the same omissions as Mul. */
  function Add(a: FloatValue, b: FloatValue): FloatValue {
    match (a, b)
    case (NaN, _) => NaN
    case (_, NaN) => NaN
    case (Finite(x), Finite(y)) => Finite(x + y)
    case (Infinity(s), Finite(_)) => Infinity(s)
    case (Finite(_), Infinity(s)) => Infinity(s)
    case (Infinity(s), Infinity(t)) => if s == t then Infinity(s) else NaN
  }

  /** ToIntegerOrInfinity on a finite number: truncation toward zero. */
  function Truncate(v: real): (t: int)
    ensures v >= 0.0 ==> t == v.Floor
    ensures v >= 0.0 ==> t >= 0
  {
    if v >= 0.0 then v.Floor else -((-v).Floor)
  }

  /** The position Array.prototype.slice takes from an argument x on a list
      of length len: NaN is 0, a finite number is truncated toward zero, a
      negative one counts from the end, and the result is clipped to
      [0, len]. */
  function SliceIndex(x: FloatValue, len: nat): (k: nat)
    ensures k <= len
    ensures x.Finite? && x.v >= 0.0 ==> k == if x.v.Floor < len then x.v.Floor else len
  {
    match x
    case NaN => 0
    case Infinity(negative) => if negative then 0 else len
    case Finite(v) =>
      var t := Truncate(v);
      if t < 0 then (if len + t < 0 then 0 else len + t)
      else if t > len then len else t
  }

  /** Array.prototype.slice(a, b): the elements from position a up to, not
      including, position b, and none when b is not after a. */
  function Slice<H>(s: seq<H>, a: FloatValue, b: FloatValue): (r: seq<H>)
    ensures |r| <= |s|
  {
    var i := SliceIndex(a, |s|);
    var j := SliceIndex(b, |s|);
    if i <= j then s[i..j] else []
  }

  /** The hits of page p for a page size n:
      `hits.slice(p * n, (p + 1) * n)`. */
  function Page<H>(hits: seq<H>, p: FloatValue, n: FloatValue): seq<H> {
    Slice(hits, Mul(p, n), Mul(Add(p, Finite(1.0)), n))
  }

  /** numOfPages: `Math.floor((len - 1) / n + 1)`; (len - 1) / Infinity is
      zero, so an infinite page size gives one page. */
  function PageCount(len: nat, n: FloatValue): (r: int)
    requires PageSize(n)
    ensures r >= 0
  {
    if n.Finite? then
      PageCountBound(len, n.v);
      ((len - 1) as real / n.v + 1.0).Floor
    else 1
  }

  lemma PageCountBound(len: nat, v: real)
    requires v >= 1.0
    ensures (len - 1) as real / v + 1.0 >= 0.0
  {
    if len == 0 {
      assert (len - 1) as real / v == -1.0 / v;
      assert -1.0 / v >= -1.0;
    }
  }

  /** paginate: the page size and the page number fall back to their
      defaults, and the answer carries the id, the page number, the page
      count and the response with only the page's hits. */
  function Paginate<H>(q: Query, result: Response<H>, id: nat): (j: PageJson<H>)
    ensures j.queryId == id && PageIndex(j.pageNum) && j.numOfPages >= 0
    ensures j.data.time == result.time && j.data.loadTime == result.loadTime
    ensures j.data.filterTime == result.filterTime && j.data.rankTime == result.rankTime
    ensures |j.data.hits| <= |result.hits|
  {
    var n := ItemsPerPage(q.numOfItems);
    var p := PageNumber(q.page);
    PageJson(id, p, PageCount(|result.hits|, n), result.(hits := Page(result.hits, p, n)))
  }

  /** The number of pages that hold at least one hit: ⌈len / n⌉ for a finite
      page size, and one page (when there are hits) for an infinite one. */
  function VisiblePages(len: nat, n: FloatValue): (r: int)
    requires PageSize(n)
  {
    if n.Finite? then -((-(len as real / n.v)).Floor)
    else if len == 0 then 0 else 1
  }

  /** The pages 0 .. count - 1 one after the other. */
  function Pages<H>(hits: seq<H>, n: FloatValue, count: nat): seq<H>
    requires PageSize(n)
  {
    if count == 0 then [] else Pages(hits, n, count - 1) + Page(hits, Finite((count - 1) as real), n)
  }

  /** Where page p starts in a list of len hits. */
  function PageStart(len: nat, p: nat, n: FloatValue): nat {
    SliceIndex(Mul(Finite(p as real), n), len)
  }

  /** Page p runs from its own start to the next page's start. */
  lemma PageBetween<H>(hits: seq<H>, p: nat, n: FloatValue)
    requires PageSize(n)
    ensures PageStart(|hits|, p, n) <= PageStart(|hits|, p + 1, n)
    ensures Page(hits, Finite(p as real), n) == hits[PageStart(|hits|, p, n)..PageStart(|hits|, p + 1, n)]
  {
    AddOne(p);
    StartMono(|hits|, p, n);
  }

  lemma AddOne(p: nat)
    ensures Add(Finite(p as real), Finite(1.0)) == Finite((p + 1) as real)
  {
  }

  lemma StartMono(len: nat, p: nat, n: FloatValue)
    requires PageSize(n)
    ensures PageStart(len, p, n) <= PageStart(len, p + 1, n)
  {
    if n.Finite? {
      FiniteMono(len, p, n.v);
    } else {
      InfiniteStarts(len, p);
      InfiniteStarts(len, p + 1);
    }
  }

  lemma FiniteMono(len: nat, p: nat, v: real)
    requires v >= 1.0
    ensures PageStart(len, p, Finite(v)) <= PageStart(len, p + 1, Finite(v))
  {
    var x := p as real * v;
    var y := (p + 1) as real * v;
    FiniteStart(len, p, v);
    FiniteStart(len, p + 1, v);
    NextProduct(p, v);
    NonNegative(p as real, v);
    ClipMono(x, y, len);
  }

  /** A clipped slice position ⌊x⌋ for x >= 0. */
  function Clip(x: real, len: nat): (k: nat)
    requires x >= 0.0
    ensures k <= len
  {
    if x.Floor < len then x.Floor else len
  }

  lemma ClipMono(x: real, y: real, len: nat)
    requires 0.0 <= x <= y
    ensures Clip(x, len) <= Clip(y, len)
  {
  }

  /** The pages tile the hits: pages 0 .. count - 1 together are exactly the
      hits before page count's start, each hit once and in order. */
  lemma {:induction false} PagesTile<H>(hits: seq<H>, n: FloatValue, count: nat)
    requires PageSize(n)
    ensures Pages(hits, n, count) == hits[..PageStart(|hits|, count, n)]
  {
    if count == 0 {
      StartZero(|hits|, n);
    } else {
      var p: nat := count - 1;
      PagesTile(hits, n, p);
      PageBetween(hits, p, n);
      Glue(hits, PageStart(|hits|, p, n), PageStart(|hits|, count, n));
    }
  }

  lemma StartZero(len: nat, n: FloatValue)
    requires PageSize(n)
    ensures PageStart(len, 0, n) == 0
  {
    if n.Finite? {
      assert Mul(Finite(0.0), n) == Finite(0.0);
    }
  }

  lemma Glue<H>(s: seq<H>, a: nat, b: nat)
    requires a <= b <= |s|
    ensures s[..a] + s[a..b] == s[..b]
  {
  }

  /** Page p of a finite page size v starts at ⌊p·v⌋, clipped to the list. */
  lemma FiniteStart(len: nat, p: nat, v: real)
    requires v >= 1.0
    ensures p as real * v >= 0.0
    ensures PageStart(len, p, Finite(v)) == Clip(p as real * v, len)
  {
    var x := p as real * v;
    NonNegative(p as real, v);
    assert Mul(Finite(p as real), Finite(v)) == Finite(x);
  }

  /** The next page starts at a strictly larger ⌊(p + 1)·v⌋. */
  lemma FiniteGap(p: nat, v: real)
    requires v >= 1.0
    ensures (p as real * v).Floor < ((p + 1) as real * v).Floor
  {
    NextProduct(p, v);
    FloorGap(p as real * v, (p + 1) as real * v, v);
  }

  lemma NonNegative(a: real, b: real)
    requires a >= 0.0 && b >= 0.0
    ensures a * b >= 0.0
  {
  }

  lemma NextProduct(p: nat, v: real)
    ensures (p + 1) as real * v == p as real * v + v
  {
  }

  lemma FloorGap(x: real, y: real, v: real)
    requires v >= 1.0 && y == x + v
    ensures x.Floor < y.Floor
  {
  }

  /** A page holds hits exactly when its number is below VisiblePages. */
  lemma PageVisible<H>(hits: seq<H>, p: nat, n: FloatValue)
    requires PageSize(n)
    ensures Page(hits, Finite(p as real), n) != [] <==> p < VisiblePages(|hits|, n)
  {
    PageBetween(hits, p, n);
    var i := PageStart(|hits|, p, n);
    var j := PageStart(|hits|, p + 1, n);
    assert Page(hits, Finite(p as real), n) != [] <==> i < j;
    if n.Finite? {
      StartsVisible(|hits|, p, n.v);
    } else {
      InfiniteStarts(|hits|, p);
      InfiniteStarts(|hits|, p + 1);
    }
  }

  lemma StartsVisible(len: nat, p: nat, v: real)
    requires v >= 1.0
    ensures PageStart(len, p, Finite(v)) < PageStart(len, p + 1, Finite(v)) <==> p < VisiblePages(len, Finite(v))
  {
    FiniteStart(len, p, v);
    FiniteStart(len, p + 1, v);
    FiniteGap(p, v);
    CountVisible(len, p, v);
  }

  /** Page p starts inside the list exactly when p is below ⌈len / v⌉. */
  lemma CountVisible(len: nat, p: nat, v: real)
    requires v >= 1.0
    ensures (p as real * v).Floor < len <==> p < VisiblePages(len, Finite(v))
  {
    var y := len as real / v;
    DivMul(len as real, v);
    FloorLess(p as real * v, len);
    MulLess(p as real, y, v);
    CeilLess(p, y);
  }

  lemma DivMul(m: real, v: real)
    requires v != 0.0
    ensures (m / v) * v == m
  {
  }

  lemma InfiniteStarts(len: nat, p: nat)
    ensures PageStart(len, p, Infinity(false)) == if p == 0 then 0 else len
  {
  }

  lemma FloorLess(x: real, m: int)
    ensures x.Floor < m <==> x < m as real
  {
  }

  lemma MulLess(a: real, b: real, v: real)
    requires v > 0.0
    ensures a * v < b * v <==> a < b
  {
    if a < b {
      assert (b - a) * v > 0.0;
    } else {
      assert (a - b) * v >= 0.0;
    }
  }

  /** For an integer p, p < y exactly when p is below the ceiling of y. */
  lemma CeilLess(p: int, y: real)
    ensures p as real < y <==> p < -((-y).Floor)
  {
  }

  /** For an integral page size k, numOfPages is ⌈len / k⌉ (0 for no hits),
      and so it counts the pages that hold hits. */
  lemma PageCountExact(len: nat, k: nat)
    requires k >= 1
    ensures PageCount(len, Finite(k as real)) == (len + k - 1) / k
    ensures PageCount(len, Finite(k as real)) == VisiblePages(len, Finite(k as real))
    ensures len == 0 ==> PageCount(len, Finite(k as real)) == 0
  {
    var c := (len + k - 1) / k;
    CountFloor(len, k, c);
    CountCeil(len, k, c);
  }

  lemma CountFloor(len: nat, k: nat, c: int)
    requires k >= 1 && c == (len + k - 1) / k
    ensures PageCount(len, Finite(k as real)) == c
  {
    var kr := k as real;
    var x := (len - 1) as real / kr + 1.0;
    assert x * kr == ((len - 1) as real / kr) * kr + kr;
    DivMul((len - 1) as real, kr);
    assert c * k <= len + k - 1 < (c + 1) * k;
    CastMul(c, k);
    CastMul(c + 1, k);
    FloorOf(x, kr, c, len + k - 1);
  }

  lemma CountCeil(len: nat, k: nat, c: int)
    requires k >= 1 && c == (len + k - 1) / k
    ensures VisiblePages(len, Finite(k as real)) == c
  {
    var kr := k as real;
    var y := len as real / kr;
    DivMul(len as real, kr);
    assert c * k <= len + k - 1 < (c + 1) * k;
    assert (c - 1) * k == c * k - k;
    CastMul(c, k);
    CastMul(c - 1, k);
    CeilOf(y, kr, c, len);
  }

  lemma CastMul(a: int, b: int)
    ensures (a as real) * (b as real) == (a * b) as real
  {
  }

  /** x·k = m with c·k <= m < (c + 1)·k makes c the floor of x. */
  lemma FloorOf(x: real, k: real, c: int, m: int)
    requires k > 0.0 && x * k == m as real
    requires (c as real) * k <= m as real < ((c + 1) as real) * k
    ensures x.Floor == c
  {
    MulLess(x, (c + 1) as real, k);
    assert x * k < ((c + 1) as real) * k;
    assert x < (c + 1) as real;
    MulLess(x, c as real, k);
    assert !(x * k < (c as real) * k);
    assert c as real <= x;
    FloorIs(x, c);
  }

  lemma FloorIs(x: real, c: int)
    requires c as real <= x < (c + 1) as real
    ensures x.Floor == c
  {
  }

  /** y·k = m with (c - 1)·k < m <= c·k makes c the ceiling of y. */
  lemma CeilOf(y: real, k: real, c: int, m: int)
    requires k > 0.0 && y * k == m as real
    requires ((c - 1) as real) * k < m as real <= (c as real) * k
    ensures -((-y).Floor) == c
  {
    MulLess(c as real, y, k);
    assert !((c as real) * k < y * k);
    assert y <= c as real;
    MulLess((c - 1) as real, y, k);
    assert ((c - 1) as real) * k < y * k;
    assert (c - 1) as real < y;
    FloorIs(-y, -c);
  }

  /** For a finite page size, numOfPages reports either every page with
      hits or one fewer: the pages before it all hold hits. */
  lemma PageCountNear(len: nat, n: FloatValue)
    requires PageSize(n) && n.Finite?
    ensures PageCount(len, n) <= VisiblePages(len, n) <= PageCount(len, n) + 1
  {
    if n.Finite? {
      var v := n.v;
      var x := (len - 1) as real / v + 1.0;
      var y := len as real / v;
      assert x == y + 1.0 - 1.0 / v;
      assert 0.0 < 1.0 / v <= 1.0;
    }
  }

  /** A fractional page size makes numOfPages miss the last page: with 3
      hits and num_of_items 2.5 it reports 1 page, yet page 1 holds the
      third hit. */
  lemma FractionalPageCount()
    ensures PageCount(3, Finite(2.5)) == 1
    ensures Page([10, 20, 30], Finite(1.0), Finite(2.5)) == [30]
    ensures VisiblePages(3, Finite(2.5)) == 2
  {
    assert (2 as real / 2.5 + 1.0).Floor == 1;
    assert Mul(Finite(1.0), Finite(2.5)) == Finite(2.5);
    assert Mul(Add(Finite(1.0), Finite(1.0)), Finite(2.5)) == Finite(5.0);
    assert SliceIndex(Finite(2.5), 3) == 2;
    assert (-(3 as real / 2.5)).Floor == -2;
  }

  /** For integral page size k and page p, the page is
      hits[p·k .. (p + 1)·k], clipped to the list, and holds at most k hits. */
  lemma IntegralPage<H>(hits: seq<H>, p: nat, k: nat)
    requires k >= 1
    ensures var lo := if p * k < |hits| then p * k else |hits|;
            var hi := if (p + 1) * k < |hits| then (p + 1) * k else |hits|;
            lo <= hi && Page(hits, Finite(p as real), Finite(k as real)) == hits[lo..hi] && hi - lo <= k
  {
    PageBetween(hits, p, Finite(k as real));
    IntegralStart(|hits|, p, k);
    IntegralStart(|hits|, p + 1, k);
    assert (p + 1) * k == p * k + k;
  }

  lemma IntegralStart(len: nat, p: nat, k: nat)
    requires k >= 1
    ensures PageStart(len, p, Finite(k as real)) == if p * k < len then p * k else len
  {
    assert (p as real) * (k as real) == (p * k) as real;
    assert Mul(Finite(p as real), Finite(k as real)) == Finite((p * k) as real);
  }

  /** The hits after the fix-up loop both front ends run on a fresh
      response (`for (i in response.hits)`: each meta is parsed as JSON and
      its thumb prefixed with config.rootPath); `fix` is that step. */
  function FixedHits<H>(hits: seq<H>, fix: H -> H): (r: seq<H>)
    ensures |r| == |hits|
  {
    seq(|hits|, i requires 0 <= i < |hits| => fix(hits[i]))
  }

  /** The fix-up loop, in place on the hits. */
  method FixHits<H>(hits: array<H>, fix: H -> H)
    modifies hits
    ensures hits[..] == FixedHits(old(hits[..]), fix)
  {
    var i := 0;
    while i < hits.Length
      invariant 0 <= i <= hits.Length
      invariant forall j :: 0 <= j < i ==> hits[j] == fix(old(hits[j]))
      invariant forall j :: i <= j < hits.Length ==> hits[j] == old(hits[j])
    {
      hits[i] := fix(hits[i]);
      i := i + 1;
    }
  }

  /** The fix-up on a value: a response whose hits are all fixed up. */
  function Fixed<H>(r: Response<H>, fix: H -> H): Response<H> {
    r.(hits := FixedHits(r.hits, fix))
  }

  /** The fix-up of a fresh response: its hits go through the loop in an
      array and come back fixed up. */
  method FixResponse<H>(r: Response<H>, fix: H -> H) returns (f: Response<H>)
    ensures f == Fixed(r, fix)
  {
    var hits := new H[|r.hits|](i requires 0 <= i < |r.hits| => r.hits[i]);
    FixHits(hits, fix);
    f := r.(hits := hits[..]);
  }
}
