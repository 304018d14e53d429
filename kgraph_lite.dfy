/** The search-only k-NN graph of src/kgraph_lite.cpp: random start points,
    the sorted candidate list with duplicate rejection, the greedy graph
    walk and the graph-file decoder. */
module DonkeyKGraphLite {
  import opened Wrappers
  import opened Arith
  import opened Bytes
  import opened Sorting

  const U32: nat := 0x1_0000_0000

  // ------------------------------------------------------------ GenRandom

  /** std::sort on the drawn unsigned values. */
  function SortNats(s: seq<nat>): (r: seq<nat>)
    ensures |r| == |s| && multiset(r) == multiset(s)
  {
    SortBy((x: nat) => x as real, s)
  }

  lemma SortNatsBelow(s: seq<nat>, b: nat)
    requires forall i :: 0 <= i < |s| ==> s[i] < b
    ensures forall i :: 0 <= i < |s| ==> SortNats(s)[i] < b
  {
    var r := SortNats(s);
    forall i | 0 <= i < |s|
      ensures r[i] < b
    {
      assert r[i] in multiset(s);
    }
  }

  /** Adding off < N modulo N is one-to-one on 0..N-1. */
  lemma RotateInjective(x: nat, y: nat, off: nat, n: nat)
    requires x < n && y < n && off < n && x != y
    ensures (x + off) % n != (y + off) % n
  {
    if x + off < n { ModOf(x + off, n, 0, x + off); } else { ModOf(x + off, n, 1, x + off - n); }
    if y + off < n { ModOf(y + off, n, 0, y + off); } else { ModOf(y + off, n, 1, y + off - n); }
  }

  lemma RotatePair(x: nat, y: nat, off: nat, n: nat)
    requires x < y < n && off < n && n <= U32 / 2
    ensures ((x + off) % U32) % n != ((y + off) % U32) % n
  {
    ModOf(x + off, U32, 0, x + off);
    ModOf(y + off, U32, 0, y + off);
    RotateInjective(x, y, off, n);
  }

  /** GenRandom(rng, addr, size, N): `size` distinct values below N in
      addr[0..size).  rng(t) is the t-th output of the generator.  The
      unsigned sum addr[i] + off wraps at 2^32, which only matters when N
      exceeds 2^31. */
  method GenRandom(rng: nat -> nat, addr: array<nat>, size: nat, n: nat)
    requires size <= addr.Length && size <= n && n <= U32
    modifies addr
    ensures n == size ==> forall i :: 0 <= i < size ==> addr[i] == i
    ensures forall i :: 0 <= i < size ==> addr[i] < n
    ensures n <= U32 / 2 ==> forall i, j :: 0 <= i < j < size ==> addr[i] != addr[j]
    ensures addr[size..] == old(addr[size..])
  {
    if n == size {
      for i := 0 to size
        invariant forall j :: 0 <= j < i ==> addr[j] == j
        invariant addr[size..] == old(addr[size..])
      {
        addr[i] := i;
      }
      return;
    }
    var span := n - size;
    Draw(rng, addr, size, span);
    SortPrefix(addr, size, span);
    FixUp(addr, size, span);
    var off := rng(size) % n;
    Rotate(addr, size, n, off);
  }

  /** The first loop of GenRandom: addr[i] = rng() % (N - size). */
  method Draw(rng: nat -> nat, addr: array<nat>, size: nat, span: nat)
    requires size <= addr.Length && span > 0
    modifies addr
    ensures forall i :: 0 <= i < size ==> addr[i] == rng(i) % span
    ensures addr[size..] == old(addr[size..])
  {
    for i := 0 to size
      invariant forall j :: 0 <= j < i ==> addr[j] == rng(j) % span
      invariant addr[size..] == old(addr[size..])
    {
      addr[i] := rng(i) % span;
    }
  }

  /** sort(addr, addr + size). */
  method SortPrefix(addr: array<nat>, size: nat, span: nat)
    requires size <= addr.Length && forall i :: 0 <= i < size ==> addr[i] < span
    modifies addr
    ensures addr[..size] == SortNats(old(addr[..size])) && addr[size..] == old(addr[size..])
    ensures forall i :: 0 <= i < size ==> addr[i] < span
  {
    var drawn := addr[..size];
    var sorted := SortNats(drawn);
    forall i | 0 <= i < size {
      addr[i] := sorted[i];
    }
    assert addr[..size] == sorted;
    SortNatsBelow(drawn, span);
  }

  /** The last loop of GenRandom: addr[i] = (addr[i] + off) % N in
      unsigned arithmetic.  Strictly increasing values below N stay
      pairwise distinct when N <= 2^31, where the sum cannot wrap. */
  method Rotate(addr: array<nat>, size: nat, n: nat, off: nat)
    requires size <= addr.Length && 0 < n && off < n
    requires forall i :: 0 <= i < size ==> addr[i] < n
    requires forall i, j :: 0 <= i < j < size ==> addr[i] < addr[j]
    modifies addr
    ensures forall i :: 0 <= i < size ==> addr[i] == ((old(addr[i]) + off) % U32) % n
    ensures n <= U32 / 2 ==> forall i, j :: 0 <= i < j < size ==> addr[i] != addr[j]
    ensures addr[size..] == old(addr[size..])
  {
    ghost var spread := addr[..];
    for i := 0 to size
      invariant forall j :: 0 <= j < i ==> addr[j] == RotatedBy(spread[j], off, n)
      invariant forall j :: i <= j < addr.Length ==> addr[j] == spread[j]
    {
      addr[i] := RotatedBy(addr[i], off, n);
    }
    if n <= U32 / 2 {
      RotatedDistinct(spread, addr[..], size, n, off);
    }
  }

  /** (x + off) % N with the sum taken as an unsigned 32-bit value. */
  function RotatedBy(x: nat, off: nat, n: nat): nat
    requires n > 0
  {
    ((x + off) % U32) % n
  }

  /** Strictly increasing values below N, each rotated by off, are
      pairwise distinct when N <= 2^31. */
  lemma RotatedDistinct(spread: seq<nat>, rotated: seq<nat>, size: nat, n: nat, off: nat)
    requires size <= |spread| && size <= |rotated| && 0 < n <= U32 / 2 && off < n
    requires forall i :: 0 <= i < size ==> spread[i] < n && rotated[i] == ((spread[i] + off) % U32) % n
    requires forall i, j :: 0 <= i < j < size ==> spread[i] < spread[j]
    ensures forall i, j :: 0 <= i < j < size ==> rotated[i] != rotated[j]
  {
    forall i, j | 0 <= i < j < size
      ensures rotated[i] != rotated[j]
    {
      RotatePair(spread[i], spread[j], off, n);
    }
  }

  /** The middle loop of GenRandom: each value is raised to one more than
      its predecessor when it is not above it, so the values become
      strictly increasing and the j-th stays below span + j. */
  method FixUp(addr: array<nat>, size: nat, span: nat)
    requires size <= addr.Length && forall i :: 0 <= i < size ==> addr[i] < span
    modifies addr
    ensures forall i :: 0 <= i < size ==> addr[i] < span + i
    ensures forall i, j :: 0 <= i < j < size ==> addr[i] < addr[j]
    ensures addr[size..] == old(addr[size..])
  {
    if size == 0 {
      return;
    }
    var i := 1;
    while i < size
      invariant 1 <= i <= size
      invariant forall j :: 0 <= j < i ==> addr[j] < span + j
      invariant forall j, k :: 0 <= j < k < i ==> addr[j] < addr[k]
      invariant forall j :: i <= j < size ==> addr[j] < span
      invariant addr[size..] == old(addr[size..])
    {
      if addr[i] <= addr[i - 1] {
        addr[i] := addr[i - 1] + 1;
      }
      i := i + 1;
    }
  }

  // ------------------------------------------------------ the k-NN list

  /** NeighborX: a candidate node, its distance, whether its neighbours
      are still to be checked, and how far (m of M) they have been. */
  datatype Neighbor = Neighbor(id: nat, dist: real, flag: bool, m: nat, M: nat)

  predicate DistSorted(s: seq<Neighbor>) {
    forall i, j :: 0 <= i < j < |s| ==> s[i].dist <= s[j].dist
  }

  /** Where UpdateKnnListHelper puts a candidate at distance d: after the
      last entry at distance <= d, scanning from the end. */
  function InsertPos(s: seq<Neighbor>, d: real): (i: nat)
    ensures i <= |s| && (i > 0 ==> s[i - 1].dist <= d)
    ensures forall j :: i <= j < |s| ==> s[j].dist > d
  {
    if s == [] || s[|s| - 1].dist <= d then |s| else InsertPos(s[..|s| - 1], d)
  }

  /** The duplicate scan: walking down from l over entries at distance
      >= nn.dist, one of them has nn's id. */
  predicate DupIn(s: seq<Neighbor>, l: nat, nn: Neighbor)
    requires l <= |s|
  {
    l > 0 && s[l - 1].dist >= nn.dist && (s[l - 1].id == nn.id || DupIn(s, l - 1, nn))
  }

  /** The effect of UpdateKnnListHelper on the list addr[0..K): K+1 and
      the list unchanged for a duplicate, else the position and the K+1
      entries with nn inserted. */
  function KnnInsert(s: seq<Neighbor>, nn: Neighbor): (r: (nat, seq<Neighbor>))
    ensures r.0 == |s| + 1 <==> DupIn(s, InsertPos(s, nn.dist), nn)
    ensures r.0 == |s| + 1 ==> r.1 == s
    ensures r.0 <= |s| ==> r.0 == InsertPos(s, nn.dist) && |r.1| == |s| + 1
    ensures r.0 <= |s| ==> forall x :: 0 <= x < |r.1| ==>
      r.1[x] == (if x < r.0 then s[x] else if x == r.0 then nn else s[x - 1])
  {
    var i := InsertPos(s, nn.dist);
    if DupIn(s, i, nn) then (|s| + 1, s)
    else (i, s[..i] + [nn] + s[i..])
  }

  /** The duplicate scan finds only entries carrying nn's id. */
  lemma {:induction false} DupInHasId(s: seq<Neighbor>, l: nat, nn: Neighbor)
    requires l <= |s| && DupIn(s, l, nn)
    ensures exists j :: 0 <= j < l && s[j].id == nn.id
  {
    if s[l - 1].id != nn.id {
      DupInHasId(s, l - 1, nn);
    }
  }

  /** On a sorted list the scan below the insert position looks at
      exactly the entries at distance nn.dist. */
  lemma {:induction false} DupInRun(s: seq<Neighbor>, l: nat, nn: Neighbor)
    requires DistSorted(s) && l <= |s| && forall j :: 0 <= j < l ==> s[j].dist <= nn.dist
    ensures DupIn(s, l, nn) <==> exists j :: 0 <= j < l && s[j].dist == nn.dist && s[j].id == nn.id
  {
    if l > 0 {
      DupInRun(s, l - 1, nn);
      if s[l - 1].dist < nn.dist {
        assert forall j :: 0 <= j < l ==> s[j].dist < nn.dist;
      }
    }
  }

  /** On a sorted list the candidate is rejected exactly when an entry
      at the same distance has its id. */
  lemma KnnInsertRejects(s: seq<Neighbor>, nn: Neighbor)
    requires DistSorted(s)
    ensures KnnInsert(s, nn).0 == |s| + 1 <==> exists j :: 0 <= j < |s| && s[j].dist == nn.dist && s[j].id == nn.id
  {
    var i := InsertPos(s, nn.dist);
    assert forall j :: 0 <= j < i ==> s[j].dist <= s[i - 1].dist;
    DupInRun(s, i, nn);
  }

  /** On a sorted list an accepted candidate goes after every entry at
      distance <= its own and before the rest, and the list stays sorted. */
  lemma KnnInsertSorted(s: seq<Neighbor>, nn: Neighbor)
    requires DistSorted(s) && KnnInsert(s, nn).0 <= |s|
    ensures var r := KnnInsert(s, nn);
      DistSorted(r.1)
      && (forall j :: 0 <= j < r.0 ==> s[j].dist <= nn.dist)
      && (forall j :: r.0 <= j < |s| ==> s[j].dist > nn.dist)
  {
    var i := InsertPos(s, nn.dist);
    assert forall j :: 0 <= j < i ==> s[j].dist <= s[i - 1].dist;
    var t := KnnInsert(s, nn).1;
    assert forall j :: 0 <= j < i ==> t[j] == s[j];
    assert forall j :: i < j < |t| ==> t[j] == s[j - 1];
    InsertedSorted(s, i, nn, t);
  }

  lemma InsertedSorted(s: seq<Neighbor>, i: nat, x: Neighbor, t: seq<Neighbor>)
    requires DistSorted(s) && i <= |s| && |t| == |s| + 1
    requires forall j :: 0 <= j < i ==> t[j] == s[j]
    requires t[i] == x && forall j :: i < j < |t| ==> t[j] == s[j - 1]
    requires forall j :: 0 <= j < i ==> s[j].dist <= x.dist
    requires forall j :: i <= j < |s| ==> s[j].dist > x.dist
    ensures DistSorted(t)
  {
    forall a, b | 0 <= a < b < |t|
      ensures t[a].dist <= t[b].dist
    {
      if a < i && i < b {
        assert s[a].dist <= x.dist < s[b - 1].dist;
      }
    }
  }

  /** A candidate whose id is not in the list is always inserted. */
  lemma KnnInsertNew(s: seq<Neighbor>, nn: Neighbor)
    requires forall j :: 0 <= j < |s| ==> s[j].id != nn.id
    ensures KnnInsert(s, nn).0 <= |s|
  {
    var i := InsertPos(s, nn.dist);
    if DupIn(s, i, nn) {
      DupInHasId(s, i, nn);
    }
  }

  /** K == 0: addr[0] <- nn, and 0 is returned. */
  lemma KnnInsertEmpty(nn: Neighbor)
    ensures KnnInsert([], nn) == (0, [nn])
  {
    var t := KnnInsert([], nn).1;
    assert |t| == 1 && t[0] == nn;
    assert t == [nn];
  }

  /** UpdateKnnListHelper(addr, K, nn) on addr[0..K] (K+1 slots, the last
      one an output slot). */
  method UpdateKnnListHelper(addr: array<Neighbor>, k: nat, nn: Neighbor) returns (r: nat)
    requires k < addr.Length
    modifies addr
    ensures r == KnnInsert(old(addr[..k]), nn).0
    ensures r == k + 1 ==> addr[..] == old(addr[..])
    ensures r <= k ==> addr[..k + 1] == KnnInsert(old(addr[..k]), nn).1 && addr[k + 1..] == old(addr[k + 1..])
  {
    ghost var s := addr[..k];
    var i := FindSlot(addr, k, nn.dist);
    var dup := HasDuplicate(addr, k, i, nn);
    assert addr[..k] == s;
    if dup {
      assert DupIn(s, InsertPos(s, nn.dist), nn);
      assert KnnInsert(s, nn).0 == k + 1;
      return k + 1;
    }
    ghost var before := addr[..];
    ShiftUp(addr, k, i);
    addr[i] := nn;
    r := i;
    Assembled(addr[..], before, s, i, k, nn);
  }

  lemma Assembled(a: seq<Neighbor>, before: seq<Neighbor>, s: seq<Neighbor>, i: nat, k: nat, nn: Neighbor)
    requires k < |a| == |before| && s == before[..k] && KnnInsert(s, nn).0 == i <= k
    requires forall t :: 0 <= t < i ==> a[t] == before[t]
    requires a[i] == nn && forall t :: i < t <= k ==> a[t] == before[t - 1]
    ensures a[..k + 1] == KnnInsert(s, nn).1
  {
    var t := KnnInsert(s, nn).1;
    forall x | 0 <= x <= k
      ensures a[x] == t[x]
    {
    }
  }

  /** The first loop of UpdateKnnListHelper. */
  method FindSlot(addr: array<Neighbor>, k: nat, d: real) returns (i: nat)
    requires k <= addr.Length
    ensures i == InsertPos(addr[..k], d)
  {
    i := k;
    while i > 0
      invariant 0 <= i <= k && InsertPos(addr[..k], d) == InsertPos(addr[..i], d)
    {
      var j := i - 1;
      if addr[j].dist <= d {
        break;
      }
      assert addr[..i][..j] == addr[..j];
      i := j;
    }
  }

  /** The second loop of UpdateKnnListHelper: the duplicate scan. */
  method HasDuplicate(addr: array<Neighbor>, k: nat, i: nat, nn: Neighbor) returns (dup: bool)
    requires i <= k <= addr.Length
    ensures dup == DupIn(addr[..k], i, nn)
  {
    ghost var s := addr[..k];
    var l := i;
    while l > 0
      invariant 0 <= l <= i && (DupIn(s, i, nn) <==> DupIn(s, l, nn))
    {
      var j := l - 1;
      if addr[j].dist < nn.dist {
        return false;
      }
      if addr[j].id == nn.id {
        return true;
      }
      l := j;
    }
    return false;
  }

  /** The third loop of UpdateKnnListHelper: addr[i..K) moves up one slot. */
  method ShiftUp(addr: array<Neighbor>, k: nat, i: nat)
    requires i <= k < addr.Length
    modifies addr
    ensures forall t :: 0 <= t <= i ==> addr[t] == old(addr[t])
    ensures forall t :: i < t <= k ==> addr[t] == old(addr[t - 1])
    ensures forall t :: k < t < addr.Length ==> addr[t] == old(addr[t])
  {
    var j := k;
    while j > i
      invariant i <= j <= k
      invariant forall t :: 0 <= t <= j ==> addr[t] == old(addr[t])
      invariant forall t :: j < t <= k ==> addr[t] == old(addr[t - 1])
      invariant forall t :: k < t < addr.Length ==> addr[t] == old(addr[t])
    {
      addr[j] := addr[j - 1];
      j := j - 1;
    }
  }

  // ------------------------------------------------------ the graph file

  /** sizeof(Neighbor) in a file saved with distances: the u32 id, the
      float distance and the bool flag, padded to 12 bytes. */
  const NEIGHBOR_SIZE: nat := 12

  /** The outcome of KGraphLite::load on a file's bytes. */
  datatype Loading =
    | Loaded(M: seq<nat>, graph: seq<seq<nat>>)
    | OpenFailed           // "failed to open index"
    | VersionNotSupported  // "data version not supported."
    | Truncated            // the file ends early: load goes on with indeterminate values

  /** k entries of w bytes each, the id in the first four. */
  function IdsFrom(w: nat, k: nat, s: seq<Byte>): (r: Option<(seq<nat>, seq<Byte>)>)
    requires 4 <= w
    ensures r.Some? ==> |r.value.0| == k
  {
    if k == 0 then Some(([], s))
    else if |s| < w then None
    else
      match IdsFrom(w, k - 1, s[w..])
      case None => None
      case Some(more) => Some(([WordValue(s[..4])] + more.0, more.1))
  }

  /** One node's record: u32 M, u32 K and its K neighbours. */
  function RecordFrom(w: nat, s: seq<Byte>): (r: Option<(nat, seq<nat>, seq<Byte>)>)
    requires 4 <= w
  {
    if |s| < 8 then None
    else
      match IdsFrom(w, WordValue(s[4..8]), s[8..])
      case None => None
      case Some(ids) => Some((WordValue(s[..4]), ids.0, ids.1))
  }

  function RecordsFrom(w: nat, n: nat, s: seq<Byte>): (r: Option<(seq<nat>, seq<seq<nat>>, seq<Byte>)>)
    requires 4 <= w
    ensures r.Some? ==> |r.value.0| == n && |r.value.1| == n
  {
    if n == 0 then Some(([], [], s))
    else
      match RecordFrom(w, s)
      case None => None
      case Some(rec) =>
        match RecordsFrom(w, n - 1, rec.2)
        case None => None
        case Some(more) => Some(([rec.0] + more.0, [rec.1] + more.1, more.2))
  }

  /** load: the 8-byte magic (never compared in effect), the u32 version
      (2 or rejected), the u32 capability word, the u32 node count N and N
      records.  noDist(cap) is `sig_cap & FORMAT_NO_DIST`; FORMAT_NO_DIST is
      declared in kgraph.h, which is not part of this model. */
  function DecodeGraph(noDist: nat -> bool, s: seq<Byte>): Loading {
    if |s| < 12 then Truncated
    else if WordValue(s[8..12]) != 2 then VersionNotSupported
    else if |s| < 20 then Truncated
    else
      var w := if noDist(WordValue(s[12..16])) then 4 else NEIGHBOR_SIZE;
      match RecordsFrom(w, WordValue(s[16..20]), s[20..])
      case None => Truncated
      case Some(r) => Loaded(r.0, r.1)
  }

  /** The bytes of a node's neighbour list: each id followed by `pad`
      (the rest of a Neighbor struct, or nothing). */
  function IdsBytes(ids: seq<nat>, pad: seq<Byte>): seq<Byte>
    requires forall i :: 0 <= i < |ids| ==> ids[i] < U32
  {
    if ids == [] then []
    else Le32(ids[0]) + pad + IdsBytes(ids[1..], pad)
  }

  /** A node's M and neighbour list fit the file's u32 fields. */
  predicate RowOk(m: nat, ids: seq<nat>) {
    m < U32 && |ids| < U32 && forall j :: 0 <= j < |ids| ==> ids[j] < U32
  }

  predicate RowsOk(ms: seq<nat>, graph: seq<seq<nat>>) {
    |ms| == |graph| && forall i :: 0 <= i < |ms| ==> RowOk(ms[i], graph[i])
  }

  function RecordsBytes(ms: seq<nat>, graph: seq<seq<nat>>, pad: seq<Byte>): seq<Byte>
    requires RowsOk(ms, graph)
  {
    if ms == [] then []
    else
      Le32(ms[0]) + Le32(|graph[0]|) + IdsBytes(graph[0], pad)
        + RecordsBytes(ms[1..], graph[1..], pad)
  }

  /** A graph file as KGraph::save would write it. */
  function GraphBytes(magic: seq<Byte>, cap: nat, ms: seq<nat>, graph: seq<seq<nat>>, pad: seq<Byte>): seq<Byte>
    requires cap < U32 && |graph| < U32 && RowsOk(ms, graph)
  {
    magic + Le32(2) + Le32(cap) + Le32(|graph|) + RecordsBytes(ms, graph, pad)
  }

  /** The four bytes of a u32 in memory. */
  function Le32(v: nat): (b: seq<Byte>)
    requires v < U32
    ensures |b| == 4 && WordValue(b) == v
  {
    WordRange4();
    WordOfBytes(v, 4);
    LittleEndian(v, 4)
  }

  lemma Le32Then(v: nat, t: seq<Byte>)
    requires v < U32
    ensures var b := Le32(v) + t; b[..4] == Le32(v) && WordValue(b[..4]) == v && b[4..] == t
  {
    var b := Le32(v) + t;
    assert b[..4] == Le32(v);
  }

  /** Decoding k entries from one entry's bytes x followed by more. */
  lemma IdsFromCons(w: nat, k: nat, x: seq<Byte>, rest: seq<Byte>)
    requires 4 <= w && k >= 1 && |x| == w
    ensures IdsFrom(w, k, x + rest) == match IdsFrom(w, k - 1, rest)
      case None => None
      case Some(more) => Some(([WordValue(x[..4])] + more.0, more.1))
  {
    var b := x + rest;
    assert b[..4] == x[..4] && b[w..] == rest;
  }

  lemma {:induction false} IdsRoundTrip(w: nat, ids: seq<nat>, pad: seq<Byte>, t: seq<Byte>)
    requires 4 <= w && |pad| == w - 4 && forall i :: 0 <= i < |ids| ==> ids[i] < U32
    ensures IdsFrom(w, |ids|, IdsBytes(ids, pad) + t) == Some((ids, t))
  {
    if ids == [] {
      assert IdsBytes(ids, pad) + t == t;
    } else {
      var tail := ids[1..];
      IdsRoundTrip(w, tail, pad, t);
      var x := Le32(ids[0]) + pad;
      Assoc(x, IdsBytes(tail, pad), t);
      Le32Then(ids[0], pad);
      IdsFromCons(w, |ids|, x, IdsBytes(tail, pad) + t);
      assert ids == [ids[0]] + tail;
    }
  }

  /** Decoding n records from one record's bytes x followed by more. */
  lemma RecordsFromCons(w: nat, n: nat, x: seq<Byte>, rest: seq<Byte>, m: nat, ids: seq<nat>,
                        ms: seq<nat>, graph: seq<seq<nat>>, t: seq<Byte>)
    requires 4 <= w && n >= 1 && RecordFrom(w, x + rest) == Some((m, ids, rest))
    requires RecordsFrom(w, n - 1, rest) == Some((ms, graph, t))
    ensures RecordsFrom(w, n, x + rest) == Some(([m] + ms, [ids] + graph, t))
  {
  }

  lemma {:induction false} RecordsRoundTrip(w: nat, ms: seq<nat>, graph: seq<seq<nat>>, pad: seq<Byte>, t: seq<Byte>)
    requires 4 <= w && |pad| == w - 4 && RowsOk(ms, graph)
    ensures RecordsFrom(w, |ms|, RecordsBytes(ms, graph, pad) + t) == Some((ms, graph, t))
  {
    if ms == [] {
      assert RecordsBytes(ms, graph, pad) + t == t;
    } else {
      var mt, gt := ms[1..], graph[1..];
      assert RowsOk(mt, gt) by {
        assert forall i :: 0 <= i < |mt| ==> mt[i] == ms[i + 1] && gt[i] == graph[i + 1];
      }
      RecordsRoundTrip(w, mt, gt, pad, t);
      RecordsRoundTripStep(w, ms, graph, mt, gt, pad, t);
    }
  }

  lemma RecordsRoundTripStep(w: nat, ms: seq<nat>, graph: seq<seq<nat>>, mt: seq<nat>, gt: seq<seq<nat>>,
                             pad: seq<Byte>, t: seq<Byte>)
    requires 4 <= w && |pad| == w - 4 && RowsOk(ms, graph) && ms != [] && mt == ms[1..] && gt == graph[1..]
    requires RowsOk(mt, gt) && RecordsFrom(w, |mt|, RecordsBytes(mt, gt, pad) + t) == Some((mt, gt, t))
    ensures RecordsFrom(w, |ms|, RecordsBytes(ms, graph, pad) + t) == Some((ms, graph, t))
  {
    var more := RecordsBytes(mt, gt, pad) + t;
    assert RowOk(ms[0], graph[0]);
    var x := Le32(ms[0]) + Le32(|graph[0]|) + IdsBytes(graph[0], pad);
    assert RecordsBytes(ms, graph, pad) == x + RecordsBytes(mt, gt, pad);
    Assoc(x, RecordsBytes(mt, gt, pad), t);
    RecordRoundTrip(w, ms[0], graph[0], pad, more);
    RecordsFromCons(w, |ms|, x, more, ms[0], graph[0], mt, gt, t);
    assert ms == [ms[0]] + mt && graph == [graph[0]] + gt;
  }

  lemma RecordRoundTrip(w: nat, m: nat, ids: seq<nat>, pad: seq<Byte>, t: seq<Byte>)
    requires 4 <= w && |pad| == w - 4 && RowOk(m, ids)
    ensures RecordFrom(w, Le32(m) + Le32(|ids|) + IdsBytes(ids, pad) + t) == Some((m, ids, t))
  {
    var body := IdsBytes(ids, pad) + t;
    var b := Le32(m) + Le32(|ids|) + IdsBytes(ids, pad) + t;
    assert b == Le32(m) + (Le32(|ids|) + body);
    Le32Then(m, Le32(|ids|) + body);
    Le32Then(|ids|, body);
    assert b[4..8] == (Le32(|ids|) + body)[..4];
    assert b[8..] == body;
    IdsRoundTrip(w, ids, pad, t);
  }

  /** load(save(g)) == g, whatever the magic bytes and whichever of the
      two record layouts the capability word selects. */
  lemma LoadRoundTrip(noDist: nat -> bool, magic: seq<Byte>, cap: nat, ms: seq<nat>, graph: seq<seq<nat>>, t: seq<Byte>)
    requires |magic| == 8 && cap < U32 && |graph| < U32 && RowsOk(ms, graph)
    ensures var pad := if noDist(cap) then [] else [0, 0, 0, 0, 0, 0, 0, 0];
      DecodeGraph(noDist, GraphBytes(magic, cap, ms, graph, pad) + t) == Loaded(ms, graph)
  {
    var pad: seq<Byte> := if noDist(cap) then [] else [0, 0, 0, 0, 0, 0, 0, 0];
    var w := if noDist(cap) then 4 else NEIGHBOR_SIZE;
    var recs := RecordsBytes(ms, graph, pad) + t;
    var s := GraphBytes(magic, cap, ms, graph, pad) + t;
    var v, c, n := Le32(2), Le32(cap), Le32(|graph|);
    assert s == magic + v + c + n + recs;
    HeaderSlices(magic, v, c, n, recs);
    RecordsRoundTrip(w, ms, graph, pad, t);
  }

  lemma Assoc(a: seq<Byte>, b: seq<Byte>, c: seq<Byte>)
    ensures (a + b) + c == a + (b + c)
  {
  }

  lemma HeaderSlices(magic: seq<Byte>, v: seq<Byte>, c: seq<Byte>, n: seq<Byte>, recs: seq<Byte>)
    requires |magic| == 8 && |v| == 4 && |c| == 4 && |n| == 4
    ensures var s := magic + v + c + n + recs;
      s[8..12] == v && s[12..16] == c && s[16..20] == n && s[20..] == recs
  {
  }

  /** The magic bytes are read and never checked in effect: the
      runtime_error for a mismatch is constructed and dropped. */
  lemma LoadIgnoresMagic(noDist: nat -> bool, s: seq<Byte>, magic: seq<Byte>)
    requires |s| >= 8 && |magic| == 8
    ensures DecodeGraph(noDist, magic + s[8..]) == DecodeGraph(noDist, s)
  {
    var s' := magic + s[8..];
    assert |s'| == |s| && s'[8..] == s[8..];
    if |s| >= 12 {
      assert s'[8..12] == s[8..12];
    }
    if |s| >= 20 {
      assert s'[12..16] == s[12..16] && s'[16..20] == s[16..20] && s'[20..] == s[20..];
    }
  }

  function GlueIds(pre: seq<nat>, r: Option<(seq<nat>, seq<Byte>)>): Option<(seq<nat>, seq<Byte>)> {
    match r
    case None => None
    case Some(x) => Some((pre + x.0, x.1))
  }

  function GlueRecords(pm: seq<nat>, pg: seq<seq<nat>>, r: Option<(seq<nat>, seq<seq<nat>>, seq<Byte>)>)
    : Option<(seq<nat>, seq<seq<nat>>, seq<Byte>)>
  {
    match r
    case None => None
    case Some(x) => Some((pm + x.0, pg + x.1, x.2))
  }

  lemma PrefixUpdate<T>(s: seq<T>, i: nat, x: T)
    requires i < |s|
    ensures s[i := x][..i + 1] == s[..i] + [x]
  {
  }

  /** One record read: the prefix grows by the record decoded. */
  lemma GlueRecordsStep(w: nat, left: nat, pm: seq<nat>, pg: seq<seq<nat>>, m: nat, ids: seq<nat>,
                        before: seq<Byte>, after: seq<Byte>, whole: Option<(seq<nat>, seq<seq<nat>>, seq<Byte>)>)
    requires 4 <= w && left >= 1 && RecordFrom(w, before) == Some((m, ids, after))
    requires whole == GlueRecords(pm, pg, RecordsFrom(w, left, before))
    ensures whole == GlueRecords(pm + [m], pg + [ids], RecordsFrom(w, left - 1, after))
  {
    match RecordsFrom(w, left - 1, after)
    case None =>
    case Some(more) =>
      assert pm + ([m] + more.0) == (pm + [m]) + more.0;
      assert pg + ([ids] + more.1) == (pg + [ids]) + more.1;
  }

  /** Storing record i in place: the decoded prefix grows by it. */
  lemma RecordStored(w: nat, left: nat, ms: seq<nat>, g: seq<seq<nat>>, i: nat, m: nat, ids: seq<nat>,
                     before: seq<Byte>, after: seq<Byte>, whole: Option<(seq<nat>, seq<seq<nat>>, seq<Byte>)>)
    requires 4 <= w && left >= 1 && i < |ms| && i < |g| && RecordFrom(w, before) == Some((m, ids, after))
    requires whole == GlueRecords(ms[..i], g[..i], RecordsFrom(w, left, before))
    ensures whole == GlueRecords(ms[i := m][..i + 1], g[i := ids][..i + 1], RecordsFrom(w, left - 1, after))
  {
    GlueRecordsStep(w, left, ms[..i], g[..i], m, ids, before, after, whole);
    PrefixUpdate(ms, i, m);
    PrefixUpdate(g, i, ids);
  }

  /** One entry read: the prefix grows by the id decoded. */
  lemma GlueIdsStep(w: nat, left: nat, pre: seq<nat>, b: seq<Byte>, after: seq<Byte>, whole: Option<(seq<nat>, seq<Byte>)>)
    requires 4 <= w && left >= 1 && |b| == w
    requires whole == GlueIds(pre, IdsFrom(w, left, b + after))
    ensures whole == GlueIds(pre + [WordValue(b[..4])], IdsFrom(w, left - 1, after))
  {
    IdsFromCons(w, left, b, after);
    match IdsFrom(w, left - 1, after)
    case None =>
    case Some(more) =>
      assert pre + ([WordValue(b[..4])] + more.0) == (pre + [WordValue(b[..4])]) + more.0;
  }

  /** The neighbour lists of one record: K entries of w bytes, each read
      in turn (one read of K*w bytes extracts the same bytes). */
  method ReadIds(ins: InStream, w: nat, k: nat) returns (ids: seq<nat>)
    requires ins.Valid() && ins.good && 4 <= w
    modifies ins
    ensures ins.Valid()
    ensures ins.good <==> IdsFrom(w, k, old(ins.Rest())).Some?
    ensures ins.good ==> IdsFrom(w, k, old(ins.Rest())) == Some((ids, ins.Rest()))
  {
    ghost var whole := IdsFrom(w, k, ins.Rest());
    ids := [];
    assert GlueIds([], whole) == whole by {
      if whole.Some? { assert [] + whole.value.0 == whole.value.0; }
    }
    var j := 0;
    while j < k
      invariant 0 <= j <= k && |ids| == j && ins.Valid() && ins.good
      invariant whole == GlueIds(ids, IdsFrom(w, k - j, ins.Rest()))
      decreases k - j
    {
      ghost var before := ins.Rest();
      var b := ins.Read(w);
      if !ins.good {
        return;
      }
      assert before == b + ins.Rest();
      GlueIdsStep(w, k - j, ids, b, ins.Rest(), whole);
      ids := ids + [WordValue(b[..4])];
      j := j + 1;
    }
    assert IdsFrom(w, 0, ins.Rest()) == Some(([], ins.Rest()));
    assert ids + [] == ids;
  }

  /** One node's record: u32 M, u32 K, then the K neighbours. */
  method ReadRecord(ins: InStream, w: nat) returns (m: nat, ids: seq<nat>)
    requires ins.Valid() && ins.good && 4 <= w
    modifies ins
    ensures ins.Valid()
    ensures ins.good <==> RecordFrom(w, old(ins.Rest())).Some?
    ensures ins.good ==> RecordFrom(w, old(ins.Rest())) == Some((m, ids, ins.Rest()))
  {
    ghost var s := ins.Rest();
    var mb := ins.Read(4);
    var kb := ins.Read(4);
    if !ins.good {
      return 0, [];
    }
    assert mb == s[..4] && kb == s[4..8] && ins.Rest() == s[8..];
    m := WordValue(mb);
    ids := ReadIds(ins, w, WordValue(kb));
  }

  // ------------------------------------------------------------ search

  /** The fields of SearchParams that search reads. */
  datatype SearchParams = SearchParams(K: nat, M: nat, P: nat, S: nat, T: nat, init: nat, epsilon: real)

  /** SearchOracle: the number of points, the distance of point i to the
      query, and the oracle's own search for the K nearest within epsilon. */
  datatype Oracle = Oracle(size: nat, dist: nat -> real, scan: (nat, real) -> seq<(nat, real)>)

  predicate Distinct(s: seq<nat>) {
    forall i, j :: 0 <= i < j < |s| ==> s[i] != s[j]
  }

  /** The flags bitset marks exactly the points whose distance has been
      computed, and `scored` lists them. */
  predicate FlagsLog(flags: seq<bool>, scored: seq<nat>) {
    (forall x :: 0 <= x < |scored| ==> scored[x] < |flags| && flags[scored[x]])
    && (forall v :: 0 <= v < |flags| && flags[v] ==> v in scored)
  }

  /** Flags are only ever set. */
  predicate Grows(flags0: seq<bool>, flags: seq<bool>) {
    |flags| == |flags0| && forall v :: 0 <= v < |flags0| && flags0[v] ==> flags[v]
  }

  /** Every entry is a flagged point carrying its oracle distance. */
  predicate Evaluated(s: seq<Neighbor>, flags: seq<bool>, dist: nat -> real) {
    forall i :: 0 <= i < |s| ==> s[i].id < |flags| && flags[s[i].id] && s[i].dist == dist(s[i].id)
  }

  /** Every entry names a node, and m <= M <= that node's neighbour
      count, M fitting its 16-bit field. */
  predicate EntriesOk(graph: seq<seq<nat>>, s: seq<Neighbor>) {
    forall i :: 0 <= i < |s| ==> s[i].id < |graph| && s[i].m <= s[i].M <= |graph[s[i].id]| && s[i].M < 0x1_0000
  }

  /** Number of points not yet flagged. */
  function Unchecked(flags: seq<bool>): (n: nat)
    ensures n <= |flags|
  {
    if flags == [] then 0 else (if flags[0] then 0 else 1) + Unchecked(flags[1..])
  }

  /** Flagging an unflagged point leaves one fewer unchecked. */
  lemma {:induction false} UncheckedMark(flags: seq<bool>, x: nat)
    requires x < |flags| && !flags[x]
    ensures Unchecked(flags[x := true]) + 1 == Unchecked(flags)
  {
    var g := flags[x := true];
    if x == 0 {
      assert g[1..] == flags[1..];
    } else {
      assert g[1..] == flags[1..][x - 1 := true];
      UncheckedMark(flags[1..], x - 1);
    }
  }

  /** What is left to do for one entry: its unchecked neighbours and
      whether it is still flagged. */
  function Pending(e: Neighbor): nat {
    (if e.flag then 1 else 0) + (if e.m <= e.M then e.M - e.m else 0)
  }

  function Work(s: seq<Neighbor>): nat {
    if s == [] then 0 else Pending(s[0]) + Work(s[1..])
  }

  lemma {:induction false} WorkUpdate(s: seq<Neighbor>, k: nat, e: Neighbor)
    requires k < |s|
    ensures Work(s[k := e]) + Pending(s[k]) == Work(s) + Pending(e)
  {
    var t := s[k := e];
    if k == 0 {
      assert t[1..] == s[1..];
    } else {
      assert t[1..] == s[1..][k - 1 := e];
      WorkUpdate(s[1..], k - 1, e);
    }
  }

  lemma EvaluatedGrows(s: seq<Neighbor>, flags0: seq<bool>, flags: seq<bool>, dist: nat -> real)
    requires Evaluated(s, flags0, dist) && Grows(flags0, flags)
    ensures Evaluated(s, flags, dist)
  {
  }

  /** An accepted candidate that is a flagged point with its distance
      keeps every entry one. */
  lemma InsertEvaluated(s: seq<Neighbor>, nn: Neighbor, flags: seq<bool>, dist: nat -> real)
    requires KnnInsert(s, nn).0 <= |s|
    requires Evaluated(s, flags, dist) && Evaluated([nn], flags, dist)
    ensures Evaluated(KnnInsert(s, nn).1, flags, dist)
  {
    var t := KnnInsert(s, nn).1;
    var r := KnnInsert(s, nn).0;
    forall x | 0 <= x < |t|
      ensures t[x] == nn || (x < r && t[x] == s[x]) || (x > r && t[x] == s[x - 1])
    {
    }
  }

  /** Likewise for valid entries of the graph. */
  lemma InsertEntriesOk(graph: seq<seq<nat>>, s: seq<Neighbor>, nn: Neighbor)
    requires KnnInsert(s, nn).0 <= |s|
    requires EntriesOk(graph, s) && EntriesOk(graph, [nn])
    ensures EntriesOk(graph, KnnInsert(s, nn).1)
  {
    var t := KnnInsert(s, nn).1;
    var r := KnnInsert(s, nn).0;
    forall x | 0 <= x < |t|
      ensures t[x] == nn || (x < r && t[x] == s[x]) || (x > r && t[x] == s[x - 1])
    {
    }
  }

  /** One candidate admitted to the k-NN list of capacity cap: it goes
      where UpdateKnnList puts it, the list grows by one while below cap
      and otherwise drops its last entry; a candidate that stays gets its
      search width M and, when it lands before k, the walk resumes there. */
  function Admit(s: seq<Neighbor>, nn: Neighbor, cap: nat, k0: nat, width: nat): (r: (seq<Neighbor>, nat))
    requires KnnInsert(s, nn).0 <= |s|
    ensures |r.0| == (if |s| < cap then |s| + 1 else |s|) && r.1 <= k0
    ensures KnnInsert(s, nn).0 < |r.0| ==> r.0[KnnInsert(s, nn).0] == nn.(M := width)
  {
    var ins := KnnInsert(s, nn);
    var u := if |s| < cap then ins.1 else ins.1[..|s|];
    if ins.0 < |u| then (u[ins.0 := u[ins.0].(M := width)], if ins.0 < k0 then ins.0 else k0)
    else (u, k0)
  }

  /** Admitting a fresh, scored candidate keeps the list sorted and its
      entries valid, and every entry before k has been expanded. */
  lemma Admitted(graph: seq<seq<nat>>, s: seq<Neighbor>, nn: Neighbor, cap: nat, k0: nat, width: nat,
                 flags: seq<bool>, dist: nat -> real)
    requires KnnInsert(s, nn).0 <= |s| && k0 <= |s| <= cap
    requires DistSorted(s) && EntriesOk(graph, s) && Evaluated(s, flags, dist)
    requires nn.id < |graph| && nn.m == 0 && nn.M == 0 && width <= |graph[nn.id]| && width < 0x1_0000
    requires nn.id < |flags| && flags[nn.id] && nn.dist == dist(nn.id)
    requires forall i :: 0 <= i < k0 ==> !s[i].flag
    ensures var a := Admit(s, nn, cap, k0, width);
      DistSorted(a.0) && EntriesOk(graph, a.0) && Evaluated(a.0, flags, dist)
      && a.1 <= |a.0| <= cap && forall i :: 0 <= i < a.1 ==> !a.0[i].flag
  {
    KnnInsertSorted(s, nn);
    AdmitSorted(s, nn, cap, k0, width);
    InsertEntriesOk(graph, s, nn);
    AdmitEntriesOk(graph, s, nn, cap, k0, width);
    InsertEvaluated(s, nn, flags, dist);
    AdmitEvaluated(s, nn, cap, k0, width, flags, dist);
    AdmitExpanded(s, nn, cap, k0, width);
  }

  lemma AdmitSorted(s: seq<Neighbor>, nn: Neighbor, cap: nat, k0: nat, width: nat)
    requires KnnInsert(s, nn).0 <= |s| && DistSorted(KnnInsert(s, nn).1)
    ensures DistSorted(Admit(s, nn, cap, k0, width).0)
  {
    var i, t := KnnInsert(s, nn).0, KnnInsert(s, nn).1;
    var u := if |s| < cap then t else t[..|s|];
    assert DistSorted(u);
    if i < |u| {
      var v := u[i := u[i].(M := width)];
      forall a, b | 0 <= a < b < |v|
        ensures v[a].dist <= v[b].dist
      {
        assert v[a].dist == u[a].dist && v[b].dist == u[b].dist;
      }
      assert Admit(s, nn, cap, k0, width).0 == v;
    }
  }

  lemma AdmitEntriesOk(graph: seq<seq<nat>>, s: seq<Neighbor>, nn: Neighbor, cap: nat, k0: nat, width: nat)
    requires KnnInsert(s, nn).0 <= |s| && EntriesOk(graph, KnnInsert(s, nn).1)
    requires nn.id < |graph| && nn.m == 0 && width <= |graph[nn.id]| && width < 0x1_0000
    ensures EntriesOk(graph, Admit(s, nn, cap, k0, width).0)
  {
    var t := KnnInsert(s, nn).1;
    var u := if |s| < cap then t else t[..|s|];
    assert EntriesOk(graph, u);
  }

  lemma AdmitEvaluated(s: seq<Neighbor>, nn: Neighbor, cap: nat, k0: nat, width: nat, flags: seq<bool>, dist: nat -> real)
    requires KnnInsert(s, nn).0 <= |s| && Evaluated(KnnInsert(s, nn).1, flags, dist)
    ensures Evaluated(Admit(s, nn, cap, k0, width).0, flags, dist)
  {
    var t := KnnInsert(s, nn).1;
    var u := if |s| < cap then t else t[..|s|];
    assert Evaluated(u, flags, dist);
  }

  lemma AdmitExpanded(s: seq<Neighbor>, nn: Neighbor, cap: nat, k0: nat, width: nat)
    requires KnnInsert(s, nn).0 <= |s| && k0 <= |s| && forall i :: 0 <= i < k0 ==> !s[i].flag
    ensures var a := Admit(s, nn, cap, k0, width); forall i :: 0 <= i < a.1 ==> !a.0[i].flag
  {
    var r := KnnInsert(s, nn).0;
    var t := KnnInsert(s, nn).1;
    assert forall i :: 0 <= i < r ==> t[i] == s[i];
  }

  /** Computing one more distance: the point is flagged and logged, and a
      log of distinct points stays distinct. */
  lemma LogAppend(flags: seq<bool>, scored: seq<nat>, id: nat)
    requires FlagsLog(flags, scored) && id < |flags| && !flags[id]
    ensures FlagsLog(flags[id := true], scored + [id]) && Grows(flags, flags[id := true])
    ensures Distinct(scored) ==> Distinct(scored + [id])
  {
    assert id !in scored;
  }

  /** Appending fresh distinct points to a log keeps it distinct. */
  lemma DistinctAppend(flags: seq<bool>, scored: seq<nat>, starts: seq<nat>)
    requires FlagsLog(flags, scored) && Distinct(scored) && Distinct(starts)
    requires forall i :: 0 <= i < |starts| ==> starts[i] < |flags| && !flags[starts[i]]
    ensures Distinct(scored + starts)
  {
    var t := scored + starts;
    forall i, j | 0 <= i < j < |t|
      ensures t[i] != t[j]
    {
      if i < |scored| <= j {
        assert flags[t[i]] && !flags[t[j]];
      }
    }
  }

  // ------------------------------------------- the nearest candidates

  /** Some entry of s is point v. */
  predicate Listed(s: seq<Neighbor>, v: nat) {
    exists i :: 0 <= i < |s| && s[i].id == v
  }

  /** A point at distance d has no place in s: s is full and its last
      entry is no farther than d. */
  predicate Beyond(s: seq<Neighbor>, cap: nat, d: real) {
    |s| == cap && (cap == 0 || s[cap - 1].dist <= d)
  }

  /** s keeps the nearest of the offered points: each of them is in s,
      or s holds cap entries none farther than it. */
  predicate Nearest(s: seq<Neighbor>, offered: seq<nat>, cap: nat, dist: nat -> real) {
    forall v :: v in offered ==> Listed(s, v) || Beyond(s, cap, dist(v))
  }

  /** Every entry carries its point's distance. */
  predicate Measured(s: seq<Neighbor>, dist: nat -> real) {
    forall i :: 0 <= i < |s| ==> s[i].dist == dist(s[i].id)
  }

  predicate DistinctIds(s: seq<Neighbor>) {
    forall i, j :: 0 <= i < j < |s| ==> s[i].id != s[j].id
  }

  /** The same points at the same distances, flags and widths aside. */
  predicate SameKeys(a: seq<Neighbor>, b: seq<Neighbor>) {
    |a| == |b| && forall i :: 0 <= i < |a| ==> a[i].id == b[i].id && a[i].dist == b[i].dist
  }

  function Ids(s: seq<Neighbor>): seq<nat> {
    seq(|s|, i requires 0 <= i < |s| => s[i].id)
  }

  /** UpdateKnnList on a list of capacity cap: a duplicate leaves the list
      as it is; otherwise the candidate is inserted and, in a full list,
      the last entry falls off. */
  function Offer(s: seq<Neighbor>, nn: Neighbor, cap: nat): seq<Neighbor> {
    var ins := KnnInsert(s, nn);
    if ins.0 > |s| then s else if |s| < cap then ins.1 else ins.1[..|s|]
  }

  /** Offering a candidate to a sorted list of measured entries keeps it
      the nearest of everything offered so far, the candidate included. */
  lemma OfferNearest(s: seq<Neighbor>, nn: Neighbor, cap: nat, offered: seq<nat>, dist: nat -> real)
    requires DistSorted(s) && |s| <= cap && Measured(s, dist) && nn.dist == dist(nn.id)
    requires Nearest(s, offered, cap, dist)
    ensures Nearest(Offer(s, nn, cap), offered + [nn.id], cap, dist)
  {
    var ins := KnnInsert(s, nn);
    if ins.0 > |s| {
      DupInHasId(s, InsertPos(s, nn.dist), nn);
      assert Listed(s, nn.id);
    } else {
      KnnInsertSorted(s, nn);
      KnnInsertLayout(s, nn, ins.0, ins.1);
      if |s| < cap {
        OfferGrows(s, nn, ins.0, ins.1, cap, offered, dist);
      } else if cap > 0 {
        OfferFull(s, nn, ins.0, ins.1, cap, offered, dist);
      }
    }
  }

  /** The inserted list, position by position. */
  lemma KnnInsertLayout(s: seq<Neighbor>, nn: Neighbor, i: nat, t: seq<Neighbor>)
    requires (i, t) == KnnInsert(s, nn) && i <= |s|
    ensures |t| == |s| + 1 && t[i] == nn
    ensures forall x :: 0 <= x < i ==> t[x] == s[x]
    ensures forall x :: i < x < |t| ==> t[x] == s[x - 1]
  {
  }

  /** A list below capacity keeps every point: none was beyond it. */
  lemma OfferGrows(s: seq<Neighbor>, nn: Neighbor, i: nat, t: seq<Neighbor>, cap: nat, offered: seq<nat>, dist: nat -> real)
    requires i <= |s| < cap && |t| == |s| + 1
    requires (forall x :: 0 <= x < i ==> t[x] == s[x]) && t[i] == nn && forall x :: i < x < |t| ==> t[x] == s[x - 1]
    requires Nearest(s, offered, cap, dist)
    ensures Nearest(t, offered + [nn.id], cap, dist)
  {
    forall v | v in offered + [nn.id]
      ensures Listed(t, v)
    {
      if v == nn.id {
        assert t[i].id == v;
      } else {
        var j :| 0 <= j < |s| && s[j].id == v;
        if j < i {
          assert t[j] == s[j];
        } else {
          assert t[j + 1] == s[j];
        }
      }
    }
  }

  /** In a full list the entry that falls off, and every point beyond the
      old list, is beyond the new one, whose last entry is no farther. */
  lemma OfferFull(s: seq<Neighbor>, nn: Neighbor, i: nat, t: seq<Neighbor>, cap: nat, offered: seq<nat>, dist: nat -> real)
    requires 0 < cap == |s| && i <= |s| && |t| == |s| + 1
    requires (forall x :: 0 <= x < i ==> t[x] == s[x]) && t[i] == nn && forall x :: i < x < |t| ==> t[x] == s[x - 1]
    requires DistSorted(s) && DistSorted(t) && Measured(s, dist) && nn.dist == dist(nn.id)
    requires (forall j :: 0 <= j < i ==> s[j].dist <= nn.dist) && (forall j :: i <= j < |s| ==> s[j].dist > nn.dist)
    requires Nearest(s, offered, cap, dist)
    ensures Nearest(t[..|s|], offered + [nn.id], cap, dist)
  {
    var u := t[..|s|];
    assert u[cap - 1].dist <= s[cap - 1].dist by {
      if i < cap - 1 {
        assert u[cap - 1] == s[cap - 2];
      } else if i == cap - 1 {
        assert u[cap - 1] == nn;
      } else {
        assert u[cap - 1] == s[cap - 1];
      }
    }
    forall v | v in offered + [nn.id]
      ensures Listed(u, v) || Beyond(u, cap, dist(v))
    {
      if v == nn.id {
        if i < cap {
          assert u[i] == t[i] == nn;
        } else {
          assert s[cap - 1].dist <= nn.dist;
        }
      } else if Listed(s, v) {
        var j :| 0 <= j < |s| && s[j].id == v;
        if j < i {
          assert u[j] == t[j] == s[j];
        } else if j + 1 < cap {
          assert u[j + 1] == t[j + 1] == s[j];
        } else {
          assert s[j].dist == dist(v);
        }
      }
    }
  }

  /** Offering a point not yet in a list of distinct points keeps them
      distinct. */
  lemma OfferDistinct(s: seq<Neighbor>, nn: Neighbor, cap: nat)
    requires DistinctIds(s) && forall j :: 0 <= j < |s| ==> s[j].id != nn.id
    ensures DistinctIds(Offer(s, nn, cap))
  {
    KnnInsertNew(s, nn);
    var i, t := KnnInsert(s, nn).0, KnnInsert(s, nn).1;
    KnnInsertLayout(s, nn, i, t);
    forall a, b | 0 <= a < b < |t|
      ensures t[a].id != t[b].id
    {
      var a' := if a < i then a else a - 1;
      var b' := if b < i then b else b - 1;
      if a != i && b != i {
        assert t[a] == s[a'] && t[b] == s[b'];
      }
    }
  }

  /** Admit is Offer with the search width filled in. */
  lemma AdmitKeys(s: seq<Neighbor>, nn: Neighbor, cap: nat, k0: nat, width: nat)
    requires KnnInsert(s, nn).0 <= |s|
    ensures SameKeys(Offer(s, nn, cap), Admit(s, nn, cap, k0, width).0)
  {
  }

  lemma NearestKeys(a: seq<Neighbor>, b: seq<Neighbor>, offered: seq<nat>, cap: nat, dist: nat -> real)
    requires SameKeys(a, b) && Nearest(a, offered, cap, dist)
    ensures Nearest(b, offered, cap, dist)
    ensures DistinctIds(a) ==> DistinctIds(b)
  {
    forall v | v in offered
      ensures Listed(b, v) || Beyond(b, cap, dist(v))
    {
      if Listed(a, v) {
        var j :| 0 <= j < |a| && a[j].id == v;
        assert b[j].id == v;
      }
    }
  }

  /** Nearest only depends on which points were offered. */
  lemma NearestAmong(s: seq<Neighbor>, offered: seq<nat>, offered': seq<nat>, cap: nat, dist: nat -> real)
    requires Nearest(s, offered, cap, dist) && forall v :: v in offered' ==> v in offered
    ensures Nearest(s, offered', cap, dist)
  {
  }

  /** The points offered before a step and during it are those offered
      since the start. */
  lemma NearestSeen(s: seq<Neighbor>, offered: seq<nat>, scored0: seq<nat>, mid: seq<nat>, scored: seq<nat>,
                    cap: nat, dist: nat -> real)
    requires scored0 <= mid && mid <= scored
    requires Nearest(s, (offered + mid[|scored0|..]) + scored[|mid|..], cap, dist)
    ensures scored0 <= scored && Nearest(s, offered + scored[|scored0|..], cap, dist)
  {
    assert scored[|scored0|..] == mid[|scored0|..] + scored[|mid|..];
    assert (offered + mid[|scored0|..]) + scored[|mid|..] == offered + scored[|scored0|..];
  }

  /** One more point scored, drawn from hood: the list stays the nearest
      of everything offered and scored, and every point scored is in hood. */
  lemma AppendSeen(s: seq<Neighbor>, offered: seq<nat>, scored0: seq<nat>, before: seq<nat>, id: nat,
                   scored: seq<nat>, cap: nat, dist: nat -> real, hood: seq<nat>)
    requires scored0 <= before && scored == before + [id]
    requires Nearest(s, (offered + before[|scored0|..]) + [id], cap, dist)
    requires (forall v :: v in before[|scored0|..] ==> v in hood) && id in hood
    ensures scored0 <= scored && Nearest(s, offered + scored[|scored0|..], cap, dist)
    ensures forall v :: v in scored[|scored0|..] ==> v in hood
  {
    assert scored[|scored0|..] == before[|scored0|..] + [id];
    assert offered + scored[|scored0|..] == (offered + before[|scored0|..]) + [id];
  }

  /** A trial's points: its starts, then those its walk scored. */
  lemma StartsSeen(s: seq<Neighbor>, starts: seq<nat>, scored0: seq<nat>, mid: seq<nat>, scored: seq<nat>,
                   cap: nat, dist: nat -> real)
    requires mid == scored0 + starts && mid <= scored
    requires Nearest(s, starts + scored[|mid|..], cap, dist)
    ensures scored0 <= scored && Nearest(s, scored[|scored0|..], cap, dist)
  {
    assert scored[|scored0|..] == starts + scored[|mid|..];
  }

  /** Cutting a sorted list of capacity cap to its first K entries keeps
      the nearest K. */
  lemma CutNearest(s: seq<Neighbor>, offered: seq<nat>, cap: nat, K: nat, dist: nat -> real)
    requires DistSorted(s) && Measured(s, dist) && |s| <= cap && K <= cap && Nearest(s, offered, cap, dist)
    ensures Nearest(if |s| > K then s[..K] else s, offered, K, dist)
  {
    var u := if |s| > K then s[..K] else s;
    forall v | v in offered
      ensures Listed(u, v) || Beyond(u, K, dist(v))
    {
      if Listed(s, v) {
        var j :| 0 <= j < |s| && s[j].id == v;
        if j < |u| {
          assert u[j].id == v;
        } else if K > 0 {
          assert s[K - 1].dist <= s[j].dist;
        }
      } else if K > 0 {
        assert s[K - 1].dist <= s[|s| - 1].dist;
      }
    }
  }

  /** The points of a list, as a set. */
  function IdSet(s: seq<Neighbor>): set<nat> {
    set i | 0 <= i < |s| :: s[i].id
  }

  /** A list names at most as many points as it has entries, exactly as
      many when they are distinct. */
  lemma {:induction false} IdSetSize(s: seq<Neighbor>)
    ensures |IdSet(s)| <= |s|
    ensures DistinctIds(s) <==> |IdSet(s)| == |s|
  {
    if s != [] {
      var n := |s| - 1;
      var p := s[..n];
      IdSetSize(p);
      IdSetSnoc(s);
      DistinctSnoc(s);
    }
  }

  /** The points of a list are those of all but its last entry, and the
      last entry's. */
  lemma IdSetSnoc(s: seq<Neighbor>)
    requires s != []
    ensures IdSet(s) == IdSet(s[..|s| - 1]) + {s[|s| - 1].id}
  {
    var n := |s| - 1;
    var p := s[..n];
    forall v | v in IdSet(s)
      ensures v in IdSet(p) + {s[n].id}
    {
      var i :| 0 <= i < |s| && s[i].id == v;
      if i < n {
        assert p[i] == s[i];
      }
    }
    forall v | v in IdSet(p)
      ensures v in IdSet(s)
    {
      var i :| 0 <= i < n && p[i].id == v;
      assert s[i] == p[i];
    }
  }

  /** A list has distinct points exactly when all but its last entry do and
      the last entry's point is new. */
  lemma DistinctSnoc(s: seq<Neighbor>)
    requires s != []
    ensures DistinctIds(s) <==> DistinctIds(s[..|s| - 1]) && s[|s| - 1].id !in IdSet(s[..|s| - 1])
  {
    var n := |s| - 1;
    var p := s[..n];
    if s[n].id in IdSet(p) {
      var i :| 0 <= i < n && p[i].id == s[n].id;
      assert s[i].id == s[n].id;
    } else if DistinctIds(p) {
      forall a, b | 0 <= a < b < |s|
        ensures s[a].id != s[b].id
      {
        if b < n {
          assert p[a] == s[a] && p[b] == s[b];
        } else {
          assert p[a] == s[a];
        }
      }
    }
    if DistinctIds(s) {
      forall a, b | 0 <= a < b < n
        ensures p[a].id != p[b].id
      {
        assert p[a] == s[a] && p[b] == s[b];
      }
    }
  }

  lemma SubsetSize(A: set<nat>, B: set<nat>)
    requires A <= B
    ensures |A| <= |B| && (|A| == |B| ==> A == B)
  {
    assert B == A + (B - A);
    assert A * (B - A) == {};
    if |A| == |B| {
      assert |B - A| == 0;
    }
  }

  /** K distinct points all found in a list of at most K entries fill it. */
  lemma Pigeon(a: seq<Neighbor>, b: seq<Neighbor>)
    requires DistinctIds(a) && |b| <= |a| && forall j :: 0 <= j < |a| ==> Listed(b, a[j].id)
    ensures |b| == |a| && forall i :: 0 <= i < |b| ==> Listed(a, b[i].id)
  {
    IdSetSize(a);
    IdSetSize(b);
    assert IdSet(a) <= IdSet(b) by {
      forall v | v in IdSet(a)
        ensures v in IdSet(b)
      {
        var j :| 0 <= j < |a| && a[j].id == v;
        var i :| 0 <= i < |b| && b[i].id == v;
      }
    }
    SubsetSize(IdSet(a), IdSet(b));
    forall i | 0 <= i < |b|
      ensures Listed(a, b[i].id)
    {
      assert b[i].id in IdSet(b);
    }
  }

  /** A reordering of distinct points is distinct. */
  lemma PermDistinct(s: seq<Neighbor>, t: seq<Neighbor>)
    requires multiset(s) == multiset(t) && DistinctIds(s)
    ensures DistinctIds(t)
  {
    IdSetSize(s);
    IdSetSize(t);
    assert IdSet(s) <= IdSet(t) by {
      forall v | v in IdSet(s)
        ensures v in IdSet(t)
      {
        var j :| 0 <= j < |s| && s[j].id == v;
        assert s[j] in multiset(t);
        var i :| 0 <= i < |t| && t[i] == s[j];
      }
    }
    SubsetSize(IdSet(s), IdSet(t));
    assert |s| == |multiset(s)| == |multiset(t)| == |t|;
  }

  /** After the merge every entry of a trial's list is in the results or
      has no place there; if that list held distinct points and was the
      nearest K of its trial, the results are the nearest K of that trial
      as well. */
  lemma MergeCover(results: seq<Neighbor>, knn: seq<Neighbor>, offered: seq<nat>, K: nat, dist: nat -> real)
    requires DistSorted(results) && |results| <= K && Measured(results, dist)
    requires DistSorted(knn) && |knn| <= K && Measured(knn, dist) && DistinctIds(knn)
    requires Nearest(results, Ids(knn), K, dist) && Nearest(knn, offered, K, dist)
    ensures Nearest(results, offered, K, dist)
  {
    forall v | v in offered
      ensures Listed(results, v) || Beyond(results, K, dist(v))
    {
      if Listed(knn, v) {
        var j :| 0 <= j < |knn| && knn[j].id == v;
        assert Ids(knn)[j] == v;
      } else if K > 0 {
        var j := SomeBeyond(results, knn, K, dist);
        assert knn[j].dist <= knn[K - 1].dist;
      }
    }
  }

  /** When a full trial list was merged, one of its entries has no place
      in the results: either one fell off, or its K points fill them. */
  lemma SomeBeyond(results: seq<Neighbor>, knn: seq<Neighbor>, K: nat, dist: nat -> real) returns (j: nat)
    requires 0 < K == |knn| && |results| <= K && Measured(results, dist) && Measured(knn, dist) && DistinctIds(knn)
    requires Nearest(results, Ids(knn), K, dist)
    ensures j < |knn| && Beyond(results, K, dist(knn[j].id))
  {
    if forall i :: 0 <= i < |knn| ==> Listed(results, knn[i].id) {
      Pigeon(knn, results);
      j :| 0 <= j < |knn| && knn[j].id == results[K - 1].id;
    } else {
      j :| 0 <= j < |knn| && !Listed(results, knn[j].id);
      assert Ids(knn)[j] == knn[j].id;
    }
  }

  /** Merging a trial's list into the results: each entry is offered to
      the results, which grow up to K entries. */
  method Merge(results0: seq<Neighbor>, knn: seq<Neighbor>, K: nat, ghost flags: seq<bool>, ghost dist: nat -> real,
               ghost offered: seq<nat>, ghost offered': seq<nat>)
    returns (results: seq<Neighbor>)
    requires DistSorted(results0) && |results0| <= K && Evaluated(results0, flags, dist) && Evaluated(knn, flags, dist)
    requires Nearest(results0, offered, K, dist)
    ensures DistSorted(results) && |results| <= K && Evaluated(results, flags, dist)
    ensures Nearest(results, offered + Ids(knn), K, dist)
    ensures DistSorted(knn) && |knn| <= K && DistinctIds(knn) && Nearest(knn, offered', K, dist) ==>
      Nearest(results, offered + offered', K, dist)
  {
    results := results0;
    for l := 0 to |knn|
      invariant DistSorted(results) && |results| <= K && Evaluated(results, flags, dist)
      invariant Nearest(results, offered + Ids(knn[..l]), K, dist)
    {
      var ins := KnnInsert(results, knn[l]);
      ghost var before := results;
      OfferNearest(results, knn[l], K, offered + Ids(knn[..l]), dist);
      if ins.0 <= |results| {
        KnnInsertSorted(results, knn[l]);
        InsertEvaluated(results, knn[l], flags, dist);
        results := if |results| + 1 < K + 1 then ins.1 else ins.1[..|results|];
      }
      assert results == Offer(before, knn[l], K);
      assert Ids(knn[..l + 1]) == Ids(knn[..l]) + [knn[l].id];
    }
    assert knn[..|knn|] == knn;
    if DistSorted(knn) && |knn| <= K && DistinctIds(knn) && Nearest(knn, offered', K, dist) {
      MergeCover(results, knn, offered', K, dist);
    }
  }

  /** The point v is among the reported (id, distance) pairs. */
  predicate Reported(r: seq<(nat, real)>, v: nat) {
    exists i :: 0 <= i < |r| && r[i].0 == v
  }

  /** Every point whose distance was computed is reported, is farther than
      epsilon, or is no nearer than the K-th reported point. */
  predicate NearestReported(r: seq<(nat, real)>, scored: seq<nat>, K: nat, eps: real, dist: nat -> real) {
    forall v :: v in scored ==> Reported(r, v) || dist(v) > eps || (|r| == K && (K == 0 || r[K - 1].1 <= dist(v)))
  }

  /** The epsilon cut of the nearest K, reported as pairs. */
  lemma EpsilonNearest(results: seq<Neighbor>, kept: seq<Neighbor>, eps: real, scored: seq<nat>, K: nat,
                       dist: nat -> real, r: seq<(nat, real)>)
    requires DistSorted(results) && Measured(results, dist) && |results| <= K && Nearest(results, scored, K, dist)
    requires |kept| <= |results| && kept == results[..|kept|]
    requires (forall i :: 0 <= i < |kept| ==> kept[i].dist <= eps) && (|kept| < |results| ==> results[|kept|].dist > eps)
    requires |r| == |kept| && forall i :: 0 <= i < |kept| ==> r[i] == (kept[i].id, kept[i].dist)
    ensures NearestReported(r, scored, K, eps, dist)
  {
    forall v | v in scored
      ensures Reported(r, v) || dist(v) > eps || (|r| == K && (K == 0 || r[K - 1].1 <= dist(v)))
    {
      if Listed(results, v) {
        var j :| 0 <= j < |results| && results[j].id == v;
        if j < |kept| {
          assert r[j].0 == v;
        } else {
          assert results[|kept|].dist <= results[j].dist;
        }
      } else if K > 0 && |kept| < K {
        assert results[|kept|].dist <= results[K - 1].dist;
      }
    }
  }

  /** The epsilon check: the results are cut before the first entry
      farther than epsilon. */
  method EpsilonCut(s: seq<Neighbor>, eps: real) returns (t: seq<Neighbor>)
    ensures |t| <= |s| && t == s[..|t|]
    ensures forall i :: 0 <= i < |t| ==> t[i].dist <= eps
    ensures |t| < |s| ==> s[|t|].dist > eps
  {
    t := s;
    for l := 0 to |s|
      invariant t == s && forall i :: 0 <= i < l ==> s[i].dist <= eps
    {
      if s[l].dist > eps {
        return s[..l];
      }
    }
  }

  /** KGraphLite: the neighbour lists of a k-NN graph and each node's
      recommended search width M. */
  class KGraphLite {
    var M: seq<nat>
    var graph: seq<seq<nat>>

    constructor ()
      ensures M == [] && graph == []
    {
      M, graph := [], [];
    }

    /** Every node has an M and every neighbour id names a node. */
    predicate GraphOk()
      reads this
    {
      |M| == |graph| && forall i, j :: 0 <= i < |graph| && 0 <= j < |graph[i]| ==> graph[i][j] < |graph|
    }

    /** actual_M(pM, i): the search width of node i, at least pM and M[i]
        but never more than its neighbours. */
    function ActualM(pM: nat, i: nat): (r: nat)
      reads this
      requires i < |graph| && i < |M|
      ensures r <= |graph[i]| && (r <= M[i] || r <= pM)
      ensures r == |graph[i]| || (r >= M[i] && r >= pM)
    {
      var top := if M[i] >= pM then M[i] else pM;
      if top <= |graph[i]| then top else |graph[i]|
    }

    /** load(path) on a stream over the file.  Reads past the end are
        reported as Truncated. */
    method Load(ins: InStream, noDist: nat -> bool) returns (st: Loading)
      requires ins.Valid()
      modifies this, ins
      ensures ins.Valid()
      ensures !old(ins.good) ==> st == OpenFailed
      ensures old(ins.good) ==> st == DecodeGraph(noDist, old(ins.Rest()))
      ensures st.Loaded? ==> M == st.M && graph == st.graph
      ensures st.OpenFailed? || st.VersionNotSupported? ==> M == old(M) && graph == old(graph)
    {
      if !ins.good {
        return OpenFailed;
      }
      ghost var s := ins.Rest();
      var magic := ins.Read(8);
      var v := ins.Read(4);
      var c := ins.Read(4);
      if |v| < 4 {
        return Truncated;
      }
      assert |s| >= 12 && v == s[8..12];
      if WordValue(v) != 2 {
        return VersionNotSupported;
      }
      var nb := ins.Read(4);
      if !ins.good {
        return Truncated;
      }
      assert c == s[12..16] && nb == s[16..20] && ins.Rest() == s[20..];
      var n := WordValue(nb);
      var w := if noDist(WordValue(c)) then 4 else NEIGHBOR_SIZE;
      M := seq(n, _ => 0);
      graph := seq(n, _ => []);
      st := ReadRecords(ins, w, n);
    }

    /** The record loop of load. */
    method ReadRecords(ins: InStream, w: nat, n: nat) returns (st: Loading)
      requires ins.Valid() && ins.good && 4 <= w && |M| == n && |graph| == n
      modifies this, ins
      ensures ins.Valid()
      ensures st == match RecordsFrom(w, n, old(ins.Rest())) case None => Truncated case Some(r) => Loaded(r.0, r.1)
      ensures st.Loaded? ==> M == st.M && graph == st.graph
    {
      ghost var whole := RecordsFrom(w, n, ins.Rest());
      assert GlueRecords([], [], whole) == whole by {
        if whole.Some? { assert [] + whole.value.0 == whole.value.0 && [] + whole.value.1 == whole.value.1; }
      }
      var i := 0;
      while i < n
        invariant 0 <= i <= n && |M| == n && |graph| == n && ins.Valid() && ins.good
        invariant whole == GlueRecords(M[..i], graph[..i], RecordsFrom(w, n - i, ins.Rest()))
        decreases n - i
      {
        ghost var before := ins.Rest();
        var m, ids := ReadRecord(ins, w);
        if !ins.good {
          return Truncated;
        }
        RecordStored(w, n - i, M, graph, i, m, ids, before, ins.Rest(), whole);
        M := M[i := m];
        graph := graph[i := ids];
        i := i + 1;
      }
      assert M[..n] == M && graph[..n] == graph;
      assert M + [] == M && graph + [] == graph;
      st := Loaded(M, graph);
    }

    /** The candidate list: sorted by distance, every entry a flagged
        point with its distance and a valid m <= M. */
    predicate ListOk(s: seq<Neighbor>, flags: seq<bool>, dist: nat -> real)
      reads this
    {
      DistSorted(s) && EntriesOk(graph, s) && Evaluated(s, flags, dist)
    }

    /** The graph search proper runs: the oracle covers the graph and P
        is below its size. */
    predicate Walked(oracle: Oracle, p: SearchParams)
      reads this
    {
      |graph| <= oracle.size && p.P < |graph|
    }

    /** search(oracle, params, ids, dists, info).  rng(t) is the t-th output
        of the mt19937 seeded from params.seed; Ok carries the (id, dist)
        pairs written to ids and dists, and `scored` lists the points whose
        distance was computed, in order. */
    method Search(oracle: Oracle, p: SearchParams, ids: Option<seq<nat>>, rng: nat -> nat)
      returns (r: Result<seq<(nat, real)>>, scored: seq<nat>)
      requires GraphOk() && |graph| <= U32
      requires 0 < p.S <= 0xFFFF_0000
      requires p.init > 0 && ids.Some? ==> |ids.value| >= p.init && forall i :: 0 <= i < p.init ==> ids.value[i] < |graph|
      ensures |graph| > oracle.size ==> r == Err(RuntimeError("dataset larger than index")) && scored == []
      ensures |graph| <= oracle.size && p.P >= |graph| ==> r == Ok(oracle.scan(p.K, p.epsilon)) && scored == []
      ensures Walked(oracle, p) && p.init > 0 && p.T > 1 ==> r == Err(RuntimeError("when init > 0, T must be 1."))
      ensures Walked(oracle, p) && p.T == 0 ==> r == Err(Abort)
      ensures Walked(oracle, p) && p.init > 0 && p.T == 1 && ids.None? ==> r == Err(InvalidArgument("no initial data provided via ids"))
      ensures Walked(oracle, p) && p.init > 0 && p.T == 1 && ids.Some? && p.init >= p.K ==> r == Err(InvalidArgument("L < params.K"))
      ensures Walked(oracle, p) ==> (r.Ok? <==> p.T > 0 && (p.init > 0 ==> p.T == 1 && ids.Some? && p.init < p.K))
      ensures Walked(oracle, p) && r.Ok? ==> |r.value| <= p.K
      ensures Walked(oracle, p) && r.Ok? ==> forall i, j :: 0 <= i < j < |r.value| ==> r.value[i].1 <= r.value[j].1
      ensures Walked(oracle, p) && r.Ok? ==> forall i :: 0 <= i < |r.value| ==>
        r.value[i].1 <= p.epsilon && r.value[i].0 < |graph| && r.value[i].0 in scored && r.value[i].1 == oracle.dist(r.value[i].0)
      ensures Walked(oracle, p) && r.Ok? && (p.T == 1 || |graph| <= U32 / 2) ==>
        NearestReported(r.value, scored, p.K, p.epsilon, oracle.dist)
      ensures forall i :: 0 <= i < |scored| ==> scored[i] < |graph|
      ensures (p.init == 0 && |graph| <= U32 / 2) || (p.init > 0 && ids.Some? && |ids.value| >= p.init && Distinct(ids.value[..p.init]))
        ==> Distinct(scored)
    {
      scored := [];
      if |graph| > oracle.size {
        return Err(RuntimeError("dataset larger than index")), scored;
      }
      if p.P >= |graph| {
        return Ok(oracle.scan(p.K, p.epsilon)), scored;
      }
      if p.init > 0 && p.T > 1 {
        return Err(RuntimeError("when init > 0, T must be 1.")), scored;
      }
      if p.T == 0 {
        // no trial ran: results.pop_back() on an empty vector
        return Err(Abort), scored;
      }
      if p.init > 0 && ids.None? {
        return Err(InvalidArgument("no initial data provided via ids")), scored;
      }
      if p.init > 0 && !(p.init < p.K) {
        return Err(InvalidArgument("L < params.K")), scored;
      }
      var results, flags;
      results, flags, scored := Trials(oracle.dist, p, ids, rng);
      assert |results| <= p.K;
      var kept := EpsilonCut(results, p.epsilon);
      r := Ok(seq(|kept|, i requires 0 <= i < |kept| => (kept[i].id, kept[i].dist)));
      if p.T == 1 || |graph| <= U32 / 2 {
        EpsilonNearest(results, kept, p.epsilon, scored, p.K, oracle.dist, r.value);
      }
    }

    /** The trial loop: a fresh walk per trial from its start points,
        merged into the results. */
    method Trials(dist: nat -> real, p: SearchParams, ids: Option<seq<nat>>, rng: nat -> nat)
      returns (results: seq<Neighbor>, flags: seq<bool>, scored: seq<nat>)
      requires GraphOk() && |graph| <= U32 && p.P < |graph|
      requires 0 < p.S <= 0xFFFF_0000 && p.T > 0
      requires p.init > 0 ==> (p.T == 1 && ids.Some? && p.init < p.K && |ids.value| >= p.init
                               && forall i :: 0 <= i < p.init ==> ids.value[i] < |graph|)
      ensures |flags| == |graph| && FlagsLog(flags, scored)
      ensures DistSorted(results) && |results| <= p.K && Evaluated(results, flags, dist)
      ensures p.T == 1 || |graph| <= U32 / 2 ==> Nearest(results, scored, p.K, dist)
      ensures (p.init == 0 && |graph| <= U32 / 2) || (p.init > 0 && Distinct(ids.value[..p.init])) ==> Distinct(scored)
    {
      flags := seq(|graph|, _ => false);
      scored := [];
      results := [];
      var base: nat := 0;
      var trial := 0;
      while trial < p.T
        invariant trial <= p.T && |flags| == |graph| && FlagsLog(flags, scored)
        invariant DistSorted(results) && |results| <= p.K && Evaluated(results, flags, dist)
        invariant (p.init == 0 && |graph| <= U32 / 2) || (p.init > 0 && Distinct(ids.value[..p.init])) ==> Distinct(scored)
        invariant trial == 0 ==> flags == seq(|graph|, _ => false) && scored == []
        invariant trial > 0 && (p.T == 1 || |graph| <= U32 / 2) ==> Nearest(results, scored, p.K, dist)
      {
        var starts;
        if p.init == 0 {
          var b := base;
          starts := RandomStarts((t: nat) => rng(b + t), p.P, flags);
          base := base + p.P + 1;
        } else {
          starts := ids.value[..p.init];
          assert trial == 0;
        }
        ghost var flags0, before := flags, scored;
        var knn;
        knn, flags, scored := Trial(dist, p, starts, flags, scored);
        EvaluatedGrows(results, flags0, flags, dist);
        if trial == 0 {
          // results.empty(): the first trial's list is copied
          results := knn;
          assert scored[|before|..] == scored;
        } else {
          ghost var merged := if p.T == 1 || |graph| <= U32 / 2 then before else [];
          results := Merge(results, knn, p.K, flags, dist, merged, scored[|before|..]);
          assert before + scored[|before|..] == scored;
        }
        trial := trial + 1;
      }
    }

    /** One trial: the start points are scored and sorted, the graph is
        walked and the list is cut to K. */
    method Trial(dist: nat -> real, p: SearchParams, starts: seq<nat>, flags0: seq<bool>, scored0: seq<nat>)
      returns (knn: seq<Neighbor>, flags: seq<bool>, scored: seq<nat>)
      requires GraphOk() && 0 < p.S <= 0xFFFF_0000 && |starts| <= p.K + p.P
      requires forall i :: 0 <= i < |starts| ==> starts[i] < |graph|
      requires |flags0| == |graph| && FlagsLog(flags0, scored0)
      ensures |flags| == |graph| && FlagsLog(flags, scored) && Grows(flags0, flags)
      ensures ListOk(knn, flags, dist) && |knn| <= p.K
      ensures scored0 <= scored && Nearest(knn, scored[|scored0|..], p.K, dist)
      ensures Distinct(starts) ==> DistinctIds(knn)
      ensures Distinct(scored0) && Distinct(starts) && (forall i :: 0 <= i < |starts| ==> !flags0[starts[i]])
        ==> Distinct(scored)
    {
      knn, flags, scored := ScoreStarts(dist, p.M, starts, flags0, scored0);
      if Distinct(scored0) && Distinct(starts) && (forall i :: 0 <= i < |starts| ==> !flags0[starts[i]]) {
        DistinctAppend(flags0, scored0, starts);
      }
      var sorted := SortBy((e: Neighbor) => e.dist, knn);
      SortedStarts(knn, sorted, starts, flags, p.K + p.P, dist);
      ghost var scoredS := scored;
      knn, flags, scored := Walk(dist, p, p.K + p.P, sorted, flags, scored, starts);
      StartsSeen(knn, starts, scored0, scoredS, scored, p.K + p.P, dist);
      CutList(knn, scored[|scored0|..], p.K + p.P, p.K, flags, dist);
      if |knn| > p.K {
        knn := knn[..p.K];
      }
    }

    /** Cutting a valid, nearest list to K keeps it valid and the nearest
        K, and keeps its points distinct. */
    lemma CutList(s: seq<Neighbor>, offered: seq<nat>, cap: nat, K: nat, flags: seq<bool>, dist: nat -> real)
      requires ListOk(s, flags, dist) && |s| <= cap && K <= cap && Nearest(s, offered, cap, dist)
      ensures var u := if |s| > K then s[..K] else s;
        ListOk(u, flags, dist) && |u| <= K && Nearest(u, offered, K, dist) && (DistinctIds(s) ==> DistinctIds(u))
    {
      assert Measured(s, dist);
      CutNearest(s, offered, cap, K, dist);
    }

    /** The sorted start list is valid, holds every start, and holds
        distinct points when the starts are distinct. */
    lemma SortedStarts(knn: seq<Neighbor>, sorted: seq<Neighbor>, starts: seq<nat>, flags: seq<bool>, cap: nat,
                       dist: nat -> real)
      requires sorted == SortBy((e: Neighbor) => e.dist, knn)
      requires EntriesOk(graph, knn) && Evaluated(knn, flags, dist) && |knn| == |starts|
      requires forall i :: 0 <= i < |knn| ==> knn[i].id == starts[i]
      ensures ListOk(sorted, flags, dist) && |sorted| == |starts| && Nearest(sorted, starts, cap, dist)
      ensures Distinct(starts) ==> DistinctIds(sorted)
    {
      SortedList(knn, sorted, flags, dist);
      StartsListed(knn, sorted, starts, cap, dist);
      if Distinct(starts) {
        PermDistinct(knn, sorted);
      }
    }

    /** Every start is in the sorted start list. */
    lemma StartsListed(knn: seq<Neighbor>, sorted: seq<Neighbor>, starts: seq<nat>, cap: nat, dist: nat -> real)
      requires multiset(knn) == multiset(sorted) && |knn| == |starts|
      requires forall i :: 0 <= i < |knn| ==> knn[i].id == starts[i]
      ensures Nearest(sorted, starts, cap, dist)
      ensures Distinct(starts) ==> DistinctIds(knn)
    {
      forall v | v in starts
        ensures Listed(sorted, v)
      {
        var i :| 0 <= i < |starts| && starts[i] == v;
        assert knn[i] in multiset(sorted);
        var j :| 0 <= j < |sorted| && sorted[j] == knn[i];
      }
    }

    /** The sorted start list keeps the entries' facts. */
    lemma SortedList(s: seq<Neighbor>, t: seq<Neighbor>, flags: seq<bool>, dist: nat -> real)
      requires t == SortBy((e: Neighbor) => e.dist, s)
      requires EntriesOk(graph, s) && Evaluated(s, flags, dist)
      ensures ListOk(t, flags, dist)
    {
      SortBySorted((e: Neighbor) => e.dist, s);
      forall i | 0 <= i < |t|
        ensures t[i] in s
      {
        SortByFrom((e: Neighbor) => e.dist, s, i);
      }
    }

    /** The first loop of a trial: flag each start, compute its distance
        and its M. */
    method ScoreStarts(dist: nat -> real, pM: nat, starts: seq<nat>, flags0: seq<bool>, scored0: seq<nat>)
      returns (knn: seq<Neighbor>, flags: seq<bool>, scored: seq<nat>)
      requires GraphOk() && forall i :: 0 <= i < |starts| ==> starts[i] < |graph|
      requires |flags0| == |graph| && FlagsLog(flags0, scored0)
      ensures |flags| == |graph| && FlagsLog(flags, scored) && Grows(flags0, flags) && scored == scored0 + starts
      ensures |knn| == |starts| && EntriesOk(graph, knn) && Evaluated(knn, flags, dist)
      ensures forall i :: 0 <= i < |knn| ==> knn[i].id == starts[i] && knn[i].flag && knn[i].m == 0
    {
      knn, flags, scored := [], flags0, scored0;
      for i := 0 to |starts|
        invariant |flags| == |graph| && FlagsLog(flags, scored) && Grows(flags0, flags) && scored == scored0 + starts[..i]
        invariant |knn| == i && EntriesOk(graph, knn) && Evaluated(knn, flags, dist)
        invariant forall j :: 0 <= j < i ==> knn[j].id == starts[j] && knn[j].flag && knn[j].m == 0
      {
        var id := starts[i];
        flags := flags[id := true];
        scored := scored + [id];
        assert starts[..i + 1] == starts[..i] + [id];
        knn := knn + [Neighbor(id, dist(id), true, 0, ActualM(pM, id) % 0x1_0000)];
      }
      assert starts[..|starts|] == starts;
    }

    /** The random start points of a trial: GenRandom's P draws, keeping
        those not flagged by an earlier trial. */
    method RandomStarts(rng: nat -> nat, P: nat, flags: seq<bool>) returns (starts: seq<nat>)
      requires P < |graph| <= U32 && |flags| == |graph|
      ensures |starts| <= P
      ensures forall i :: 0 <= i < |starts| ==> starts[i] < |graph| && !flags[starts[i]]
      ensures |graph| <= U32 / 2 ==> Distinct(starts)
    {
      var random := new nat[P];
      GenRandom(rng, random, P, |graph|);
      starts := [];
      for i := 0 to P
        invariant |starts| <= i
        invariant forall j :: 0 <= j < |starts| ==> starts[j] < |graph| && !flags[starts[j]] && starts[j] in random[..i]
        invariant |graph| <= U32 / 2 ==> Distinct(starts)
      {
        var s := random[i];
        if !flags[s] {
          assert |graph| <= U32 / 2 ==> s !in random[..i];
          starts := starts + [s];
        }
      }
    }

    /** The walk of a trial: the first entry still flagged has its next S
        neighbours checked, until none is flagged. */
    method Walk(dist: nat -> real, p: SearchParams, cap: nat, knn0: seq<Neighbor>, flags0: seq<bool>, scored0: seq<nat>,
                ghost offered: seq<nat>)
      returns (knn: seq<Neighbor>, flags: seq<bool>, scored: seq<nat>)
      requires GraphOk() && 0 < p.S <= 0xFFFF_0000 && |knn0| <= cap
      requires |flags0| == |graph| && FlagsLog(flags0, scored0) && ListOk(knn0, flags0, dist)
      requires Nearest(knn0, offered, cap, dist)
      ensures |flags| == |graph| && FlagsLog(flags, scored) && Grows(flags0, flags)
      ensures ListOk(knn, flags, dist) && |knn| <= cap
      ensures scored0 <= scored && Nearest(knn, offered + scored[|scored0|..], cap, dist)
      ensures DistinctIds(knn0) ==> DistinctIds(knn)
      ensures Distinct(scored0) ==> Distinct(scored)
      ensures forall i :: 0 <= i < |knn| ==> !knn[i].flag
    {
      knn, flags, scored := knn0, flags0, scored0;
      var k: nat := 0;
      while k < |knn|
        invariant k <= |knn| <= cap
        invariant |flags| == |graph| && FlagsLog(flags, scored) && Grows(flags0, flags)
        invariant ListOk(knn, flags, dist)
        invariant scored0 <= scored && Nearest(knn, offered + scored[|scored0|..], cap, dist)
        invariant DistinctIds(knn0) ==> DistinctIds(knn)
        invariant Distinct(scored0) ==> Distinct(scored)
        invariant forall i :: 0 <= i < k ==> !knn[i].flag
        decreases Unchecked(flags), Work(knn), |knn| - k
      {
        var e := knn[k];
        if !e.flag {
          k := k + 1;
        } else {
          var beginM := e.m;
          var endM := beginM + p.S;
          var more := true;
          if endM > e.M {
            // all neighbours of this node checked
            more := false;
            endM := e.M;
          }
          ghost var w0 := Work(knn);
          var e' := e.(flag := more, m := endM);
          ghost var seen := offered + scored[|scored0|..];
          MarkEntry(knn, k, e', flags, seen, cap, dist);
          knn := knn[k := e'];
          assert Work(knn) < w0;
          ghost var before := scored;
          knn, k, flags, scored := Expand(dist, p.M, cap, knn, k, e.id, beginM, endM, flags, scored, seen);
          NearestSeen(knn, offered, scored0, before, scored, cap, dist);
        }
      }
    }

    /** Moving an entry's check mark forward, or clearing its flag, keeps
        the list valid and nearest and lowers the work left. */
    lemma MarkEntry(knn: seq<Neighbor>, k: nat, e': Neighbor, flags: seq<bool>, seen: seq<nat>, cap: nat,
                    dist: nat -> real)
      requires ListOk(knn, flags, dist) && k < |knn| && knn[k].flag
      requires e'.id == knn[k].id && e'.dist == knn[k].dist && e'.M == knn[k].M
      requires knn[k].m <= e'.m <= e'.M && (e'.flag ==> knn[k].m < e'.m)
      requires Nearest(knn, seen, cap, dist)
      ensures ListOk(knn[k := e'], flags, dist) && Nearest(knn[k := e'], seen, cap, dist)
      ensures DistinctIds(knn) ==> DistinctIds(knn[k := e'])
      ensures Work(knn[k := e']) < Work(knn)
    {
      WorkUpdate(knn, k, e');
      NearestKeys(knn, knn[k := e'], seen, cap, dist);
    }

    /** Checking neighbours [beginM, endM) of node `node`. */
    method Expand(dist: nat -> real, pM: nat, cap: nat, knn0: seq<Neighbor>, k0: nat, node: nat,
                  beginM: nat, endM: nat, flags0: seq<bool>, scored0: seq<nat>, ghost offered: seq<nat>)
      returns (knn: seq<Neighbor>, k: nat, flags: seq<bool>, scored: seq<nat>)
      requires GraphOk() && node < |graph| && beginM <= endM <= |graph[node]|
      requires |flags0| == |graph| && FlagsLog(flags0, scored0) && ListOk(knn0, flags0, dist)
      requires k0 <= |knn0| <= cap
      requires forall i :: 0 <= i < k0 ==> !knn0[i].flag
      requires Nearest(knn0, offered, cap, dist)
      ensures |flags| == |graph| && FlagsLog(flags, scored) && Grows(flags0, flags)
      ensures ListOk(knn, flags, dist) && k <= k0 && k <= |knn| <= cap
      ensures forall i :: 0 <= i < k ==> !knn[i].flag
      ensures scored0 <= scored && Nearest(knn, offered + scored[|scored0|..], cap, dist)
      ensures forall v :: v in scored[|scored0|..] ==> v in graph[node]
      ensures DistinctIds(knn0) ==> DistinctIds(knn)
      ensures Distinct(scored0) ==> Distinct(scored)
      ensures Unchecked(flags) < Unchecked(flags0) || (flags == flags0 && knn == knn0 && k == k0 && scored == scored0)
    {
      knn, k, flags, scored := knn0, k0, flags0, scored0;
      var mm := beginM;
      while mm < endM
        invariant beginM <= mm <= endM
        invariant |flags| == |graph| && FlagsLog(flags, scored) && Grows(flags0, flags)
        invariant ListOk(knn, flags, dist) && k <= k0 && k <= |knn| <= cap
        invariant forall i :: 0 <= i < k ==> !knn[i].flag
        invariant scored0 <= scored && Nearest(knn, offered + scored[|scored0|..], cap, dist)
        invariant forall v :: v in scored[|scored0|..] ==> v in graph[node]
        invariant DistinctIds(knn0) ==> DistinctIds(knn)
        invariant Distinct(scored0) ==> Distinct(scored)
        invariant Unchecked(flags) < Unchecked(flags0) || (flags == flags0 && knn == knn0 && k == k0 && scored == scored0)
      {
        var id := graph[node][mm];
        if !flags[id] {
          UncheckedMark(flags, id);
          ghost var before := scored;
          knn, k, flags, scored := Visit(dist, pM, cap, knn, k, id, flags, scored, offered + before[|scored0|..]);
          AppendSeen(knn, offered, scored0, before, id, scored, cap, dist, graph[node]);
        }
        mm := mm + 1;
      }
    }

    /** One unchecked neighbour: flag it, compute its distance and offer it
        to the list; k moves back to it when it lands before k. */
    method Visit(dist: nat -> real, pM: nat, cap: nat, knn0: seq<Neighbor>, k0: nat, id: nat,
                 flags0: seq<bool>, scored0: seq<nat>, ghost offered: seq<nat>)
      returns (knn: seq<Neighbor>, k: nat, flags: seq<bool>, scored: seq<nat>)
      requires GraphOk() && id < |graph| && |flags0| == |graph| && !flags0[id]
      requires FlagsLog(flags0, scored0) && ListOk(knn0, flags0, dist)
      requires k0 <= |knn0| <= cap
      requires forall i :: 0 <= i < k0 ==> !knn0[i].flag
      requires Nearest(knn0, offered, cap, dist)
      ensures flags == flags0[id := true] && scored == scored0 + [id]
      ensures FlagsLog(flags, scored) && Grows(flags0, flags)
      ensures KnnInsert(knn0, Neighbor(id, dist(id), true, 0, 0)).0 <= |knn0|
      ensures (knn, k) == Admit(knn0, Neighbor(id, dist(id), true, 0, 0), cap, k0, ActualM(pM, id) % 0x1_0000)
      ensures ListOk(knn, flags, dist) && k <= k0 && k <= |knn| <= cap
      ensures forall i :: 0 <= i < k ==> !knn[i].flag
      ensures Nearest(knn, offered + [id], cap, dist)
      ensures DistinctIds(knn0) ==> DistinctIds(knn)
      ensures Distinct(scored0) ==> Distinct(scored)
    {
      LogAppend(flags0, scored0, id);
      flags := flags0[id := true];
      scored := scored0 + [id];
      var nn := Neighbor(id, dist(id), true, 0, 0);
      assert forall j :: 0 <= j < |knn0| ==> knn0[j].id != id by {
        assert forall j :: 0 <= j < |knn0| ==> flags0[knn0[j].id];
      }
      // BOOST_VERIFY(r <= L): an unflagged id is never in the list
      KnnInsertNew(knn0, nn);
      var width := ActualM(pM, id) % 0x1_0000;
      Admitted(graph, knn0, nn, cap, k0, width, flags, dist);
      OfferNearest(knn0, nn, cap, offered, dist);
      AdmitKeys(knn0, nn, cap, k0, width);
      NearestKeys(Offer(knn0, nn, cap), Admit(knn0, nn, cap, k0, width).0, offered + [id], cap, dist);
      if DistinctIds(knn0) {
        OfferDistinct(knn0, nn, cap);
      }
      knn, k := Admit(knn0, nn, cap, k0, width).0, Admit(knn0, nn, cap, k0, width).1;
    }
  }
}
