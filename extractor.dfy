/** The binary sketch of the NISE image plugin: a 128-value SIFT descriptor
    becomes 128 bits packed into four 32-bit chunks, and the bits of the
    descriptor's largest values are the ones set. */
module NiseExtractor {

  /** SIFT_NBO orientation bins over SIFT_NBP x SIFT_NBP cells. */
  const SIFT_NBO: nat := 8
  const SIFT_NBP: nat := 4
  const SIFT_DIM: nat := SIFT_NBO * SIFT_NBP * SIFT_NBP

  const SKETCH_BITS: nat := 128
  /** Bits of a uint32_t chunk. */
  const CHUNK_BITS: nat := 32
  /** Chunks of a feature. */
  const DIM: nat := SKETCH_BITS / CHUNK_BITS

  const DEFAULT_TOPK: nat := 90
  const DEFAULT_MIN_SIZE: int := 80
  const DEFAULT_MAX_SIZE: int := 400

  /** Bit `o` of a chunk. */
  predicate BitAt(w: bv32, o: bv5) {
    (w >> o) & 1 == 1
  }

  /** Bit `off` of a chunk, for a bit number. */
  predicate WordBit(w: bv32, off: nat)
    requires off < 32
  {
    BitAt(w, off as bv5)
  }

  /** `w | 1 << off`: bit `off` becomes 1 and every other bit is kept. */
  function WithBit(w: bv32, off: nat): (r: bv32)
    requires off < 32
    ensures WordBit(r, off)
    ensures forall j :: 0 <= j < 32 && j != off ==> (WordBit(r, j) <==> WordBit(w, j))
  {
    WithBitFacts(w, off);
    w | (1 << (off as bv5))
  }

  lemma WithBitFacts(w: bv32, off: nat)
    requires off < 32
    ensures WordBit(w | (1 << (off as bv5)), off)
    ensures forall j :: 0 <= j < 32 && j != off ==> (WordBit(w | (1 << (off as bv5)), j) <==> WordBit(w, j))
  {
    var o := off as bv5;
    SetAt(w, o);
    forall j | 0 <= j < 32 && j != off
      ensures WordBit(w | (1 << o), j) <==> WordBit(w, j)
    {
      RoundTrip(j);
      RoundTrip(off);
      KeepAt(w, o, j as bv5);
    }
  }

  lemma SetAt(w: bv32, o: bv5)
    ensures BitAt(w | (1 << o), o)
  {
  }

  lemma KeepAt(w: bv32, o: bv5, p: bv5)
    requires p != o
    ensures BitAt(w | (1 << o), p) <==> BitAt(w, p)
  {
  }

  /** A bit number below 32 survives the conversion to a shift amount. */
  lemma RoundTrip(x: nat)
    requires x < 32
    ensures (x as bv5) as int == x
  {
  }

  /** Bit b of a sketch: bit b % 32 of chunk b / 32. */
  predicate Bit(data: seq<bv32>, b: nat)
    requires b < CHUNK_BITS * |data|
  {
    WordBit(data[b / CHUNK_BITS], b % CHUNK_BITS)
  }

  /** The positions of the 1 bits of a sketch. */
  function Ones(data: seq<bv32>): (r: set<nat>)
    ensures forall b :: b in r ==> b < CHUNK_BITS * |data|
  {
    set b | 0 <= b < CHUNK_BITS * |data| && Bit(data, b)
  }

  /** A sketch of zero chunks has no 1 bit. */
  lemma ZeroOnes(data: seq<bv32>)
    requires forall j :: 0 <= j < |data| ==> data[j] == 0
    ensures Ones(data) == {}
  {
    forall b | 0 <= b < CHUNK_BITS * |data|
      ensures !Bit(data, b)
    {
      var w := data[b / CHUNK_BITS];
      assert w == 0;
      assert !BitAt(w, (b % CHUNK_BITS) as bv5);
    }
  }

  /** set_bit(f, b): sets bit b % 32 of chunk b / 32 and no other bit. */
  method SetBit(data: array<bv32>, b: nat)
    requires b < CHUNK_BITS * data.Length
    modifies data
    ensures forall c :: 0 <= c < CHUNK_BITS * data.Length ==> (Bit(data[..], c) <==> c == b || Bit(old(data[..]), c))
    ensures Ones(data[..]) == Ones(old(data[..])) + {b}
  {
    var chunk := b / CHUNK_BITS;
    var off := b % CHUNK_BITS;
    data[chunk] := WithBit(data[chunk], off);
    forall c | 0 <= c < CHUNK_BITS * data.Length
      ensures Bit(data[..], c) <==> c == b || Bit(old(data[..]), c)
    {
      if c / CHUNK_BITS != chunk {
        assert data[..][c / CHUNK_BITS] == old(data[..])[c / CHUNK_BITS];
      }
    }
  }

  /** One entry of the rank array: a descriptor value and its index. */
  type Rank = (real, nat)

  /** std::pair's operator<: by value, then by index. */
  predicate Below(x: Rank, y: Rank) {
    x.0 < y.0 || (x.0 == y.0 && x.1 < y.1)
  }

  /** Strictly ascending in pair order. */
  predicate Ascending(s: seq<Rank>) {
    forall i, j :: 0 <= i < j < |s| ==> Below(s[i], s[j])
  }

  predicate Distinct(s: seq<Rank>) {
    forall i, j :: 0 <= i < j < |s| ==> s[i] != s[j]
  }

  /** The rank array before sorting: rank[i] = (f[i], i). */
  function Ranks(f: seq<real>): (r: seq<Rank>)
    ensures |r| == |f|
    ensures forall i :: 0 <= i < |f| ==> r[i] == (f[i], i)
  {
    seq(|f|, i requires 0 <= i < |f| => (f[i], i))
  }

  /** x goes before the first entry that is not below it. */
  function Insert(x: Rank, s: seq<Rank>): (r: seq<Rank>)
    ensures multiset(r) == multiset(s) + multiset{x}
  {
    if s == [] || !Below(s[0], x) then [x] + s
    else
      assert s == [s[0]] + s[1..];
      [s[0]] + Insert(x, s[1..])
  }

  /** std::sort over the rank array, as a permutation of its entries. */
  function Sort(s: seq<Rank>): (r: seq<Rank>)
    ensures multiset(r) == multiset(s)
  {
    if s == [] then []
    else
      assert s == [s[0]] + s[1..];
      Insert(s[0], Sort(s[1..]))
  }

  lemma {:induction false} InsertAscending(x: Rank, s: seq<Rank>)
    requires Ascending(s) && x !in s
    ensures Ascending(Insert(x, s))
  {
    if s == [] || !Below(s[0], x) {
      forall y | y in s
        ensures Below(x, y)
      {
      }
    } else {
      InsertAscending(x, s[1..]);
      var t := Insert(x, s[1..]);
      forall y | y in t
        ensures Below(s[0], y)
      {
        assert y in multiset(t);
        if y != x {
          assert y in multiset(s[1..]);
        }
      }
    }
  }

  lemma {:induction false} SortAscending(s: seq<Rank>)
    requires Distinct(s)
    ensures Ascending(Sort(s))
  {
    if s != [] {
      SortAscending(s[1..]);
      assert s[0] !in s[1..];
      assert s[0] !in multiset(Sort(s[1..]));
      InsertAscending(s[0], Sort(s[1..]));
    }
  }

  /** The sorted rank array of a descriptor: ascending, each entry the pair
      of its own index, and every index present. */
  predicate RankArray(f: seq<real>, r: seq<Rank>) {
    && |r| == |f|
    && Ascending(r)
    && (forall i :: 0 <= i < |r| ==> r[i].1 < |f| && r[i] == (f[r[i].1], r[i].1))
    && (forall c :: 0 <= c < |f| ==> (f[c], c) in r)
  }

  lemma SortedRanks(f: seq<real>)
    ensures RankArray(f, Sort(Ranks(f)))
  {
    var s := Ranks(f);
    var r := Sort(s);
    SortAscending(s);
    assert |r| == |multiset(r)| == |multiset(s)| == |s|;
    forall i | 0 <= i < |r|
      ensures r[i].1 < |f| && r[i] == (f[r[i].1], r[i].1)
    {
      assert r[i] in multiset(s);
    }
    forall c | 0 <= c < |f|
      ensures (f[c], c) in r
    {
      assert s[c] in multiset(r);
    }
  }

  /** The indices held by rank[lo..hi). */
  function Indices(r: seq<Rank>, lo: nat, hi: nat): set<nat>
    requires hi <= |r|
  {
    set i | lo <= i < hi :: r[i].1
  }

  lemma IndicesStep(r: seq<Rank>, lo: nat, hi: nat)
    requires lo <= hi < |r|
    ensures Indices(r, lo, hi + 1) == Indices(r, lo, hi) + {r[hi].1}
  {
    assert r[hi].1 in Indices(r, lo, hi + 1);
  }

  /** The indices of a rank array with no repeated index are as many as the
      entries. */
  lemma {:induction false} IndicesCount(r: seq<Rank>, lo: nat, hi: nat)
    requires lo <= hi <= |r|
    requires forall i, j :: 0 <= i < j < |r| ==> r[i].1 != r[j].1
    ensures |Indices(r, lo, hi)| == hi - lo
  {
    if hi == lo {
      assert Indices(r, lo, hi) == {};
    } else {
      IndicesCount(r, lo, hi - 1);
      IndicesStep(r, lo, hi - 1);
    }
  }

  /** The bits binarify sets: the indices at ranks k .. |f|-1. */
  function Top(f: seq<real>, k: nat): set<nat> {
    var r := Sort(Ranks(f));
    set i | k <= i < |r| :: r[i].1
  }

  /** K <= SIFT_DIM gives SIFT_DIM - K bits; a larger K gives none. */
  lemma TopCount(f: seq<real>, k: nat)
    ensures |Top(f, k)| == if k <= |f| then |f| - k else 0
  {
    var r := Sort(Ranks(f));
    SortedRanks(f);
    if k <= |f| {
      forall i, j | 0 <= i < j < |r|
        ensures r[i].1 != r[j].1
      {
        assert Below(r[i], r[j]);
      }
      IndicesCount(r, k, |r|);
      assert Top(f, k) == Indices(r, k, |r|);
    } else {
      assert Top(f, k) == {};
    }
  }

  /** Every set bit is a descriptor index, and ranks above every cleared one:
      its value is at least as large, and a tie goes to the larger index. */
  lemma TopAbove(f: seq<real>, k: nat, a: nat, c: nat)
    requires a in Top(f, k)
    requires c < |f| && c !in Top(f, k)
    ensures a < |f|
    ensures Below((f[c], c), (f[a], a))
    ensures f[c] <= f[a]
  {
    var r := Sort(Ranks(f));
    SortedRanks(f);
    var i :| k <= i < |r| && r[i].1 == a;
    var j :| 0 <= j < |r| && r[j] == (f[c], c);
  }

  /** The default topk of 90 over a 128-value descriptor sets 38 bits. */
  lemma DefaultTop(f: seq<real>)
    requires |f| == SIFT_DIM
    ensures |Top(f, DEFAULT_TOPK)| == 38
  {
    TopCount(f, DEFAULT_TOPK);
  }

  /** A configuration value: the configured one, else the default. */
  function Setting(config: map<string, int>, path: string, default: int): (r: int)
    ensures path in config ==> r == config[path]
    ensures path !in config ==> r == default
  {
    if path in config then config[path] else default
  }

  class ExtractorImpl {
    /** donkey.nise.topk: ranks below K give 0 bits. */
    const k: nat
    const minSize: int
    const maxSize: int

    constructor (config: map<string, int>)
      requires "donkey.nise.topk" in config ==> config["donkey.nise.topk"] >= 0
      ensures k == Setting(config, "donkey.nise.topk", DEFAULT_TOPK)
      ensures minSize == Setting(config, "donkey.nise.min_size", DEFAULT_MIN_SIZE)
      ensures maxSize == Setting(config, "donkey.nise.max_size", DEFAULT_MAX_SIZE)
    {
      k := Setting(config, "donkey.nise.topk", DEFAULT_TOPK);
      minSize := Setting(config, "donkey.nise.min_size", DEFAULT_MIN_SIZE);
      maxSize := Setting(config, "donkey.nise.max_size", DEFAULT_MAX_SIZE);
    }

    /** binarify(f, b): fills the rank array, sorts it, zeroes the sketch and
        sets the bits of the indices at ranks K .. SIFT_DIM-1. */
    method Binarify(f: seq<real>, b: array<bv32>)
      requires |f| == SIFT_DIM && b.Length == DIM
      modifies b
      ensures Ones(b[..]) == Top(f, k)
    {
      var rank := new Rank[SIFT_DIM];
      for i := 0 to SIFT_DIM
        invariant forall j :: 0 <= j < i ==> rank[j] == (f[j], j)
      {
        rank[i] := (f[i], i);
      }
      assert rank[..] == Ranks(f);
      var sorted := Sort(rank[..]);
      SortedRanks(f);
      forall j | 0 <= j < SIFT_DIM {
        rank[j] := sorted[j];
      }
      assert rank[..] == sorted;
      forall j | 0 <= j < DIM {
        b[j] := 0;
      }
      ZeroOnes(b[..]);
      var i := k;
      while i < SIFT_DIM
        invariant k <= i && (i <= SIFT_DIM || i == k)
        invariant rank[..] == sorted
        invariant Ones(b[..]) == if i <= SIFT_DIM then Indices(sorted, k, i) else {}
      {
        IndicesStep(sorted, k, i);
        SetBit(b, rank[i].1);
        i := i + 1;
      }
      if k <= SIFT_DIM {
        assert Indices(sorted, k, SIFT_DIM) == Top(f, k);
      } else {
        assert Top(f, k) == {};
      }
    }
  }
}
