/** LSHIndex of src/index-lsh.cpp: the Index of the server backed by the
    hashing arena of src/lsh.h.  Its hash is still a stub that puts every
    record and every query in bucket 0 of every table, and its distance has
    no definition, so it is a parameter here. */
module DonkeyLshIndex {
  import opened Wrappers
  import opened Floats
  import opened DonkeyIndex
  import opened DonkeyLsh

  /** LSHIndex::Key: what a record reports. */
  datatype Key = Key(obj: nat, tag: nat)

  /** LSHIndex::Entry: the key and the address of the feature, which the
      index does not own. */
  datatype Entry = Entry(key: Key, feature: nat)

  /** sizeof(Entry) on a 64-bit target: two uint32 and a pointer. */
  const ENTRY_BYTES: nat := 16

  /** The defaults of create_index. */
  const DEFAULT_TABLES: nat := 8
  const DEFAULT_BITS: nat := 24
  const DEFAULT_ALLOCATE: nat := 16 * 1024 * 1024 * 1024

  /** ptree get(path, default): the configured value, or the default when
      the path is absent. */
  function Setting(config: map<string, nat>, path: string, default: nat): nat {
    if path in config then config[path] else default
  }

  function TablesOf(config: map<string, nat>): nat {
    Setting(config, "donkey.lsh.tables", DEFAULT_TABLES)
  }

  function BitsOf(config: map<string, nat>): nat {
    Setting(config, "donkey.lsh.bits", DEFAULT_BITS)
  }

  function AllocateOf(config: map<string, nat>): nat {
    Setting(config, "donkey.lsh.allocate", DEFAULT_ALLOCATE)
  }

  /** LSHConfig::key. */
  function KeyOf(e: Entry): Key {
    e.key
  }

  /** The default configuration is accepted by the arena, but its initial
      blocks take the whole budget: it has room for no record at all. */
  lemma DefaultsHoldNothing()
    ensures Fits(TablesOf(map[]), BitsOf(map[]), AllocateOf(map[]), ENTRY_BYTES)
    ensures MaxRecords(TablesOf(map[]), Arith.Pow2(BitsOf(map[])), AllocateOf(map[]), ENTRY_BYTES) == 0
  {
    assert Arith.Pow2(8) == 0x100;
    Arith.Pow2Add(8, 8);
    Arith.Pow2Add(16, 8);
    assert Arith.Pow2(24) == 0x100_0000;
  }

  // ------------------------------------------------- the stub hash

  /** 0, 1, ..., n - 1. */
  function Upto(n: nat): (r: seq<nat>)
    ensures |r| == n && forall j :: 0 <= j < n ==> r[j] == j
  {
    if n == 0 then [] else Upto(n - 1) + [n - 1]
  }

  /** n copies of s, one after the other. */
  function Repeat<T>(s: seq<T>, n: nat): (r: seq<T>)
    ensures |r| == n * |s|
  {
    if n == 0 then [] else Repeat(s, n - 1) + s
  }

  lemma {:induction false} RepeatMembers<T>(s: seq<T>, n: nat, x: T)
    ensures x in Repeat(s, n) <==> n > 0 && x in s
  {
    if n > 0 {
      RepeatMembers(s, n - 1, x);
    }
  }

  /** The pairs a scan of all records emits, in insertion order: one per
      record passing the threshold. */
  function Passing<R, Q, K>(rs: seq<R>, query: Q, dist: (R, Q) -> real, positive: bool,
                            threshold: FloatValue, key: R -> K): seq<(K, real)>
  {
    if rs == [] then []
    else
      var r := rs[|rs| - 1];
      Passing(rs[..|rs| - 1], query, dist, positive, threshold, key)
        + (if Passes(positive, dist(r, query), threshold) then [(key(r), dist(r, query))] else [])
  }

  lemma {:induction false} PassingMembers<R, Q, K>(rs: seq<R>, query: Q, dist: (R, Q) -> real, positive: bool,
                                                   threshold: FloatValue, key: R -> K, e: (K, real))
    ensures e in Passing(rs, query, dist, positive, threshold, key) <==>
      exists i :: 0 <= i < |rs| && Passes(positive, dist(rs[i], query), threshold)
        && e == (key(rs[i]), dist(rs[i], query))
  {
    if rs != [] {
      var init := rs[..|rs| - 1];
      PassingMembers(init, query, dist, positive, threshold, key, e);
      assert forall i :: 0 <= i < |init| ==> init[i] == rs[i];
    }
  }

  /** Under a hash that is 0 everywhere, every bucket a query probes holds
      every record, in insertion order. */
  lemma {:induction false} ZeroHashedTo<R>(rs: seq<R>, hash: (R, nat) -> nat, t: nat)
    requires forall r, u :: hash(r, u) == 0
    ensures HashedTo(rs, hash, t, 0) == Upto(|rs|)
  {
    if rs != [] {
      ZeroHashedTo(rs[..|rs| - 1], hash, t);
    }
  }

  /** Scanning the slots 0 .. m - 1 is the scan of the first m records. */
  lemma {:induction false} HitsUpto<R, Q, K>(rs: seq<R>, m: nat, query: Q, dist: (R, Q) -> real, positive: bool,
                                             threshold: FloatValue, key: R -> K)
    requires m <= |rs|
    ensures Hits(rs, Upto(m), query, dist, positive, threshold, key)
      == Passing(rs[..m], query, dist, positive, threshold, key)
  {
    if m > 0 {
      HitsUpto(rs, m - 1, query, dist, positive, threshold, key);
      assert Upto(m)[..m - 1] == Upto(m - 1);
      assert rs[..m][..m - 1] == rs[..m - 1];
    }
  }

  /** With the stub hash, search reports every passing record once per
      table: the scan of all records, repeated num_tables times. */
  lemma {:induction false} StubProbe<R, Q, K>(rs: seq<R>, hash: (R, nat) -> nat, qhash: (Q, nat) -> nat, query: Q,
                                              dist: (R, Q) -> real, positive: bool, threshold: FloatValue,
                                              key: R -> K, n: nat)
    requires forall r, u :: hash(r, u) == 0
    requires forall q, u :: qhash(q, u) == 0
    ensures Probe(rs, hash, qhash, query, dist, positive, threshold, key, n)
      == Repeat(Passing(rs, query, dist, positive, threshold, key), n)
  {
    if n > 0 {
      var t: nat := n - 1;
      StubProbe(rs, hash, qhash, query, dist, positive, threshold, key, t);
      StubBucket(rs, hash, qhash, query, dist, positive, threshold, key, t);
      ProbeStep(rs, hash, qhash, query, dist, positive, threshold, key, t);
    }
  }

  lemma ProbeStep<R, Q, K>(rs: seq<R>, hash: (R, nat) -> nat, qhash: (Q, nat) -> nat, query: Q,
                           dist: (R, Q) -> real, positive: bool, threshold: FloatValue, key: R -> K, t: nat)
    ensures Probe(rs, hash, qhash, query, dist, positive, threshold, key, t + 1)
      == Probe(rs, hash, qhash, query, dist, positive, threshold, key, t)
         + Hits(rs, HashedTo(rs, hash, t, qhash(query, t)), query, dist, positive, threshold, key)
  {
  }

  /** With the stub hash, the bucket a query probes in table t yields the
      scan of all records. */
  lemma StubBucket<R, Q, K>(rs: seq<R>, hash: (R, nat) -> nat, qhash: (Q, nat) -> nat, query: Q,
                            dist: (R, Q) -> real, positive: bool, threshold: FloatValue, key: R -> K, t: nat)
    requires forall r, u :: hash(r, u) == 0
    requires forall q, u :: qhash(q, u) == 0
    ensures Hits(rs, HashedTo(rs, hash, t, qhash(query, t)), query, dist, positive, threshold, key)
      == Passing(rs, query, dist, positive, threshold, key)
  {
    assert qhash(query, t) == 0;
    ZeroHashedTo(rs, hash, t);
    HitsUpto(rs, |rs|, query, dist, positive, threshold, key);
    assert rs[..|rs|] == rs;
  }

  // ------------------------------------------------------- matches

  /** The copy into the Match vector: object, tag and distance. */
  function ToMatches(m: seq<(Key, real)>): (r: seq<Match>)
    ensures |r| == |m|
    ensures forall i :: 0 <= i < |m| ==> r[i] == Match(m[i].0.obj, m[i].0.tag, m[i].1)
  {
    if m == [] then [] else ToMatches(m[..|m| - 1]) + [Match(m[|m| - 1].0.obj, m[|m| - 1].0.tag, m[|m| - 1].1)]
  }

  /** What search answers for the entries rs: each entry passing the
      threshold, in insertion order, once per table. */
  function Answer<Q>(rs: seq<Entry>, query: Q, dist: (Entry, Q) -> real, positive: bool, threshold: FloatValue,
                     n: nat): seq<Match>
  {
    ToMatches(Repeat(Passing(rs, query, dist, positive, threshold, KeyOf), n))
  }

  /** Some entry of rs passes the threshold, and m carries its object, its
      tag and its distance. */
  ghost predicate Matched<Q>(rs: seq<Entry>, query: Q, dist: (Entry, Q) -> real, positive: bool, threshold: FloatValue,
                             m: Match) {
    exists i :: 0 <= i < |rs| && Passes(positive, dist(rs[i], query), threshold)
      && m == Match(rs[i].key.obj, rs[i].key.tag, dist(rs[i], query))
  }

  /** A match is answered exactly when there is a table and an entry with
      its object and tag passing the threshold at its distance. */
  lemma AnswerMembers<Q>(rs: seq<Entry>, query: Q, dist: (Entry, Q) -> real, positive: bool, threshold: FloatValue,
                         n: nat, m: Match)
    ensures m in Answer(rs, query, dist, positive, threshold, n) <==>
      n > 0 && Matched(rs, query, dist, positive, threshold, m)
  {
    var p := Passing(rs, query, dist, positive, threshold, KeyOf);
    var s := Repeat(p, n);
    var a := ToMatches(s);
    if m in a {
      var k :| 0 <= k < |a| && a[k] == m;
      var e := s[k];
      RepeatMembers(p, n, e);
      PassingMembers(rs, query, dist, positive, threshold, KeyOf, e);
    }
    if n > 0 && Matched(rs, query, dist, positive, threshold, m) {
      var i :| 0 <= i < |rs| && Passes(positive, dist(rs[i], query), threshold)
        && m == Match(rs[i].key.obj, rs[i].key.tag, dist(rs[i], query));
      var e := (rs[i].key, dist(rs[i], query));
      PassingMembers(rs, query, dist, positive, threshold, KeyOf, e);
      RepeatMembers(p, n, e);
      var k :| 0 <= k < |s| && s[k] == e;
      assert a[k] == m;
    }
  }

  /** Every passing entry is answered num_tables times. */
  lemma AnswerCount<Q>(rs: seq<Entry>, query: Q, dist: (Entry, Q) -> real, positive: bool,
                       threshold: FloatValue, n: nat, m: Match)
    ensures multiset(Answer(rs, query, dist, positive, threshold, n))[m]
      == n * multiset(ToMatches(Passing(rs, query, dist, positive, threshold, KeyOf)))[m]
  {
    var p := Passing(rs, query, dist, positive, threshold, KeyOf);
    ToMatchesRepeat(p, n);
    RepeatCount(ToMatches(p), n, m);
  }

  lemma {:induction false} RepeatCount<T>(s: seq<T>, n: nat, x: T)
    ensures multiset(Repeat(s, n))[x] == n * multiset(s)[x]
  {
    if n > 0 {
      RepeatCount(s, n - 1, x);
      var k: nat := n - 1;
      assert multiset(Repeat(s, n))[x] == multiset(Repeat(s, k))[x] + multiset(s)[x];
      Arith.MulSucc(k, multiset(s)[x]);
    }
  }

  lemma {:induction false} ToMatchesRepeat(p: seq<(Key, real)>, n: nat)
    ensures ToMatches(Repeat(p, n)) == Repeat(ToMatches(p), n)
  {
    if n > 0 {
      ToMatchesRepeat(p, n - 1);
      ToMatchesAppend(Repeat(p, n - 1), p);
    }
  }

  lemma ToMatchesAppend(a: seq<(Key, real)>, b: seq<(Key, real)>)
    ensures ToMatches(a + b) == ToMatches(a) + ToMatches(b)
  {
    var l, r := ToMatches(a + b), ToMatches(a) + ToMatches(b);
    assert |l| == |r|;
    forall i | 0 <= i < |l|
      ensures l[i] == r[i]
    {
      if i < |a| {
        assert (a + b)[i] == a[i];
      } else {
        assert (a + b)[i] == b[i - |a|];
      }
    }
  }

  // ------------------------------------------------------- the index

  /** LSHIndex over queries of type F.  `positive` is
      FeatureSimilarity::POLARITY > 0; `lsh` is null once the arena has
      been released. */
  class LSHIndex<F> {
    const numTables: nat
    const hashBits: nat
    const allocate: nat
    const dist: (Entry, F) -> real
    const positive: bool
    var indexedSize: nat
    var lsh: Index?<Entry>
    ghost var Repr: set<object>

    /** a is an arena of this index's settings with the stub hash. */
    ghost predicate Arena(a: Index<Entry>) {
      Fits(numTables, hashBits, allocate, ENTRY_BYTES)
      && a.numTables == numTables && a.hashBits == hashBits && a.tableSize == Arith.Pow2(hashBits)
      && a.maxRecords == MaxRecords(numTables, a.tableSize, allocate, ENTRY_BYTES)
      && forall r, t :: a.hash(r, t) == 0
    }

    ghost predicate Valid()
      reads this, Repr
    {
      this in Repr && Sized(numTables, hashBits, allocate, ENTRY_BYTES)
      && (lsh == null ==> Repr == {this} && indexedSize == 0)
      && (lsh != null ==>
            Repr == {this, lsh, lsh.blocks, lsh.records} && lsh.Valid() && Arena(lsh)
            && indexedSize == |lsh.Contents()|)
    }

    /** The entries inserted since the arena was created. */
    ghost function Entries(): seq<Entry>
      reads this, Repr
      requires Valid()
    {
      if lsh == null then [] else lsh.Contents()
    }

    /** The number of entries the arena has room for; none without one. */
    function Capacity(): nat
      reads this
    {
      if lsh == null then 0 else lsh.maxRecords
    }

    /** The member initialisers of the constructor: the configuration,
        indexed_size 0 and no arena yet.  Create adds the create_index call
        of its body. */
    constructor (config: map<string, nat>, dist: (Entry, F) -> real, positive: bool)
      requires Sized(TablesOf(config), BitsOf(config), AllocateOf(config), ENTRY_BYTES)
      ensures Valid() && fresh(Repr)
      ensures numTables == TablesOf(config) && hashBits == BitsOf(config) && allocate == AllocateOf(config)
      ensures this.dist == dist && this.positive == positive
      ensures lsh == null && indexedSize == 0
    {
      numTables, hashBits, allocate := TablesOf(config), BitsOf(config), AllocateOf(config);
      this.dist, this.positive := dist, positive;
      indexedSize := 0;
      lsh := null;
      new;
      Repr := {this};
    }

    /** create_index: a fresh empty arena of the configured settings, or an
        abort when the arena's sizing fails its BOOST_VERIFY (an allocation
        smaller than the initial blocks).  The InternalError for a null
        arena cannot happen: `new` throws instead of returning null. */
    method CreateIndex() returns (r: Result<()>)
      requires this in Repr && Sized(numTables, hashBits, allocate, ENTRY_BYTES) && indexedSize == 0
      requires lsh == null ==> Repr == {this}
      modifies this`lsh, this`Repr
      ensures Valid()
      ensures r.Ok? <==> Fits(numTables, hashBits, allocate, ENTRY_BYTES)
      ensures r.Err? ==> r == Err(Abort) && lsh == null && Repr == {this}
      ensures r.Ok? ==>
        && fresh(Repr - {this}) && lsh != null && Entries() == []
        && Capacity() == MaxRecords(numTables, Arith.Pow2(hashBits), allocate, ENTRY_BYTES)
    ensures r.Ok? ==> Repr == {this, lsh, lsh.blocks, lsh.records} && fresh(lsh) && fresh(lsh.blocks) && fresh(lsh.records)
    {
      var blank := Entry(Key(0, 0), 0);
      var a := NewIndex<Entry>(numTables, hashBits, allocate, ENTRY_BYTES, (r: Entry, t: nat) => 0, blank);
      if a.Err? {
        lsh := null;
        Repr := {this};
        return Err(Abort);
      }
      lsh := a.value;
      Repr := {this, lsh, lsh.blocks, lsh.records};
      r := Ok(());
    }

    /** search: the matches are cleared, then, when there is an arena, filled
        with what the arena reports for hint_R.  hint_K is not used. */
    method Search(query: F, req: SearchRequest) returns (matches: seq<Match>)
      requires Valid()
      ensures matches == Answer(Entries(), query, dist, positive, req.hintR, numTables)
    {
      matches := [];
      if lsh != null {
        var m := StubSearch(lsh, query, dist, positive, req.hintR);
        matches := CopyMatches(m);
      }
    }

    /** insert: the entry is appended and indexed_size counts it; a full
        arena throws std::bad_alloc before the count.  Without an arena the
        call dereferences a null pointer, which ends the process. */
    method Insert(obj: nat, tag: nat, feature: nat) returns (r: Result<()>)
      requires Valid()
      modifies Repr
      ensures Valid() && Repr == old(Repr) && lsh == old(lsh)
      ensures old(lsh) == null ==> r == Err(Abort) && indexedSize == 0
      ensures old(lsh) != null && old(|Entries()|) >= Capacity() ==>
        r == Err(OutOfMemory) && Entries() == old(Entries()) && indexedSize == old(indexedSize)
      ensures old(lsh) != null && old(|Entries()|) < Capacity() ==>
        r == Ok(()) && Entries() == old(Entries()) + [Entry(Key(obj, tag), feature)]
        && indexedSize == old(indexedSize) + 1
    {
      if lsh == null {
        return Err(Abort);
      }
      var e := Entry(Key(obj, tag), feature);
      r := lsh.Append(e);
      if r.Ok? {
        indexedSize := indexedSize + 1;
      }
    }

    /** clear as written: the arena is released and not replaced, so a
        later insert dereferences the null arena. */
    method ClearAsWritten()
      requires Valid()
      modifies this
      ensures Valid() && lsh == null && indexedSize == 0 && Entries() == []
    {
      lsh := null;
      Repr := {this};
      indexedSize := 0;
    }

    /** clear as evidently meant, the way KGraphIndex::clear leaves an empty
        usable index: the arena is replaced by an empty one of the same
        settings. */
    method Clear() returns (r: Result<()>)
      requires Valid()
      modifies this
      ensures Valid() && indexedSize == 0 && Entries() == []
      ensures r.Ok? <==> Fits(numTables, hashBits, allocate, ENTRY_BYTES)
      ensures r.Err? ==> r == Err(Abort) && lsh == null
      ensures r.Ok? ==>
        && fresh(Repr - {this}) && lsh != null
        && Capacity() == MaxRecords(numTables, Arith.Pow2(hashBits), allocate, ENTRY_BYTES)
    {
      indexedSize := 0;
      lsh := null;
      Repr := {this};
      r := CreateIndex();
    }
  }

  /** LSHIndex (config): the member initialisers, then create_index, whose
      failure ends the process. */
  method Create<F>(config: map<string, nat>, dist: (Entry, F) -> real, positive: bool) returns (r: Result<LSHIndex<F>>)
    requires Sized(TablesOf(config), BitsOf(config), AllocateOf(config), ENTRY_BYTES)
    ensures r.Ok? <==> Fits(TablesOf(config), BitsOf(config), AllocateOf(config), ENTRY_BYTES)
    ensures r.Err? ==> r.error == Abort
    ensures r.Ok? ==> fresh(r.value.Repr) && r.value.Valid() && r.value.lsh != null && r.value.indexedSize == 0
    ensures r.Ok? ==> r.value.Valid() && r.value.Entries() == []
    ensures r.Ok? ==>
      && r.value.numTables == TablesOf(config) && r.value.hashBits == BitsOf(config)
      && r.value.allocate == AllocateOf(config) && r.value.dist == dist && r.value.positive == positive
    ensures r.Ok? ==>
      r.value.Capacity() == MaxRecords(TablesOf(config), Arith.Pow2(BitsOf(config)), AllocateOf(config), ENTRY_BYTES)
  {
    var x := new LSHIndex<F>(config, dist, positive);
    var c := x.CreateIndex();
    if c.Err? {
      return Err(Abort);
    }
    return Ok(x);
  }

  /** lsh_index->search(query, hint_R, &m) on an arena with the stub hash:
      every passing entry once per table. */
  method StubSearch<F>(a: Index<Entry>, query: F, dist: (Entry, F) -> real, positive: bool, threshold: FloatValue)
    returns (m: seq<(Key, real)>)
    requires a.Valid() && a.tableSize > 0 && forall r, t :: a.hash(r, t) == 0
    ensures m == Repeat(Passing(a.Contents(), query, dist, positive, threshold, KeyOf), a.numTables)
  {
    var qhash := (q: F, t: nat) => 0;
    m := a.Search(query, qhash, dist, positive, threshold, KeyOf, []);
    StubProbe(a.Contents(), a.hash, qhash, query, dist, positive, threshold, KeyOf, a.numTables);
  }

  /** The loop of search copying object, tag and distance into the matches. */
  method CopyMatches(m: seq<(Key, real)>) returns (matches: seq<Match>)
    ensures matches == ToMatches(m)
  {
    matches := [];
    for i := 0 to |m|
      invariant matches == ToMatches(m[..i])
    {
      assert m[..i + 1][..i] == m[..i];
      matches := matches + [Match(m[i].0.obj, m[i].0.tag, m[i].1)];
    }
    assert m[..|m|] == m;
  }

  /** As written, an insert after clear never succeeds. */
  method ClearThenInsertAsWritten<F>(x: LSHIndex<F>, obj: nat, tag: nat, feature: nat) returns (r: Result<()>)
    requires x.Valid()
    modifies x.Repr
    ensures r == Err(Abort)
  {
    x.ClearAsWritten();
    r := x.Insert(obj, tag, feature);
  }

  /** With the corrected clear, an insert after clear is the only entry. */
  method ClearThenInsert<F>(x: LSHIndex<F>, obj: nat, tag: nat, feature: nat) returns (r: Result<()>)
    requires x.Valid()
    modifies x.Repr
    ensures x.Valid() && x.indexedSize <= 1
    ensures !Fits(x.numTables, x.hashBits, x.allocate, ENTRY_BYTES) ==> r == Err(Abort) && x.lsh == null
    ensures Fits(x.numTables, x.hashBits, x.allocate, ENTRY_BYTES) ==>
      && (x.Capacity() > 0 ==> r == Ok(()) && x.Entries() == [Entry(Key(obj, tag), feature)])
      && (x.Capacity() == 0 ==> r == Err(OutOfMemory) && x.Entries() == [])
  {
    r := x.Clear();
    if r.Err? {
      return;
    }
    r := x.Insert(obj, tag, feature);
  }

  /** An index of the default configuration rejects its first insert. */
  method DefaultIndexFull<F>(dist: (Entry, F) -> real, positive: bool, obj: nat, tag: nat, feature: nat)
    returns (r: Result<()>)
    ensures r == Err(OutOfMemory)
  {
    DefaultsHoldNothing();
    var x := Create<F>(map[], dist, positive);
    r := x.value.Insert(obj, tag, feature);
  }
}
