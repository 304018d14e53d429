/** The locality-sensitive hashing arena of src/lsh.h: one memory region
    holding the records and a pool of fixed-size blocks, and num_tables
    hash tables of buckets, each bucket an append-only chain of blocks of
    31 record numbers.  The sizing formulas, the chain discipline, append,
    the bucket scan of search and the brute-force scan are modelled; the
    hash function, the key and the distance are parameters. */
module DonkeyLsh {
  import opened Wrappers
  import opened Arith
  import Floats
  import MathOp

  const U32: nat := 0x1_0000_0000
  const U64: nat := 0x1_0000_0000_0000_0000

  /** Block::MAX: record numbers per block. */
  const BLOCK_MAX: nat := 31
  /** sizeof(Block): 31 uint32 slots and the int32 link. */
  const BLOCK_BYTES: nat := 128

  // ------------------------------------------------------------ sizing

  /** The capacities the constructor derives from its arguments. */
  datatype Sizing = Sizing(tableSize: nat, overhead: nat, maxRecords: nat, maxBlocks: nat)

  /** The constructor's arithmetic: table_size is 1 << hash_bits as an
      unsigned, the rest follows from it. */
  function Capacities(numTables: nat, hashBits: nat, allocate: nat, recordBytes: nat): Result<Sizing>
    requires numTables < U32 && hashBits < 32 && allocate < U64 && recordBytes < U64
  {
    SizingOf(numTables, Wrap32(Pow2(hashBits)), allocate, recordBytes)
  }

  /** The capacities for a table size, with the wrap-around of the unsigned
      (32-bit) and size_t (64-bit) operands written out.  A zero divisor and
      a failed BOOST_VERIFY on the memory budget abort. */
  function SizingOf(numTables: nat, tableSize: nat, allocate: nat, recordBytes: nat): Result<Sizing> {
    var overhead := Wrap32(numTables * tableSize);
    var overheadBytes := Wrap64(overhead * BLOCK_BYTES);
    var denom := Wrap64(BLOCK_BYTES * numTables + recordBytes * BLOCK_MAX);
    if denom == 0 then Err(Abort)
    else
      var maxRecords := Quot(Wrap64(Wrap64(allocate - overheadBytes) * BLOCK_MAX), denom);
      Budgeted(numTables, tableSize, allocate, recordBytes, overhead, maxRecords)
  }

  /** The rest of the sizing once max_records is known: max_blocks and the
      BOOST_VERIFY that the blocks and the records fit in the budget. */
  function Budgeted(numTables: nat, tableSize: nat, allocate: nat, recordBytes: nat, overhead: nat,
                    maxRecords: nat): Result<Sizing> {
    var maxBlocks := Wrap64(overhead + Wrap64(maxRecords * numTables) / BLOCK_MAX);
    var used := Wrap64(Wrap64(maxBlocks * BLOCK_BYTES) + Wrap64(maxRecords * recordBytes));
    if used <= allocate then Ok(Sizing(tableSize, overhead, maxRecords, maxBlocks))
    else Err(Abort)
  }

  /** The sizing, its intermediate values given. */
  lemma SizingSteps(t: nat, ts: nat, allocate: nat, r: nat, ov: nat, ob: nat, d: nat, a': nat, mr: nat,
                    mt: nat, mR: nat, mb: nat, used: nat)
    requires Wrap32(t * ts) == ov && Wrap64(ov * BLOCK_BYTES) == ob
    requires Wrap64(BLOCK_BYTES * t + r * BLOCK_MAX) == d && d > 0
    requires Wrap64(Wrap64(allocate - ob) * BLOCK_MAX) == a' && mr == Quot(a', d)
    requires Wrap64(mr * t) == mt && Wrap64(mr * r) == mR && Wrap64(ov + mt / BLOCK_MAX) == mb
    requires Wrap64(Wrap64(mb * BLOCK_BYTES) + mR) == used
    ensures SizingOf(t, ts, allocate, r) == if used <= allocate then Ok(Sizing(ts, ov, mr, mb)) else Err(Abort)
  {
    assert SizingOf(t, ts, allocate, r) == Budgeted(t, ts, allocate, r, ov, mr);
  }

  /** A value reduced to an unsigned 32-bit word. */
  function Wrap32(x: int): nat {
    x % 0x1_0000_0000
  }

  /** A value reduced to a size_t. */
  function Wrap64(x: int): nat {
    x % 0x1_0000_0000_0000_0000
  }

  function Quot(a: nat, d: nat): nat
    requires d > 0
  {
    a / d
  }

  /** The arguments the sizing is analysed for: fewer than 2^32 tables and
      initial blocks, a shift below the word width, a record of fewer than
      2^32 bytes and a budget below 2^56 bytes. */
  predicate Sized(numTables: nat, hashBits: nat, allocate: nat, recordBytes: nat) {
    numTables < U32 && hashBits < 32 && 0 < recordBytes < U32 && allocate < 0x100_0000_0000_0000
    && numTables * Pow2(hashBits) < U32
  }

  /** Sized arguments whose initial blocks fit in the budget: none of the
      constructor's operations wraps. */
  predicate Fits(numTables: nat, hashBits: nat, allocate: nat, recordBytes: nat) {
    Sized(numTables, hashBits, allocate, recordBytes) && numTables * Pow2(hashBits) * BLOCK_BYTES <= allocate
  }

  /** The record capacity: the budget after the initial blocks, shared
      between each record and its share of a block in every table. */
  function MaxRecords(numTables: nat, tableSize: nat, allocate: nat, recordBytes: nat): nat
    requires numTables * tableSize * BLOCK_BYTES <= allocate
  {
    var spare: nat := allocate - numTables * tableSize * BLOCK_BYTES;
    var share: nat := BLOCK_BYTES * numTables + recordBytes * BLOCK_MAX;
    if share == 0 then 0 else Quot(spare * BLOCK_MAX, share)
  }

  /** The block capacity: the initial blocks and enough added ones for
      every table to hold max_records records. */
  function MaxBlocks(numTables: nat, tableSize: nat, maxRecords: nat): nat {
    numTables * tableSize + maxRecords * numTables / BLOCK_MAX
  }

  /** Without wrap-around the sizing succeeds, follows the formulas of the
      header comment, and the blocks and the records fit in the budget. */
  lemma CapacitiesFit(numTables: nat, hashBits: nat, allocate: nat, recordBytes: nat)
    requires Fits(numTables, hashBits, allocate, recordBytes)
    ensures var ts := Pow2(hashBits);
      var mr := MaxRecords(numTables, ts, allocate, recordBytes);
      var mb := MaxBlocks(numTables, ts, mr);
      Capacities(numTables, hashBits, allocate, recordBytes) == Ok(Sizing(ts, numTables * ts, mr, mb))
      && mb * BLOCK_BYTES + mr * recordBytes <= allocate
  {
    var ts := Pow2(hashBits);
    Pow2Below32(hashBits);
    NoWrap32(ts);
    SizingFit(numTables, ts, allocate, recordBytes);
  }

  lemma SizingFit(t: nat, ts: nat, allocate: nat, r: nat)
    requires 0 < ts < U32 && 0 < r < U32 && allocate < 0x100_0000_0000_0000
    requires t * ts < U32 && t * ts * BLOCK_BYTES <= allocate
    ensures var mr := MaxRecords(t, ts, allocate, r);
      var mb := MaxBlocks(t, ts, mr);
      SizingOf(t, ts, allocate, r) == Ok(Sizing(ts, t * ts, mr, mb))
      && mb * BLOCK_BYTES + mr * r <= allocate
  {
    var ov := t * ts;
    var ob := ov * BLOCK_BYTES;
    var d := BLOCK_BYTES * t + r * BLOCK_MAX;
    var a := allocate - ob;
    var mr := Quot(a * BLOCK_MAX, d);
    var mt, mR := mr * t, mr * r;
    var mb := ov + mt / BLOCK_MAX;
    SizingBounds(t, ts, allocate, r, ov, ob, d, a, mr, mt, mR, mb);
    SizingEval(t, ts, allocate, r, ov, ob, d, a, mr, mt, mR, mb);
  }

  /** For sized arguments the BOOST_VERIFY passes exactly when the initial
      blocks fit in the budget. */
  lemma SizingDecides(numTables: nat, hashBits: nat, allocate: nat, recordBytes: nat)
    requires Sized(numTables, hashBits, allocate, recordBytes)
    ensures Capacities(numTables, hashBits, allocate, recordBytes).Ok? <==> Fits(numTables, hashBits, allocate, recordBytes)
    ensures !Fits(numTables, hashBits, allocate, recordBytes) ==>
      Capacities(numTables, hashBits, allocate, recordBytes) == Err(Abort)
  {
    if Fits(numTables, hashBits, allocate, recordBytes) {
      CapacitiesFit(numTables, hashBits, allocate, recordBytes);
    } else {
      var ts := Pow2(hashBits);
      Pow2Below32(hashBits);
      NoWrap32(ts);
      SizingShort(numTables, ts, allocate, recordBytes);
    }
  }

  /** A budget smaller than the initial blocks: allocate - overhead wraps
      to nearly 2^64, max_records comes out huge, and the used bytes exceed
      the budget, so the BOOST_VERIFY fails. */
  lemma SizingShort(t: nat, ts: nat, allocate: nat, r: nat)
    requires t < U32 && 0 < r < U32 && allocate < 0x100_0000_0000_0000
    requires t * ts < U32 && allocate < t * ts * BLOCK_BYTES
    ensures SizingOf(t, ts, allocate, r) == Err(Abort)
  {
    var ov := t * ts;
    var ob := ov * BLOCK_BYTES;
    var d := BLOCK_BYTES * t + r * BLOCK_MAX;
    NoWrap32(ov);
    NoWrap64(ob);
    NoWrap64(d);
    var a': nat := U64 + BLOCK_MAX * (allocate - ob);
    ShortWrap(allocate, ob, a');
    ShortTail(t, ts, allocate, r, ov, ob, d, a');
  }

  /** SizingShort once the overhead, the divisor and the wrapped budget
      are known. */
  lemma ShortTail(t: nat, ts: nat, allocate: nat, r: nat, ov: nat, ob: nat, d: nat, a': nat)
    requires t < U32 && 0 < r < U32 && allocate < 0x100_0000_0000_0000
    requires Wrap32(t * ts) == ov < U32 && ob == ov * BLOCK_BYTES && Wrap64(ov * BLOCK_BYTES) == ob && allocate < ob
    requires d == BLOCK_BYTES * t + r * BLOCK_MAX && Wrap64(BLOCK_BYTES * t + r * BLOCK_MAX) == d
    requires a' == U64 + BLOCK_MAX * (allocate - ob) && Wrap64(Wrap64(allocate - ob) * BLOCK_MAX) == a'
    ensures SizingOf(t, ts, allocate, r) == Err(Abort)
  {
    var mr := Quot(a', d);
    ShortRecords(a', d, mr, t, r);
    var mt, mR := mr * t, mr * r;
    var mb := ov + mt / BLOCK_MAX;
    ShortBudget(allocate, ov, ob, d, a', mr * d, mt, mR, mt / BLOCK_MAX);
    NoWrap64(mt);
    NoWrap64(mR);
    NoWrap64(mb);
    NoWrap64(mb * BLOCK_BYTES);
    NoWrap64(mb * BLOCK_BYTES + mR);
    ShortEval(t, ts, allocate, r, ov, ob, d, a', mr, mt, mR, mb);
  }

  /** The wrapped budget of a short allocation, scaled by BLOCK_MAX. */
  lemma ShortWrap(allocate: nat, ob: nat, a': int)
    requires allocate < ob < 0x100_0000_0000 && a' == U64 + BLOCK_MAX * (allocate - ob)
    ensures 0 <= a' < U64 && Wrap64(Wrap64(allocate - ob) * BLOCK_MAX) == a'
  {
    var a: nat := U64 + (allocate - ob);
    WrapBy(a, allocate - ob, -1);
    WrapBy(a', a * BLOCK_MAX, 30);
  }

  /** max_records times the divisor: within one divisor of the scaled
      budget, and split between blocks and records. */
  lemma ShortRecords(a': nat, d: nat, mr: nat, t: nat, r: nat)
    requires d == BLOCK_BYTES * t + r * BLOCK_MAX && d > 0 && mr == Quot(a', d)
    ensures a' - d < mr * d <= a' && mr * d == BLOCK_BYTES * (mr * t) + BLOCK_MAX * (mr * r)
    ensures 0 <= mr * t && 0 <= mr * r && 0 <= mr * d
  {
    DivBelow(a', d);
    DivAbove(a', d);
    Distrib(mr, t, r);
  }

  /** The sizing of a short allocation, its intermediate values given. */
  lemma ShortEval(t: nat, ts: nat, allocate: nat, r: nat, ov: nat, ob: nat, d: nat, a': nat, mr: nat,
                  mt: nat, mR: nat, mb: nat)
    requires Wrap32(t * ts) == ov && Wrap64(ov * BLOCK_BYTES) == ob
    requires Wrap64(BLOCK_BYTES * t + r * BLOCK_MAX) == d && d > 0
    requires Wrap64(Wrap64(allocate - ob) * BLOCK_MAX) == a' && mr == Quot(a', d)
    requires Wrap64(mr * t) == mt && Wrap64(mr * r) == mR && Wrap64(ov + mt / BLOCK_MAX) == mb
    requires allocate < Wrap64(Wrap64(mb * BLOCK_BYTES) + mR)
    ensures SizingOf(t, ts, allocate, r) == Err(Abort)
  {
    SizingSteps(t, ts, allocate, r, ov, ob, d, a', mr, mt, mR, mb, Wrap64(Wrap64(mb * BLOCK_BYTES) + mR));
  }

  /** The arithmetic of SizingShort with the products as atoms. */
  lemma ShortBudget(allocate: nat, ov: nat, ob: nat, d: nat, a': nat, mrd: nat, mt: nat, mR: nat, q: nat)
    requires ob == ov * BLOCK_BYTES && allocate < ob && allocate < 0x100_0000_0000_0000
    requires 0 < d < 0x100_0000_0000 && a' == U64 + BLOCK_MAX * (allocate - ob)
    requires a' - d < mrd <= a' && mrd == BLOCK_BYTES * mt + BLOCK_MAX * mR && q == mt / BLOCK_MAX
    ensures mt < U64 && mR < U64 && ov + q < U64 && (ov + q) * BLOCK_BYTES < U64
    ensures (ov + q) * BLOCK_BYTES + mR < U64 && allocate < (ov + q) * BLOCK_BYTES + mR
  {
  }

  /** x taken modulo 2^64 is y when they differ by k times 2^64. */
  lemma WrapBy(y: nat, x: int, k: int)
    requires y < U64 && x == y + k * U64
    ensures Wrap64(x) == y
  {
  }

  lemma DivAbove(x: nat, d: nat)
    requires d > 0
    ensures x - d < Quot(x, d) * d
  {
  }

  /** The intermediate values of the sizing stay below 2^64. */
  lemma SizingBounds(t: nat, ts: nat, allocate: nat, r: nat, ov: nat, ob: nat, d: nat, a: int, mr: nat,
                     mt: nat, mR: nat, mb: nat)
    requires 0 < ts < U32 && 0 < r < U32 && allocate < 0x100_0000_0000_0000
    requires ov == t * ts < U32 && ob == ov * BLOCK_BYTES <= allocate
    requires d == BLOCK_BYTES * t + r * BLOCK_MAX && a == allocate - ob
    requires d > 0 && mr == Quot(a * BLOCK_MAX, d) && mt == mr * t && mR == mr * r && mb == ov + mt / BLOCK_MAX
    ensures ob < U64 && d < U64 && a * BLOCK_MAX < U64 && mt < U64 && mR < U64
    ensures mb * BLOCK_BYTES + mR <= allocate
  {
    DivBelow(a * BLOCK_MAX, d);
    Distrib(mr, t, r);
    assert mr * d == BLOCK_BYTES * mt + BLOCK_MAX * mR;
    Budget(ob, a, allocate, mt, mR, mr * d);
  }

  /** With no intermediate value wrapping, the sizing takes its
      arithmetic at face value. */
  lemma SizingEval(t: nat, ts: nat, allocate: nat, r: nat, ov: nat, ob: nat, d: nat, a: nat, mr: nat,
                   mt: nat, mR: nat, mb: nat)
    requires ov == t * ts < U32 && ob == ov * BLOCK_BYTES < U64 && ob <= allocate
    requires d == BLOCK_BYTES * t + r * BLOCK_MAX && 0 < d < U64 && a == allocate - ob && a * BLOCK_MAX < U64
    requires mr == Quot(a * BLOCK_MAX, d) && mt == mr * t < U64 && mR == mr * r < U64 && mb == ov + mt / BLOCK_MAX
    requires mb * BLOCK_BYTES + mR <= allocate < U64
    ensures SizingOf(t, ts, allocate, r) == Ok(Sizing(ts, ov, mr, mb))
  {
    NoWrap32(ov);
    NoWrap64(ob);
    NoWrap64(d);
    NoWrap64(a);
    NoWrap64(a * BLOCK_MAX);
    NoWrap64(mt);
    NoWrap64(mR);
    NoWrap64(mb);
    NoWrap64(mb * BLOCK_BYTES);
    NoWrap64(mb * BLOCK_BYTES + mR);
    SizingSteps(t, ts, allocate, r, ov, ob, d, a * BLOCK_MAX, mr, mt, mR, mb, mb * BLOCK_BYTES + mR);
  }

  lemma NoWrap32(x: int)
    requires 0 <= x < U32
    ensures Wrap32(x) == x
  {
  }

  lemma NoWrap64(x: int)
    requires 0 <= x < U64
    ensures Wrap64(x) == x
  {
  }

  lemma DivBelow(x: nat, d: nat)
    requires d > 0
    ensures Quot(x, d) * d <= x
  {
  }

  lemma Distrib(m: nat, t: nat, r: nat)
    ensures m * (BLOCK_BYTES * t + r * BLOCK_MAX) == BLOCK_BYTES * (m * t) + BLOCK_MAX * (m * r)
  {
  }

  /** 31 (128 max_blocks + R max_records) <= 31 ob + max_records (128 T + 31 R)
      <= 31 allocate. */
  lemma Budget(ob: nat, a: nat, allocate: nat, mt: nat, mR: nat, mrd: nat)
    requires a + ob == allocate && ob % BLOCK_BYTES == 0
    requires mrd <= a * BLOCK_MAX && mrd == BLOCK_BYTES * mt + BLOCK_MAX * mR
    ensures (ob / BLOCK_BYTES + mt / BLOCK_MAX) * BLOCK_BYTES + mR <= allocate
  {
  }

  lemma Pow2Below32(n: nat)
    requires n < 32
    ensures Pow2(n) < U32
  {
    MathOp.Pow2Mono(n, 31);
    MathOp.Pow2Value32();
  }

  /** The defaults of donkey.lsh.* (8 tables of 2^24 buckets, 16 GiB) with
      16-byte records: the initial blocks take the whole budget, so the
      index has room for no record at all. */
  lemma DefaultCapacities()
    ensures Pow2(24) == 0x100_0000
    ensures Capacities(8, 24, 0x4_0000_0000, 16) == Ok(Sizing(0x100_0000, 0x800_0000, 0, 0x800_0000))
  {
    Pow2Add(16, 8);
    MathOp.Pow2Value16();
    CapacitiesFit(8, 24, 0x4_0000_0000, 16);
  }

  /** The default tables and bits with a 1 GiB budget: the 2^27 initial
      blocks alone need 16 GiB, so the constructor aborts. */
  lemma ShortBudgetAborts()
    ensures Capacities(8, 24, 0x4000_0000, 16) == Err(Abort)
  {
    Pow2Add(16, 8);
    MathOp.Pow2Value16();
    SizingDecides(8, 24, 0x4000_0000, 16);
  }

  /** No tables: no initial blocks and no block per record, so the whole
      budget goes to records. */
  lemma NoTablesCapacities(hashBits: nat, allocate: nat, recordBytes: nat)
    requires hashBits < 32 && 0 < recordBytes < U32 && allocate < 0x100_0000_0000_0000
    ensures Capacities(0, hashBits, allocate, recordBytes)
      == Ok(Sizing(Pow2(hashBits), 0, allocate / recordBytes, 0))
  {
    CapacitiesFit(0, hashBits, allocate, recordBytes);
    assert allocate * BLOCK_MAX / (recordBytes * BLOCK_MAX) == allocate / recordBytes by {
      DivCancel(allocate, recordBytes, BLOCK_MAX);
    }
  }

  lemma DivCancel(x: nat, y: nat, k: nat)
    requires 0 < y && 0 < k
    ensures x * k / (y * k) == x / y
  {
    var q, m := x / y, x % y;
    assert x == q * y + m;
    assert x * k == q * (y * k) + m * k by {
      assert x * k == (q * y + m) * k;
    }
    assert m * k < y * k by {
      assert (y - m) * k > 0;
    }
    DivUnique(x * k, y * k, q, m * k);
  }

  lemma DivUnique(a: nat, d: nat, q: nat, m: nat)
    requires 0 <= m < d && a == q * d + m
    ensures a / d == q
  {
    var q', m' := a / d, a % d;
    assert a == q' * d + m';
    assert (q - q') * d == m' - m;
    if q > q' {
      MulAtLeast(q - q', d);
    } else if q < q' {
      MulAtLeast(q' - q, d);
    }
  }

  // ------------------------------------------------------------- blocks

  /** A block: 31 record numbers and the index of the next block of the
      chain, -1 at the end. */
  datatype Block = Block(data: seq<nat>, next: int)

  /** A bucket: its first and last block, the records it holds and how many
      of them are in the last block. */
  datatype Bucket = Bucket(first: nat, last: nat, count: nat, tail: nat)

  /** Bucket bk over the blocks bs is the chain ch, holding the record
      numbers its in order: the chain runs from first to last through the
      links, uses allocated blocks once each, every block but the last is
      full, and the p-th record number is slot p % 31 of block p / 31. */
  ghost predicate BucketOk(bs: seq<Block>, nBlocks: nat, bk: Bucket, ch: seq<nat>, its: seq<nat>) {
    |ch| > 0 && bk.first == ch[0] && bk.last == ch[|ch| - 1]
    && (forall q :: 0 <= q < |ch| ==> ch[q] < nBlocks && ch[q] < |bs| && |bs[ch[q]].data| == BLOCK_MAX)
    && (forall q, q' :: 0 <= q < q' < |ch| ==> ch[q] != ch[q'])
    && (forall q, q' :: 0 <= q && q' == q + 1 && q' < |ch| ==> bs[ch[q]].next == ch[q'])
    && bs[bk.last].next == -1
    && bk.tail <= BLOCK_MAX && bk.count == BLOCK_MAX * (|ch| - 1) + bk.tail && |its| == bk.count
    && (forall q, j :: 0 <= q < |ch| && 0 <= j < BLOCK_MAX && BLOCK_MAX * q + j < |its| ==>
          bs[ch[q]].data[j] == its[BLOCK_MAX * q + j])
  }

  /** A bucket is untouched by changes to blocks outside its chain and by
      allocating further blocks. */
  lemma BucketFrame(bs: seq<Block>, bs': seq<Block>, nB: nat, nB': nat, bk: Bucket, ch: seq<nat>, its: seq<nat>)
    requires BucketOk(bs, nB, bk, ch, its)
    requires |bs'| == |bs| && nB <= nB'
    requires forall q :: 0 <= q < |ch| ==> bs'[ch[q]] == bs[ch[q]]
    ensures BucketOk(bs', nB', bk, ch, its)
  {
    assert bs'[bk.last] == bs[bk.last];
  }

  /** addToBucket when the last block has room: record i goes to slot tail
      of the last block. */
  lemma BucketAppend(bs: seq<Block>, nB: nat, bk: Bucket, ch: seq<nat>, its: seq<nat>, i: nat)
    requires BucketOk(bs, nB, bk, ch, its) && bk.tail < BLOCK_MAX
    ensures var lb := bs[bk.last];
      BucketOk(bs[bk.last := lb.(data := lb.data[bk.tail := i])], nB,
               bk.(tail := bk.tail + 1, count := bk.count + 1), ch, its + [i])
  {
    var lb := bs[bk.last];
    var bs' := bs[bk.last := lb.(data := lb.data[bk.tail := i])];
    var bk' := bk.(tail := bk.tail + 1, count := bk.count + 1);
    var its' := its + [i];
    var z := |ch| - 1;
    forall q, j | 0 <= q < |ch| && 0 <= j < BLOCK_MAX && BLOCK_MAX * q + j < |its'|
      ensures bs'[ch[q]].data[j] == its'[BLOCK_MAX * q + j]
    {
      if q != z {
        assert ch[q] != ch[z];
        assert BLOCK_MAX * q + j < |its|;
      } else if j != bk.tail {
        assert BLOCK_MAX * q + j < |its|;
      }
    }
    forall q | 0 <= q < |ch| - 1
      ensures bs'[ch[q]].next == ch[q + 1]
    {
      assert ch[q] != ch[z];
    }
  }

  /** addToBucket when the last block is full: block n, the next unused
      one, is linked after it and becomes the last, empty block. */
  lemma BucketExtend(bs: seq<Block>, nB: nat, bk: Bucket, ch: seq<nat>, its: seq<nat>, n: nat)
    requires BucketOk(bs, nB, bk, ch, its) && bk.tail == BLOCK_MAX
    requires n == nB && n < |bs| && |bs[n].data| == BLOCK_MAX
    ensures var bs1 := bs[bk.last := bs[bk.last].(next := n)];
      BucketOk(bs1[n := bs1[n].(next := -1)], nB + 1, bk.(last := n, tail := 0), ch + [n], its)
  {
    var bs1 := bs[bk.last := bs[bk.last].(next := n)];
    var bs2 := bs1[n := bs1[n].(next := -1)];
    var ch' := ch + [n];
    var z := |ch| - 1;
    forall q | 0 <= q < |ch'| - 1
      ensures bs2[ch'[q]].next == ch'[q + 1]
    {
      if q < z {
        assert ch[q] != ch[z];
      }
    }
    forall q, j | 0 <= q < |ch'| && 0 <= j < BLOCK_MAX && BLOCK_MAX * q + j < |its|
      ensures bs2[ch'[q]].data[j] == its[BLOCK_MAX * q + j]
    {
      assert q < |ch|;
    }
  }

  // ------------------------------------------------------------ contents

  /** The record numbers, ascending, of the records rs that table t hashes
      to bucket b: what that bucket holds once rs are appended. */
  function HashedTo<R>(rs: seq<R>, hash: (R, nat) -> nat, t: nat, b: nat): (r: seq<nat>)
    ensures forall j :: 0 <= j < |r| ==> r[j] < |rs|
  {
    if rs == [] then []
    else HashedTo(rs[..|rs| - 1], hash, t, b) + (if hash(rs[|rs| - 1], t) == b then [|rs| - 1] else [])
  }

  /** A bucket holds exactly the records hashed to it. */
  lemma {:induction false} HashedToMembers<R>(rs: seq<R>, hash: (R, nat) -> nat, t: nat, b: nat)
    ensures forall x: nat :: x in HashedTo(rs, hash, t, b) <==> x < |rs| && hash(rs[x], t) == b
  {
    if rs != [] {
      var init := rs[..|rs| - 1];
      HashedToMembers(init, hash, t, b);
      forall x: nat | x < |init|
        ensures init[x] == rs[x]
      {
      }
    }
  }

  /** Each number of s is larger than the one before. */
  ghost predicate Ascending(s: seq<nat>) {
    forall i, j :: 0 <= i < j < |s| ==> s[i] < s[j]
  }

  /** ... in ascending order, so each of them once. */
  lemma {:induction false} HashedToAscending<R>(rs: seq<R>, hash: (R, nat) -> nat, t: nat, b: nat)
    ensures Ascending(HashedTo(rs, hash, t, b))
  {
    if rs != [] {
      var init := rs[..|rs| - 1];
      HashedToAscending(init, hash, t, b);
      var h0 := HashedTo(init, hash, t, b);
      var h := HashedTo(rs, hash, t, b);
      assert Ascending(h0);
      assert h == h0 + (if hash(rs[|rs| - 1], t) == b then [|rs| - 1] else []);
      forall i, j | 0 <= i < j < |h|
        ensures h[i] < h[j]
      {
        assert h[i] == h0[i];
        if j >= |h0| {
          assert h[j] == |rs| - 1 && h0[i] < |init|;
        } else {
          assert h[j] == h0[j];
        }
      }
    }
  }

  /** The comparison of search: at least the threshold for a positive
      similarity, at most for a negative one, as floats compare (nothing
      compares with NaN). */
  predicate Passes(positive: bool, d: real, threshold: Floats.FloatValue) {
    match threshold
    case Finite(v) => if positive then d >= v else d <= v
    case Infinity(negative) => if positive then negative else !negative
    case NaN => false
  }

  /** The (key, distance) pairs search emits for the slots of one bucket. */
  function Hits<R, Q, K>(rs: seq<R>, slots: seq<nat>, query: Q, dist: (R, Q) -> real, positive: bool,
                         threshold: Floats.FloatValue, key: R -> K): seq<(K, real)>
    requires forall j :: 0 <= j < |slots| ==> slots[j] < |rs|
  {
    if slots == [] then []
    else
      var s := slots[|slots| - 1];
      var d := dist(rs[s], query);
      Hits(rs, slots[..|slots| - 1], query, dist, positive, threshold, key)
        + (if Passes(positive, d, threshold) then [(key(rs[s]), d)] else [])
  }

  /** What search emits over the first n tables: table by table, the
      passing records of the bucket the query hashes to, in bucket order. */
  function Probe<R, Q, K>(rs: seq<R>, hash: (R, nat) -> nat, qhash: (Q, nat) -> nat, query: Q, dist: (R, Q) -> real,
                          positive: bool, threshold: Floats.FloatValue, key: R -> K, n: nat): seq<(K, real)>
  {
    if n == 0 then []
    else
      Probe(rs, hash, qhash, query, dist, positive, threshold, key, n - 1)
        + Hits(rs, HashedTo(rs, hash, n - 1, qhash(query, n - 1)), query, dist, positive, threshold, key)
  }

  lemma {:induction false} HitsMembers<R, Q, K>(rs: seq<R>, slots: seq<nat>, query: Q, dist: (R, Q) -> real,
                                                positive: bool, threshold: Floats.FloatValue, key: R -> K, e: (K, real))
    requires forall j :: 0 <= j < |slots| ==> slots[j] < |rs|
    ensures e in Hits(rs, slots, query, dist, positive, threshold, key) <==>
      exists j :: 0 <= j < |slots| && Passes(positive, dist(rs[slots[j]], query), threshold)
        && e == (key(rs[slots[j]]), dist(rs[slots[j]], query))
  {
    if slots != [] {
      var init := slots[..|slots| - 1];
      HitsMembers(rs, init, query, dist, positive, threshold, key, e);
      forall j | 0 <= j < |init|
        ensures init[j] == slots[j]
      {
      }
    }
  }

  /** Record s of rs shares its bucket with the query in table t, passes
      the threshold, and e is what search reports for it. */
  predicate Reports<R, Q, K(==)>(rs: seq<R>, hash: (R, nat) -> nat, qhash: (Q, nat) -> nat, query: Q, dist: (R, Q) -> real,
                             positive: bool, threshold: Floats.FloatValue, key: R -> K, t: nat, s: nat, e: (K, real)) {
    s < |rs| && hash(rs[s], t) == qhash(query, t) && Passes(positive, dist(rs[s], query), threshold)
    && e == (key(rs[s]), dist(rs[s], query))
  }

  /** One table's share of search: the records of the query's bucket. */
  lemma BucketHits<R, Q, K>(rs: seq<R>, hash: (R, nat) -> nat, qhash: (Q, nat) -> nat, query: Q, dist: (R, Q) -> real,
                            positive: bool, threshold: Floats.FloatValue, key: R -> K, t: nat, e: (K, real))
    ensures e in Hits(rs, HashedTo(rs, hash, t, qhash(query, t)), query, dist, positive, threshold, key) <==>
      exists s: nat :: Reports(rs, hash, qhash, query, dist, positive, threshold, key, t, s, e)
  {
    var h := HashedTo(rs, hash, t, qhash(query, t));
    HashedToMembers(rs, hash, t, qhash(query, t));
    HitsMembers(rs, h, query, dist, positive, threshold, key, e);
    if e in Hits(rs, h, query, dist, positive, threshold, key) {
      var j :| 0 <= j < |h| && Passes(positive, dist(rs[h[j]], query), threshold)
        && e == (key(rs[h[j]]), dist(rs[h[j]], query));
      assert h[j] in h;
      assert Reports(rs, hash, qhash, query, dist, positive, threshold, key, t, h[j], e);
    }
    if exists s: nat :: Reports(rs, hash, qhash, query, dist, positive, threshold, key, t, s, e) {
      var s :| Reports(rs, hash, qhash, query, dist, positive, threshold, key, t, s, e);
      assert s in h;
      var j :| 0 <= j < |h| && h[j] == s;
    }
  }

  /** Some record of rs shares its bucket with the query in one of the
      first n tables, passes the threshold, and e is what search reports
      for it. */
  ghost predicate Reported<R, Q, K>(rs: seq<R>, hash: (R, nat) -> nat, qhash: (Q, nat) -> nat, query: Q,
                                       dist: (R, Q) -> real, positive: bool, threshold: Floats.FloatValue,
                                       key: R -> K, n: nat, e: (K, real)) {
    exists t: nat, s: nat :: t < n && Reports(rs, hash, qhash, query, dist, positive, threshold, key, t, s, e)
  }

  lemma ReportedSplit<R, Q, K>(rs: seq<R>, hash: (R, nat) -> nat, qhash: (Q, nat) -> nat, query: Q,
                               dist: (R, Q) -> real, positive: bool, threshold: Floats.FloatValue,
                               key: R -> K, m: nat, e: (K, real))
    ensures Reported(rs, hash, qhash, query, dist, positive, threshold, key, m + 1, e) <==>
      Reported(rs, hash, qhash, query, dist, positive, threshold, key, m, e)
      || exists s: nat :: Reports(rs, hash, qhash, query, dist, positive, threshold, key, m, s, e)
  {
    if Reported(rs, hash, qhash, query, dist, positive, threshold, key, m + 1, e) {
      var t: nat, s: nat :| t < m + 1 && Reports(rs, hash, qhash, query, dist, positive, threshold, key, t, s, e);
      if t < m {
        assert Reported(rs, hash, qhash, query, dist, positive, threshold, key, m, e);
      }
    }
    if exists s: nat :: Reports(rs, hash, qhash, query, dist, positive, threshold, key, m, s, e) {
      var s: nat :| Reports(rs, hash, qhash, query, dist, positive, threshold, key, m, s, e);
      assert Reported(rs, hash, qhash, query, dist, positive, threshold, key, m + 1, e);
    }
  }

  /** A pair is reported exactly when some record passes the threshold and
      shares a bucket with the query in one of the tables. */
  lemma {:induction false} ProbeMembers<R, Q, K>(rs: seq<R>, hash: (R, nat) -> nat, qhash: (Q, nat) -> nat, query: Q,
                                                 dist: (R, Q) -> real, positive: bool, threshold: Floats.FloatValue,
                                                 key: R -> K, n: nat, e: (K, real))
    ensures e in Probe(rs, hash, qhash, query, dist, positive, threshold, key, n) <==>
      Reported(rs, hash, qhash, query, dist, positive, threshold, key, n, e)
  {
    if n > 0 {
      var m := n - 1;
      ProbeMembers(rs, hash, qhash, query, dist, positive, threshold, key, m, e);
      BucketHits(rs, hash, qhash, query, dist, positive, threshold, key, m, e);
      ReportedSplit(rs, hash, qhash, query, dist, positive, threshold, key, m, e);
      var hits := Hits(rs, HashedTo(rs, hash, m, qhash(query, m)), query, dist, positive, threshold, key);
      assert Probe(rs, hash, qhash, query, dist, positive, threshold, key, n)
        == Probe(rs, hash, qhash, query, dist, positive, threshold, key, m) + hits;
    }
  }

  /** What brutal emits: the keys of the records, in order, whose distance
      is at least the threshold. */
  function Scan<R, Q, K>(rs: seq<R>, query: Q, dist: (R, Q) -> real, threshold: Floats.FloatValue, key: R -> K): seq<K> {
    if rs == [] then []
    else
      var r := rs[|rs| - 1];
      Scan(rs[..|rs| - 1], query, dist, threshold, key)
        + (if Passes(true, dist(r, query), threshold) then [key(r)] else [])
  }

  lemma {:induction false} ScanMembers<R, Q, K>(rs: seq<R>, query: Q, dist: (R, Q) -> real, threshold: Floats.FloatValue,
                                                key: R -> K, k: K)
    ensures k in Scan(rs, query, dist, threshold, key) <==>
      exists s :: 0 <= s < |rs| && Passes(true, dist(rs[s], query), threshold) && k == key(rs[s])
  {
    if rs != [] {
      var init := rs[..|rs| - 1];
      ScanMembers(init, query, dist, threshold, key, k);
      forall s | 0 <= s < |init|
        ensures init[s] == rs[s]
      {
      }
    }
  }

  // --------------------------------------------------------- accounting

  function SumNat(s: seq<nat>): nat {
    if s == [] then 0 else SumNat(s[..|s| - 1]) + s[|s| - 1]
  }

  /** The records held in the last blocks of the buckets of a table. */
  function SumTails(s: seq<Bucket>): nat {
    if s == [] then 0 else SumTails(s[..|s| - 1]) + s[|s| - 1].tail
  }

  lemma {:induction false} SumNatUpdate(s: seq<nat>, i: nat, v: nat)
    requires i < |s|
    ensures SumNat(s[i := v]) + s[i] == SumNat(s) + v
  {
    if i < |s| - 1 {
      SumNatUpdate(s[..|s| - 1], i, v);
      assert s[i := v][..|s| - 1] == s[..|s| - 1][i := v];
    } else {
      assert s[i := v][..|s| - 1] == s[..|s| - 1];
    }
  }

  lemma {:induction false} SumNatBound(s: seq<nat>, c: nat)
    requires forall i :: 0 <= i < |s| ==> s[i] <= c
    ensures SumNat(s) <= |s| * c
  {
    if s != [] {
      SumNatBound(s[..|s| - 1], c);
    }
  }

  lemma {:induction false} SumTailsUpdate(s: seq<Bucket>, i: nat, v: Bucket)
    requires i < |s|
    ensures SumTails(s[i := v]) + s[i].tail == SumTails(s) + v.tail
  {
    if i < |s| - 1 {
      SumTailsUpdate(s[..|s| - 1], i, v);
      assert s[i := v][..|s| - 1] == s[..|s| - 1][i := v];
    } else {
      assert s[i := v][..|s| - 1] == s[..|s| - 1];
    }
  }

  lemma {:induction false} SumTailsAtLeast(s: seq<Bucket>, i: nat)
    requires i < |s|
    ensures s[i].tail <= SumTails(s)
  {
    if i < |s| - 1 {
      SumTailsAtLeast(s[..|s| - 1], i);
    }
  }

  /** T floor(m / 31) <= floor(m T / 31). */
  lemma FloorMul(t: nat, m: nat)
    ensures t * (m / BLOCK_MAX) <= m * t / BLOCK_MAX
  {
    var q := m / BLOCK_MAX;
    assert BLOCK_MAX * (t * q) <= m * t;
    MulDivLe(t * q, m * t);
  }

  lemma MulDivLe(a: nat, b: nat)
    requires BLOCK_MAX * a <= b
    ensures a <= b / BLOCK_MAX
  {
  }

  lemma {:induction false} ZeroSum(s: seq<nat>)
    requires forall i :: 0 <= i < |s| ==> s[i] == 0
    ensures SumNat(s) == 0
  {
    if s != [] {
      ZeroSum(s[..|s| - 1]);
    }
  }

  lemma {:induction false} ZeroTails(s: seq<Bucket>)
    requires forall i :: 0 <= i < |s| ==> s[i].tail == 0
    ensures SumTails(s) == 0
  {
    if s != [] {
      ZeroTails(s[..|s| - 1]);
    }
  }

  lemma MaxBlocksAtMost(t: nat, ts: nat, mr: nat, mb: nat, n: nat)
    requires MaxBlocks(t, ts, mr) <= mb && n == t * ts
    ensures n <= mb
  {
  }

  lemma MulAtMost(a: nat, b: nat, c: nat)
    requires a <= b
    ensures a * c <= b * c
  {
  }

  /** The fill count of a table after one of its buckets took a record:
      a full last block (31 records) is replaced by an added block holding
      one. */
  lemma Account(row: seq<Bucket>, h: nat, bk: Bucket, e: nat, n: nat, grew: bool)
    requires h < |row| && BLOCK_MAX * e + SumTails(row) == n
    requires row[h].tail <= BLOCK_MAX && (grew <==> row[h].tail >= BLOCK_MAX)
    requires bk.tail == (if grew then 1 else row[h].tail + 1)
    ensures BLOCK_MAX * (e + (if grew then 1 else 0)) + SumTails(row[h := bk]) == n + 1
  {
    SumTailsUpdate(row, h, bk);
  }

  /** Appending a record adds its number to the one bucket it hashes to. */
  lemma HashedToNext<R>(rs: seq<R>, rec: R, hash: (R, nat) -> nat, t: nat, b: nat)
    ensures HashedTo(rs + [rec], hash, t, b) == HashedTo(rs, hash, t, b) + (if hash(rec, t) == b then [|rs|] else [])
  {
    assert (rs + [rec])[..|rs|] == rs;
  }

  // ------------------------------------------------------------- layout

  /** The block layout of an index: the blocks, how many of them are in
      use, the buckets of every table and, as bookkeeping, each bucket's
      chain of blocks, the record numbers it holds, the bucket owning each
      block in use and how many blocks each table has added. */
  datatype Layout = Layout(bs: seq<Block>, nB: nat, tables: seq<seq<Bucket>>, chain: seq<seq<seq<nat>>>,
                           items: seq<seq<seq<nat>>>, owner: seq<(nat, nat)>, extra: seq<nat>)

  /** The capacities of an index: T tables of ts buckets, room for mr
      records and mb blocks. */
  datatype Dims = Dims(T: nat, ts: nat, mr: nat, mb: nat)

  /** The buckets of all tables, ts per table: every bucket is a
      well-formed chain and every chained block belongs to exactly the
      bucket `owner` names, so no two chains share a block. */
  ghost predicate Chains(L: Layout, ts: nat) {
    |L.chain| == |L.tables| && |L.items| == |L.tables| && |L.owner| == L.nB && L.nB <= |L.bs|
    && (forall t :: 0 <= t < |L.tables| ==> |L.tables[t]| == ts && |L.chain[t]| == ts && |L.items[t]| == ts)
    && (forall t, b :: 0 <= t < |L.tables| && 0 <= b < ts ==>
          BucketOk(L.bs, L.nB, L.tables[t][b], L.chain[t][b], L.items[t][b]))
    && (forall t, b, q :: 0 <= t < |L.tables| && 0 <= b < ts && 0 <= q < |L.chain[t][b]| ==>
          L.owner[L.chain[t][b][q]] == (t, b))
  }

  /** Bucket b of table t exists and its last block is a block of the
      pool, as is the next unused block if there is one. */
  ghost predicate Reach(L: Layout, t: nat, b: nat) {
    t < |L.tables| && b < |L.tables[t]| && t < |L.chain| && b < |L.chain[t]|
    && t < |L.items| && b < |L.items[t]| && t < |L.extra|
    && L.tables[t][b].last < |L.bs| && L.tables[t][b].tail <= BLOCK_MAX
    && |L.bs[L.tables[t][b].last].data| == BLOCK_MAX
    && (L.nB < |L.bs| ==> |L.bs[L.nB].data| == BLOCK_MAX)
  }

  /** addToBucket does not run out of blocks: the last block has room, or
      the pool has a block left. */
  ghost predicate Room(L: Layout, t: nat, b: nat) {
    Reach(L, t, b) && (L.tables[t][b].tail >= BLOCK_MAX ==> L.nB < |L.bs|)
  }

  /** The allocation step of addToBucket: block nB is linked after the full
      last block of the bucket and becomes its last, empty block. */
  ghost function Grow(L: Layout, t: nat, b: nat): Layout
    requires Room(L, t, b) && L.tables[t][b].tail >= BLOCK_MAX
  {
    var bk := L.tables[t][b];
    var n := L.nB;
    var bs1 := L.bs[bk.last := L.bs[bk.last].(next := n)];
    L.(bs := bs1[n := bs1[n].(next := -1)], nB := n + 1,
       tables := L.tables[t := L.tables[t][b := bk.(last := n, tail := 0)]],
       chain := L.chain[t := L.chain[t][b := L.chain[t][b] + [n]]],
       owner := L.owner + [(t, b)], extra := L.extra[t := L.extra[t] + 1])
  }

  /** The store step of addToBucket: record number i goes to slot tail of
      the last block. */
  ghost function Put(L: Layout, t: nat, b: nat, i: nat): Layout
    requires t < |L.tables| && b < |L.tables[t]| && t < |L.items| && b < |L.items[t]|
    requires L.tables[t][b].last < |L.bs| && L.tables[t][b].tail < |L.bs[L.tables[t][b].last].data|
  {
    var bk := L.tables[t][b];
    var lb := L.bs[bk.last];
    L.(bs := L.bs[bk.last := lb.(data := lb.data[bk.tail := i])],
       tables := L.tables[t := L.tables[t][b := bk.(tail := bk.tail + 1, count := bk.count + 1)]],
       items := L.items[t := L.items[t][b := L.items[t][b] + [i]]])
  }

  /** addToBucket(&tables[t][b], i); without room it throws and changes
      nothing. */
  ghost function Place(L: Layout, t: nat, b: nat, i: nat): Layout {
    if !Room(L, t, b) then L
    else if L.tables[t][b].tail >= BLOCK_MAX then Put(Grow(L, t, b), t, b, i)
    else Put(L, t, b, i)
  }

  /** The first i rounds of append's loop for record number n, whose
      bucket in table t is hash(rec, t). */
  ghost function PlaceAll<R>(L: Layout, rec: R, hash: (R, nat) -> nat, n: nat, i: nat): Layout {
    if i == 0 then L else Place(PlaceAll(L, rec, hash, n, i - 1), i - 1, hash(rec, i - 1), n)
  }

  /** The allocation step keeps every bucket a chain. */
  lemma GrowBuckets(L: Layout, ts: nat, t: nat, b: nat)
    requires Chains(L, ts) && t < |L.tables| && b < ts && Room(L, t, b) && L.tables[t][b].tail >= BLOCK_MAX
    ensures var G := Grow(L, t, b);
      forall u, c :: 0 <= u < |G.tables| && 0 <= c < ts ==> BucketOk(G.bs, G.nB, G.tables[u][c], G.chain[u][c], G.items[u][c])
  {
    var G := Grow(L, t, b);
    var bk := L.tables[t][b];
    BucketExtend(L.bs, L.nB, bk, L.chain[t][b], L.items[t][b], L.nB);
    forall u, c | 0 <= u < |G.tables| && 0 <= c < ts && (u, c) != (t, b)
      ensures BucketOk(G.bs, G.nB, G.tables[u][c], G.chain[u][c], G.items[u][c])
    {
      var ch := L.chain[u][c];
      forall q | 0 <= q < |ch|
        ensures G.bs[ch[q]] == L.bs[ch[q]]
      {
        assert L.owner[ch[q]] == (u, c);
        assert L.owner[bk.last] == (t, b);
      }
      BucketFrame(L.bs, G.bs, L.nB, G.nB, L.tables[u][c], ch, L.items[u][c]);
    }
  }

  /** The allocation step gives the new block to its bucket. */
  lemma GrowOwners(L: Layout, ts: nat, t: nat, b: nat)
    requires Chains(L, ts) && t < |L.tables| && b < ts && Room(L, t, b) && L.tables[t][b].tail >= BLOCK_MAX
    ensures var G := Grow(L, t, b);
      forall u, c, q :: 0 <= u < |G.tables| && 0 <= c < ts && 0 <= q < |G.chain[u][c]| ==> G.owner[G.chain[u][c][q]] == (u, c)
  {
    var G := Grow(L, t, b);
    forall u, c, q | 0 <= u < |G.tables| && 0 <= c < ts && 0 <= q < |G.chain[u][c]|
      ensures G.owner[G.chain[u][c][q]] == (u, c)
    {
      if q < |L.chain[u][c]| {
        assert BucketOk(L.bs, L.nB, L.tables[u][c], L.chain[u][c], L.items[u][c]);
        assert G.chain[u][c][q] == L.chain[u][c][q];
      }
    }
  }

  lemma GrowChains(L: Layout, ts: nat, t: nat, b: nat)
    requires Chains(L, ts) && t < |L.tables| && b < ts && Room(L, t, b) && L.tables[t][b].tail >= BLOCK_MAX
    ensures Chains(Grow(L, t, b), ts)
  {
    GrowBuckets(L, ts, t, b);
    GrowOwners(L, ts, t, b);
  }

  /** The store step keeps every bucket a chain. */
  lemma PutBuckets(L: Layout, ts: nat, t: nat, b: nat, i: nat)
    requires Chains(L, ts) && t < |L.tables| && b < ts && L.tables[t][b].tail < BLOCK_MAX
    ensures var P := Put(L, t, b, i);
      forall u, c :: 0 <= u < |P.tables| && 0 <= c < ts ==> BucketOk(P.bs, P.nB, P.tables[u][c], P.chain[u][c], P.items[u][c])
  {
    var bk := L.tables[t][b];
    assert BucketOk(L.bs, L.nB, bk, L.chain[t][b], L.items[t][b]);
    var P := Put(L, t, b, i);
    BucketAppend(L.bs, L.nB, bk, L.chain[t][b], L.items[t][b], i);
    forall u, c | 0 <= u < |P.tables| && 0 <= c < ts && (u, c) != (t, b)
      ensures BucketOk(P.bs, P.nB, P.tables[u][c], P.chain[u][c], P.items[u][c])
    {
      var ch := L.chain[u][c];
      forall q | 0 <= q < |ch|
        ensures P.bs[ch[q]] == L.bs[ch[q]]
      {
        assert L.owner[ch[q]] == (u, c);
        assert L.owner[bk.last] == (t, b);
      }
      BucketFrame(L.bs, P.bs, L.nB, P.nB, L.tables[u][c], ch, L.items[u][c]);
    }
  }

  /** The store step keeps every bucket a chain. */
  lemma PutChains(L: Layout, ts: nat, t: nat, b: nat, i: nat)
    requires Chains(L, ts) && t < |L.tables| && b < ts && L.tables[t][b].tail < BLOCK_MAX
    ensures Chains(Put(L, t, b, i), ts)
  {
    PutBuckets(L, ts, t, b, i);
    var P := Put(L, t, b, i);
    assert P.chain == L.chain && P.owner == L.owner;
  }

  /** The block discipline: every bucket is a chain, and the blocks in use
      are the initial one per bucket plus those the tables added, within
      the pool. */
  ghost predicate Core(L: Layout, d: Dims) {
    |L.bs| == d.mb && MaxBlocks(d.T, d.ts, d.mr) <= d.mb
    && |L.tables| == d.T && |L.extra| == d.T
    && L.nB == d.T * d.ts + SumNat(L.extra) && L.nB <= d.mb
    && (forall x :: 0 <= x < |L.bs| ==> |L.bs[x].data| == BLOCK_MAX)
    && Chains(L, d.ts)
  }

  /** Table t holds the records rs: each bucket the numbers of the records
      hashed to it, and the blocks the table added together with the fill
      of its last blocks account for all of them. */
  ghost predicate Holds<R>(L: Layout, t: nat, rs: seq<R>, hash: (R, nat) -> nat) {
    t < |L.tables| && t < |L.items| && t < |L.extra|
    && BLOCK_MAX * L.extra[t] + SumTails(L.tables[t]) == |rs|
    && forall b :: 0 <= b < |L.items[t]| ==> L.items[t][b] == HashedTo(rs, hash, t, b)
  }

  /** An index over the records rs. */
  ghost predicate Inv<R>(L: Layout, d: Dims, rs: seq<R>, hash: (R, nat) -> nat) {
    |rs| <= d.mr && Core(L, d) && forall t :: 0 <= t < d.T ==> Holds(L, t, rs, hash)
  }

  /** Half way through append's loop: the tables before i hold the new
      record rec, the others do not yet. */
  ghost predicate Partial<R>(L: Layout, d: Dims, rs: seq<R>, rec: R, hash: (R, nat) -> nat, i: nat) {
    |rs| < d.mr && i <= d.T && Core(L, d)
    && (forall t :: 0 <= t < i ==> Holds(L, t, rs + [rec], hash))
    && (forall t :: i <= t < d.T ==> Holds(L, t, rs, hash))
  }

  /** Placing into table i changes no other table. */
  lemma PlaceOthers(L: Layout, i: nat, h: nat, n: nat, t: nat)
    requires t != i && t < |L.tables| && t < |L.items| && t < |L.extra|
    ensures var L' := Place(L, i, h, n);
      t < |L'.tables| && t < |L'.items| && t < |L'.extra|
      && L'.tables[t] == L.tables[t] && L'.items[t] == L.items[t] && L'.extra[t] == L.extra[t]
  {
  }

  /** When no table has added more than m / 31 blocks and table i can add
      one more, the added blocks stay within m T / 31. */
  lemma ExtraRoom(e: seq<nat>, i: nat, m: nat)
    requires i < |e| && BLOCK_MAX * (e[i] + 1) <= m
    requires forall t :: 0 <= t < |e| ==> BLOCK_MAX * e[t] <= m
    ensures SumNat(e) + 1 <= m * |e| / BLOCK_MAX
  {
    var e' := e[i := e[i] + 1];
    forall t | 0 <= t < |e'|
      ensures e'[t] <= m / BLOCK_MAX
    {
      MulDivLe(e'[t], m);
    }
    SumNatBound(e', m / BLOCK_MAX);
    SumNatUpdate(e, i, e[i] + 1);
    FloorMul(|e|, m);
  }

  /** In the middle of append's loop the pool has a block for table i:
      every table has added at most (n + 1) / 31 blocks for the n + 1
      records, and table i, whose full last block holds 31 of its n, can
      add one more. */
  lemma RoomStep<R>(L: Layout, d: Dims, rs: seq<R>, rec: R, hash: (R, nat) -> nat, i: nat)
    ensures Partial(L, d, rs, rec, hash, i) && i < d.T && hash(rec, i) < d.ts ==> Room(L, i, hash(rec, i))
  {
    if Partial(L, d, rs, rec, hash, i) && i < d.T && hash(rec, i) < d.ts {
      RoomAt(L, d, rs, rec, hash, i);
    }
  }

  lemma RoomAt<R>(L: Layout, d: Dims, rs: seq<R>, rec: R, hash: (R, nat) -> nat, i: nat)
    requires Partial(L, d, rs, rec, hash, i) && i < d.T && hash(rec, i) < d.ts
    ensures Room(L, i, hash(rec, i))
  {
    var h := hash(rec, i);
    var bk := L.tables[i][h];
    assert BucketOk(L.bs, L.nB, bk, L.chain[i][h], L.items[i][h]);
    if bk.tail >= BLOCK_MAX {
      assert Holds(L, i, rs, hash);
      SumTailsAtLeast(L.tables[i], h);
      forall t | 0 <= t < |L.extra|
        ensures BLOCK_MAX * L.extra[t] <= d.mr
      {
        if t < i {
          assert Holds(L, t, rs + [rec], hash);
        } else {
          assert Holds(L, t, rs, hash);
        }
      }
      ExtraRoom(L.extra, i, d.mr);
    }
  }

  /** The allocation step keeps the block discipline. */
  lemma GrowCore(L: Layout, d: Dims, i: nat, h: nat)
    requires Core(L, d) && Room(L, i, h) && i < d.T && h < d.ts && L.tables[i][h].tail >= BLOCK_MAX
    ensures Core(Grow(L, i, h), d)
  {
    GrowChains(L, d.ts, i, h);
    SumNatUpdate(L.extra, i, L.extra[i] + 1);
  }

  /** The store step keeps the block discipline. */
  lemma PutCore(L: Layout, d: Dims, i: nat, h: nat, n: nat)
    requires Core(L, d) && i < d.T && h < d.ts && L.tables[i][h].tail < BLOCK_MAX
    ensures Core(Put(L, i, h, n), d)
  {
    PutChains(L, d.ts, i, h, n);
  }

  /** One round keeps the block discipline. */
  lemma CoreStep(L: Layout, d: Dims, i: nat, h: nat, n: nat)
    requires Core(L, d) && Room(L, i, h) && i < d.T && h < d.ts
    ensures Core(Place(L, i, h, n), d)
  {
    if L.tables[i][h].tail >= BLOCK_MAX {
      GrowCore(L, d, i, h);
      PutCore(Grow(L, i, h), d, i, h, n);
    } else {
      PutCore(L, d, i, h, n);
    }
  }

  /** One round adds record number |rs| to table i. */
  lemma HoldsStep<R>(L: Layout, d: Dims, rs: seq<R>, rec: R, hash: (R, nat) -> nat, i: nat)
    requires Core(L, d) && Holds(L, i, rs, hash) && i < d.T && hash(rec, i) < d.ts && Room(L, i, hash(rec, i))
    ensures Holds(Place(L, i, hash(rec, i), |rs|), i, rs + [rec], hash)
  {
    var h := hash(rec, i);
    var L' := Place(L, i, h, |rs|);
    var row := L.tables[i];
    assert BucketOk(L.bs, L.nB, row[h], L.chain[i][h], L.items[i][h]);
    var grew := row[h].tail >= BLOCK_MAX;
    assert L'.tables[i] == row[h := L'.tables[i][h]];
    Account(row, h, L'.tables[i][h], L.extra[i], |rs|, grew);
    forall b | 0 <= b < |L'.items[i]|
      ensures L'.items[i][b] == HashedTo(rs + [rec], hash, i, b)
    {
      HashedToNext(rs, rec, hash, i, b);
    }
  }

  /** One round of append's loop. */
  lemma PlaceStep<R>(L: Layout, d: Dims, rs: seq<R>, rec: R, hash: (R, nat) -> nat, i: nat)
    ensures Partial(L, d, rs, rec, hash, i) && i < d.T && hash(rec, i) < d.ts ==>
      Partial(Place(L, i, hash(rec, i), |rs|), d, rs, rec, hash, i + 1)
  {
    if Partial(L, d, rs, rec, hash, i) && i < d.T && hash(rec, i) < d.ts {
      PlaceAt(L, d, rs, rec, hash, i);
    }
  }

  lemma PlaceAt<R>(L: Layout, d: Dims, rs: seq<R>, rec: R, hash: (R, nat) -> nat, i: nat)
    requires Partial(L, d, rs, rec, hash, i) && i < d.T && hash(rec, i) < d.ts
    ensures Partial(Place(L, i, hash(rec, i), |rs|), d, rs, rec, hash, i + 1)
  {
    var h := hash(rec, i);
    var L' := Place(L, i, h, |rs|);
    RoomAt(L, d, rs, rec, hash, i);
    CoreStep(L, d, i, h, |rs|);
    assert Holds(L, i, rs, hash);
    HoldsStep(L, d, rs, rec, hash, i);
    forall t | 0 <= t < i
      ensures Holds(L', t, rs + [rec], hash)
    {
      assert Holds(L, t, rs + [rec], hash);
      PlaceOthers(L, i, h, |rs|, t);
    }
    forall t | i < t < d.T
      ensures Holds(L', t, rs, hash)
    {
      assert Holds(L, t, rs, hash);
      PlaceOthers(L, i, h, |rs|, t);
    }
  }

  /** Where append's loop starts: the tables hold the earlier records rs,
      there is a slot for rec, and its hashes are in range. */
  ghost predicate Start<R>(L0: Layout, d: Dims, rs: seq<R>, rec: R, hash: (R, nat) -> nat) {
    Partial(L0, d, rs, rec, hash, 0) && forall t :: 0 <= t < d.T ==> hash(rec, t) < d.ts
  }

  /** Append's loop, round by round: each round adds the record to one
      more table. */
  lemma {:induction false} PlaceAllKeeps<R>(L0: Layout, d: Dims, rs: seq<R>, rec: R, hash: (R, nat) -> nat, i: nat)
    ensures Start(L0, d, rs, rec, hash) && i <= d.T ==> Partial(PlaceAll(L0, rec, hash, |rs|, i), d, rs, rec, hash, i)
  {
    if i > 0 {
      PlaceAllKeeps(L0, d, rs, rec, hash, i - 1);
      var L := PlaceAll(L0, rec, hash, |rs|, i - 1);
      PlaceStep(L, d, rs, rec, hash, i - 1);
      assert PlaceAll(L0, rec, hash, |rs|, i) == Place(L, i - 1, hash(rec, i - 1), |rs|);
    }
  }

  /** ... and finds the room it needs. */
  lemma PlaceAllRoom<R>(L0: Layout, d: Dims, rs: seq<R>, rec: R, hash: (R, nat) -> nat, i: nat)
    ensures Start(L0, d, rs, rec, hash) && i < d.T ==> Room(PlaceAll(L0, rec, hash, |rs|, i), i, hash(rec, i))
  {
    PlaceAllKeeps(L0, d, rs, rec, hash, i);
    RoomStep(PlaceAll(L0, rec, hash, |rs|, i), d, rs, rec, hash, i);
  }

  /** Before the loop no table holds the new record. */
  lemma PartialStart<R>(L: Layout, d: Dims, rs: seq<R>, rec: R, hash: (R, nat) -> nat)
    ensures Inv(L, d, rs, hash) && |rs| < d.mr ==> Partial(L, d, rs, rec, hash, 0)
  {
  }

  /** After the loop every table holds it. */
  lemma PartialDone<R>(L: Layout, d: Dims, rs: seq<R>, rec: R, hash: (R, nat) -> nat)
    ensures Partial(L, d, rs, rec, hash, d.T) ==> Inv(L, d, rs + [rec], hash)
  {
  }

  /** The bucket bk of table u, number c, as the constructor sets it up: a
      chain of one block of its own, first, and nothing stored. */
  ghost predicate FreshBucket(bk: Bucket, ch: seq<nat>, it: seq<nat>, owner: seq<(nat, nat)>, nB: nat, u: nat, c: nat) {
    bk == Bucket(bk.first, bk.first, 0, 0) && ch == [bk.first] && it == []
    && bk.first < nB && bk.first < |owner| && owner[bk.first] == (u, c)
  }

  /** The first t tables as the constructor sets them up, ts buckets
      each, with nB blocks handed out. */
  ghost predicate Initial(tables: seq<seq<Bucket>>, chain: seq<seq<seq<nat>>>, items: seq<seq<seq<nat>>>,
                          extra: seq<nat>, owner: seq<(nat, nat)>, nB: nat, t: nat, ts: nat) {
    |tables| == t && |chain| == t && |items| == t && |extra| == t && nB == t * ts && |owner| == nB
    && (forall u :: 0 <= u < t ==> extra[u] == 0 && |tables[u]| == ts && |chain[u]| == ts && |items[u]| == ts)
    && (forall u, c :: 0 <= u < t && 0 <= c < ts ==> FreshBucket(tables[u][c], chain[u][c], items[u][c], owner, nB, u, c))
  }

  /** Setting up one more table, whose buckets take the next ts blocks. */
  lemma InitialStep(tables: seq<seq<Bucket>>, chain: seq<seq<seq<nat>>>, items: seq<seq<seq<nat>>>,
                    extra: seq<nat>, owner: seq<(nat, nat)>, nB: nat, t: nat, ts: nat,
                    row: seq<Bucket>, rowChain: seq<seq<nat>>, rowItems: seq<seq<nat>>, owner': seq<(nat, nat)>)
    ensures Initial(tables, chain, items, extra, owner, nB, t, ts)
      && |row| == ts && |rowChain| == ts && |rowItems| == ts && |owner'| == nB + ts && owner'[..nB] == owner
      && (forall c :: 0 <= c < ts ==> FreshBucket(row[c], rowChain[c], rowItems[c], owner', nB + ts, t, c))
      ==> Initial(tables + [row], chain + [rowChain], items + [rowItems], extra + [0], owner', nB + ts, t + 1, ts)
  {
    if Initial(tables, chain, items, extra, owner, nB, t, ts)
      && |row| == ts && |rowChain| == ts && |rowItems| == ts && |owner'| == nB + ts && owner'[..nB] == owner
      && (forall c :: 0 <= c < ts ==> FreshBucket(row[c], rowChain[c], rowItems[c], owner', nB + ts, t, c)) {
      MulSucc(t, ts);
      forall u, c | 0 <= u < t && 0 <= c < ts
        ensures FreshBucket(tables[u][c], chain[u][c], items[u][c], owner', nB + ts, u, c)
      {
        assert FreshBucket(tables[u][c], chain[u][c], items[u][c], owner, nB, u, c);
        assert owner'[tables[u][c].first] == owner[tables[u][c].first];
      }
    }
  }

  /** The blocks of table t, the next t_s after the t * t_s taken, are
      within the pool. */
  lemma RowRoom(t: nat, T: nat, ts: nat, mr: nat, n: nat, len: nat)
    ensures n == t * ts && t < T && MaxBlocks(T, ts, mr) <= len ==> n + ts <= len && n + ts == (t + 1) * ts
  {
    MulSucc(t, ts);
    if t < T {
      MulAtMost(t + 1, T, ts);
    }
  }

  /** The blocks bs with the links of blocks lo until hi set to -1. */
  function Unlink(bs: seq<Block>, lo: nat, hi: nat): (r: seq<Block>)
    ensures |r| == |bs|
    ensures forall x :: 0 <= x < |bs| ==> r[x].data == bs[x].data && r[x].next == (if lo <= x < hi then -1 else bs[x].next)
  {
    seq(|bs|, x requires 0 <= x < |bs| => if lo <= x < hi then bs[x].(next := -1) else bs[x])
  }

  lemma UnlinkNone(bs: seq<Block>)
    ensures forall lo: nat :: Unlink(bs, lo, lo) == bs
  {
  }

  lemma UnlinkOne(bs: seq<Block>, lo: nat, k: nat)
    ensures lo <= k < |bs| ==> Unlink(bs, lo, k)[k := Unlink(bs, lo, k)[k].(next := -1)] == Unlink(bs, lo, k + 1)
  {
  }

  lemma UnlinkMore(bs: seq<Block>, mid: nat, hi: nat)
    ensures mid <= hi ==> Unlink(Unlink(bs, 0, mid), mid, hi) == Unlink(bs, 0, hi)
  {
  }

  /** The constructor as a whole: the sizing arithmetic, whose failed
      BOOST_VERIFY on the budget ends the process, then the region and the
      empty tables. */
  method NewIndex<R>(numTables: nat, hashBits: nat, allocate: nat, recordBytes: nat, hash: (R, nat) -> nat, blank: R)
    returns (r: Result<Index<R>>)
    requires Sized(numTables, hashBits, allocate, recordBytes)
    ensures r.Ok? <==> Fits(numTables, hashBits, allocate, recordBytes)
    ensures r.Err? ==> r.error == Abort
    ensures r.Ok? ==>
      && fresh(r.value) && fresh(r.value.blocks) && fresh(r.value.records)
      && r.value.Valid() && r.value.Contents() == []
      && r.value.numTables == numTables && r.value.hashBits == hashBits && r.value.hash == hash
      && r.value.tableSize == Pow2(hashBits)
      && r.value.maxRecords == MaxRecords(numTables, Pow2(hashBits), allocate, recordBytes)
  {
    var c := Capacities(numTables, hashBits, allocate, recordBytes);
    SizingDecides(numTables, hashBits, allocate, recordBytes);
    if c.Err? {
      return Err(Abort);
    }
    var x := new Index<R>(numTables, hashBits, allocate, recordBytes, hash, blank);
    return Ok(x);
  }

  /** The constructor's layout is an empty index. */
  lemma FreshInv<R>(L: Layout, d: Dims, hash: (R, nat) -> nat)
    requires |L.bs| == d.mb && MaxBlocks(d.T, d.ts, d.mr) <= d.mb && L.nB <= |L.bs|
    requires forall x :: 0 <= x < |L.bs| ==> |L.bs[x].data| == BLOCK_MAX
    requires forall x :: 0 <= x < L.nB ==> L.bs[x].next == -1
    requires Initial(L.tables, L.chain, L.items, L.extra, L.owner, L.nB, d.T, d.ts)
    ensures Inv(L, d, [], hash)
  {
    ZeroSum(L.extra);
    forall t, b | 0 <= t < d.T && 0 <= b < d.ts
      ensures BucketOk(L.bs, L.nB, L.tables[t][b], L.chain[t][b], L.items[t][b])
      ensures forall q :: 0 <= q < |L.chain[t][b]| ==> L.owner[L.chain[t][b][q]] == (t, b)
    {
      assert FreshBucket(L.tables[t][b], L.chain[t][b], L.items[t][b], L.owner, L.nB, t, b);
    }
    forall t | 0 <= t < d.T
      ensures Holds(L, t, [], hash)
    {
      ZeroTails(L.tables[t]);
    }
  }

  // -------------------------------------------------------------- index

  /** lsh::Index<Config> for records of type R: `hash(rec, t)` is the
      bucket of rec in table t (Config::hash, for the configured number of
      tables and hash bits).  The ghost state names each bucket's chain of
      blocks and the record numbers it holds, the bucket owning each
      allocated block and the blocks each table has added to its initial
      ones. */
  class Index<R> {
    const numTables: nat
    const hashBits: nat
    const tableSize: nat
    const recordBytes: nat
    const maxRecords: nat
    const maxBlocks: nat
    const hash: (R, nat) -> nat
    const blocks: array<Block>
    const records: array<R>
    var tables: seq<seq<Bucket>>
    var nRecords: nat
    var nBlocks: nat
    ghost var chain: seq<seq<seq<nat>>>
    ghost var items: seq<seq<seq<nat>>>
    ghost var owner: seq<(nat, nat)>
    ghost var extra: seq<nat>

    /** The block layout as a value. */
    ghost function View(): Layout
      reads this, blocks
    {
      Layout(blocks[..], nBlocks, tables, chain, items, owner, extra)
    }

    function Dimensions(): Dims {
      Dims(numTables, tableSize, maxRecords, maxBlocks)
    }

    ghost predicate Valid()
      reads this, blocks, records
    {
      blocks.Length == maxBlocks && records.Length == maxRecords && (blocks as object) != (records as object)
      && nRecords <= maxRecords && Inv(View(), Dimensions(), records[..nRecords], hash)
    }

    /** The records appended so far. */
    ghost function Contents(): seq<R>
      reads this, records
      requires nRecords <= records.Length
    {
      records[..nRecords]
    }

    /** The constructor, for arguments whose sizing does not wrap (the
        region itself is taken as allocated): every bucket starts with one
        empty block of its own. */
    constructor (numTables: nat, hashBits: nat, allocate: nat, recordBytes: nat, hash: (R, nat) -> nat, blank: R)
      requires Fits(numTables, hashBits, allocate, recordBytes)
      ensures Valid() && Contents() == []
      ensures this.numTables == numTables && this.hashBits == hashBits && this.hash == hash
      ensures tableSize == Pow2(hashBits) && maxRecords == MaxRecords(numTables, tableSize, allocate, recordBytes)
        && maxBlocks == MaxBlocks(numTables, tableSize, maxRecords)
      ensures Initial(tables, chain, items, extra, owner, nBlocks, numTables, tableSize)
      ensures fresh(blocks) && fresh(records)
    {
      var ts := Pow2(hashBits);
      var mr := MaxRecords(numTables, ts, allocate, recordBytes);
      var mb := MaxBlocks(numTables, ts, mr);
      this.numTables, this.hashBits, this.tableSize, this.recordBytes := numTables, hashBits, ts, recordBytes;
      this.maxRecords, this.maxBlocks, this.hash := mr, mb, hash;
      // the region's content is unspecified: the links start out invalid
      blocks := new Block[mb](_ => Block(seq(BLOCK_MAX, _ => 0), 0));
      records := new R[mr](_ => blank);
      tables, nRecords, nBlocks := [], 0, 0;
      chain, items, owner, extra := [], [], [], [];
      new;
      SetUp();
      FreshInv(View(), Dimensions(), hash);
      assert records[..nRecords] == [];
    }

    /** The set-up loop of the constructor over the tables. */
    method SetUp()
      requires MaxBlocks(numTables, tableSize, maxRecords) <= blocks.Length
      modifies this`tables, this`chain, this`items, this`owner, this`extra, this`nBlocks, blocks
      ensures Initial(tables, chain, items, extra, owner, nBlocks, numTables, tableSize)
      ensures blocks[..] == Unlink(old(blocks[..]), 0, nBlocks)
    {
      var rows: seq<seq<Bucket>>, n: nat := [], 0;
      ghost var ch: seq<seq<seq<nat>>>, its: seq<seq<seq<nat>>>, ex: seq<nat>, own: seq<(nat, nat)> := [], [], [], [];
      ghost var bs0 := blocks[..];
      UnlinkNone(bs0);
      for t := 0 to numTables
        invariant Initial(rows, ch, its, ex, own, n, t, tableSize)
        invariant blocks[..] == Unlink(bs0, 0, n)
      {
        RowRoom(t, numTables, tableSize, maxRecords, n, blocks.Length);
        var row, rowChain, rowItems, own' := SetUpRow(t, n, own);
        UnlinkMore(bs0, n, n + tableSize);
        InitialStep(rows, ch, its, ex, own, n, t, tableSize, row, rowChain, rowItems, own');
        rows, ch, its, ex, own, n := rows + [row], ch + [rowChain], its + [rowItems], ex + [0], own', n + tableSize;
      }
      tables, chain, items, extra, owner, nBlocks := rows, ch, its, ex, own, n;
    }

    /** The set-up of table t, whose buckets take the blocks from n0 on:
        bucket b takes block n0 + b and terminates its chain. */
    method SetUpRow(t: nat, n0: nat, ghost own0: seq<(nat, nat)>)
      returns (row: seq<Bucket>, ghost rowChain: seq<seq<nat>>, ghost rowItems: seq<seq<nat>>, ghost own: seq<(nat, nat)>)
      requires |own0| == n0 && n0 + tableSize <= blocks.Length
      modifies blocks
      ensures |own| == n0 + tableSize && own[..n0] == own0
      ensures blocks[..] == Unlink(old(blocks[..]), n0, n0 + tableSize)
      ensures |row| == tableSize && |rowChain| == tableSize && |rowItems| == tableSize
      ensures forall c :: 0 <= c < tableSize ==>
        row[c].first == n0 + c && FreshBucket(row[c], rowChain[c], rowItems[c], own, n0 + tableSize, t, c)
    {
      row, rowChain, rowItems, own := [], [], [], own0;
      ghost var bs0 := blocks[..];
      UnlinkNone(bs0);
      for b := 0 to tableSize
        invariant |row| == b && |rowChain| == b && |rowItems| == b
        invariant |own| == n0 + b && own[..n0] == own0
        invariant blocks[..] == Unlink(bs0, n0, n0 + b)
        invariant forall c :: 0 <= c < b ==>
          rowChain[c] == [n0 + c] && rowItems[c] == [] && row[c] == Bucket(n0 + c, n0 + c, 0, 0) && own[n0 + c] == (t, c)
      {
        var e := Bucket(n0 + b, n0 + b, 0, 0);
        UnlinkOne(bs0, n0, n0 + b);
        blocks[e.last] := blocks[e.last].(next := -1);
        row, rowChain, rowItems := row + [e], rowChain + [[n0 + b]], rowItems + [[]];
        own := own + [(t, b)];
      }
    }

    /** append: a full index throws std::bad_alloc and changes nothing;
        otherwise the record takes the next slot and its number is added to
        one bucket per table.  The block pool never runs out. */
    method Append(rec: R) returns (r: Result<()>)
      requires Valid()
      requires nRecords < maxRecords ==> forall t :: 0 <= t < numTables ==> hash(rec, t) < tableSize
      modifies this, blocks, records
      ensures Valid()
      ensures old(nRecords) >= maxRecords ==>
        (r == Err(OutOfMemory) && unchanged(this) && unchanged(blocks) && unchanged(records))
      ensures old(nRecords) < maxRecords ==> r == Ok(()) && Contents() == old(Contents()) + [rec]
    {
      if nRecords >= maxRecords {
        return Err(OutOfMemory);
      }
      ghost var L0, d := View(), Dimensions();
      var n := nRecords;
      ghost var rs := records[..n];
      PartialStart(L0, d, rs, rec, hash);
      nRecords := n + 1;
      records[n] := rec;
      assert records[..n + 1] == rs + [rec];
      for i := 0 to numTables
        invariant View() == PlaceAll(L0, rec, hash, n, i)
        invariant nRecords == n + 1 && records[..n + 1] == rs + [rec]
      {
        var h := hash(rec, i);
        PlaceAllRoom(L0, d, rs, rec, hash, i);
        var ok := AddToBucket(i, h, n);
        // the std::bad_alloc of addToBucket cannot happen here
        assert ok;
      }
      PlaceAllKeeps(L0, d, rs, rec, hash, numTables);
      PartialDone(View(), d, rs, rec, hash);
      return Ok(());
    }

    /** addToBucket(&tables[t][b], i): when the last block is full a new
        block is taken from the pool (std::bad_alloc when there is none,
        changing nothing); then i goes to the next slot of the last block. */
    method AddToBucket(t: nat, b: nat, i: nat) returns (ok: bool)
      requires blocks.Length == maxBlocks && Reach(View(), t, b)
      modifies this`tables, this`nBlocks, this`chain, this`items, this`owner, this`extra, blocks
      ensures ok <==> !(old(tables[t][b].tail) >= BLOCK_MAX && old(nBlocks) >= maxBlocks)
      ensures View() == Place(old(View()), t, b, i)
    {
      if tables[t][b].tail >= BLOCK_MAX {
        if nBlocks >= maxBlocks {
          return false;
        }
        NewBlock(t, b);
      }
      PutSlot(t, b, i);
      ok := true;
    }

    method NewBlock(t: nat, b: nat)
      requires Room(View(), t, b) && tables[t][b].tail >= BLOCK_MAX
      modifies this`tables, this`nBlocks, this`chain, this`owner, this`extra, blocks
      ensures View() == Grow(old(View()), t, b)
    {
      var bk := tables[t][b];
      var n := nBlocks;
      ghost var bs := blocks[..];
      nBlocks := n + 1;
      blocks[bk.last] := blocks[bk.last].(next := n);
      blocks[n] := blocks[n].(next := -1);
      ghost var bs1 := bs[bk.last := bs[bk.last].(next := n)];
      assert blocks[..] == bs1[n := bs1[n].(next := -1)];
      tables := tables[t := tables[t][b := bk.(last := n, tail := 0)]];
      chain := chain[t := chain[t][b := chain[t][b] + [n]]];
      owner := owner + [(t, b)];
      extra := extra[t := extra[t] + 1];
    }

    method PutSlot(t: nat, b: nat, i: nat)
      requires t < |tables| && b < |tables[t]| && t < |items| && b < |items[t]|
      requires tables[t][b].last < blocks.Length && tables[t][b].tail < |blocks[tables[t][b].last].data|
      modifies this`tables, this`items, blocks
      ensures View() == Put(old(View()), t, b, i)
    {
      var bk := tables[t][b];
      var lb := blocks[bk.last];
      blocks[bk.last] := lb.(data := lb.data[bk.tail := i]);
      tables := tables[t := tables[t][b := bk.(tail := bk.tail + 1, count := bk.count + 1)]];
      items := items[t := items[t][b := items[t][b] + [i]]];
    }

    /** capacity(): the number of records the arena has room for. */
    function Capacity(): (r: nat)
      reads this, blocks, records
      ensures Valid() ==> |Contents()| <= r
    {
      maxRecords
    }

    /** size(): the number of records appended. */
    function Size(): (r: nat)
      reads this, records
      requires nRecords <= records.Length
      ensures r == |Contents()|
    {
      nRecords
    }

    /** search: for each table, the bucket the query hashes to is scanned
        block by block, and every record passing the threshold is appended
        to keys with its distance. */
    method Search<Q, K>(query: Q, qhash: (Q, nat) -> nat, dist: (R, Q) -> real, positive: bool,
                        threshold: Floats.FloatValue, key: R -> K, keys0: seq<(K, real)>)
      returns (keys: seq<(K, real)>)
      requires Valid()
      requires forall t :: 0 <= t < numTables ==> qhash(query, t) < tableSize
      ensures keys == keys0 + Probe(Contents(), hash, qhash, query, dist, positive, threshold, key, numTables)
    {
      ValidScannable();
      keys := SearchTables(query, qhash, dist, positive, threshold, key, keys0);
    }

    /** The loop of search over the tables. */
    method SearchTables<Q, K>(query: Q, qhash: (Q, nat) -> nat, dist: (R, Q) -> real, positive: bool,
                              threshold: Floats.FloatValue, key: R -> K, keys0: seq<(K, real)>)
      returns (keys: seq<(K, real)>)
      requires Scannable()
      requires forall t :: 0 <= t < numTables ==> qhash(query, t) < tableSize
      ensures keys == keys0 + Probe(Contents(), hash, qhash, query, dist, positive, threshold, key, numTables)
    {
      keys := keys0;
      ghost var rs := Contents();
      for i := 0 to numTables
        invariant keys == keys0 + Probe(rs, hash, qhash, query, dist, positive, threshold, key, i)
      {
        ghost var before := keys;
        var h := qhash(query, i);
        keys := ScanBucket(i, h, query, dist, positive, threshold, key, keys);
        ProbeNext(rs, hash, qhash, query, dist, positive, threshold, key, i, before, keys, keys0);
      }
    }

    /** Every bucket of the index can be scanned: it is a chain over the
        blocks holding the records that hash to it. */
    ghost predicate Scannable()
      reads this, blocks, records
    {
      nRecords <= records.Length && forall t, b :: 0 <= t < numTables && 0 <= b < tableSize ==> Ready(t, b)
    }

    /** Bucket b of table t is a chain over the blocks holding the records
        that hash to it. */
    ghost predicate Ready(t: nat, b: nat)
      reads this, blocks, records
    {
      nRecords <= records.Length && t < |tables| && b < |tables[t]| && t < |chain| && b < |chain[t]|
      && t < |items| && b < |items[t]|
      && BucketOk(blocks[..], nBlocks, tables[t][b], chain[t][b], items[t][b])
      && items[t][b] == HashedTo(records[..nRecords], hash, t, b)
    }

    lemma ValidScannable()
      ensures Valid() ==> Scannable()
    {
      if Valid() {
        forall t, b | 0 <= t < numTables && 0 <= b < tableSize
          ensures Ready(t, b)
        {
          assert Holds(View(), t, records[..nRecords], hash);
        }
      }
    }

    /** The scan of bucket b of table t: the chain is followed from first to
        last, taking all 31 slots of every block but the last and tail slots
        of the last; the slots scanned add up to count. */
    method ScanBucket<Q, K>(t: nat, b: nat, query: Q, dist: (R, Q) -> real, positive: bool,
                            threshold: Floats.FloatValue, key: R -> K, keys0: seq<(K, real)>)
      returns (keys: seq<(K, real)>)
      requires Scannable() && t < numTables && b < tableSize
      ensures keys == keys0 + Hits(Contents(), HashedTo(Contents(), hash, t, b), query, dist, positive, threshold, key)
    {
      assert Ready(t, b);
      ghost var rs := Contents();
      ghost var ch, its := chain[t][b], items[t][b];
      var bk := tables[t][b];
      keys := keys0;
      var c: nat := 0;
      var n: int := bk.first;
      ghost var q: nat := 0;
      while n >= 0
        invariant q <= |ch|
        invariant q < |ch| ==> n == ch[q]
        invariant q == |ch| ==> n == -1
        invariant c == (if q < |ch| then BLOCK_MAX * q else bk.count)
        invariant keys == keys0 + Hits(rs, its[..c], query, dist, positive, threshold, key)
        decreases |ch| - q
      {
        var m := if n == bk.last then bk.tail else BLOCK_MAX;
        if q < |ch| - 1 {
          assert ch[q] != ch[|ch| - 1];
        }
        var block := blocks[n];
        keys := ScanBlock(block, m, its, rs, c, query, dist, positive, threshold, key, keys0, keys);
        c := c + m;
        n := block.next;
        q := q + 1;
      }
      // BOOST_VERIFY(c == bucket.count)
      assert c == bk.count;
      assert its[..c] == its;
    }

    /** The scan of the first m slots of one block, which hold the record
        numbers its[c..c + m]. */
    method ScanBlock<Q, K>(block: Block, m: nat, ghost its: seq<nat>, ghost rs: seq<R>, ghost c: nat, query: Q,
                           dist: (R, Q) -> real, positive: bool, threshold: Floats.FloatValue, key: R -> K,
                           ghost keys0: seq<(K, real)>, keys1: seq<(K, real)>)
      returns (keys: seq<(K, real)>)
      requires c + m <= |its| && m <= |block.data|
      requires forall j :: 0 <= j < m ==> block.data[j] == its[c + j]
      requires forall k :: 0 <= k < |its| ==> its[k] < |rs|
      requires nRecords <= records.Length && rs == records[..nRecords]
      requires keys1 == keys0 + Hits(rs, its[..c], query, dist, positive, threshold, key)
      ensures keys == keys0 + Hits(rs, its[..c + m], query, dist, positive, threshold, key)
    {
      keys := keys1;
      for j := 0 to m
        invariant keys == keys0 + Hits(rs, its[..c + j], query, dist, positive, threshold, key)
      {
        var r := block.data[j];
        assert r == its[c + j] && r < |rs|;
        var d := dist(records[r], query);
        ghost var k0 := keys;
        if Passes(positive, d, threshold) {
          keys := keys + [(key(records[r]), d)];
        }
        HitsNext(rs, its, c + j, query, dist, positive, threshold, key, keys0, k0, keys);
      }
    }

    /** brutal: every record, in order, whose distance is at least the
        threshold has its key appended to keys. */
    method Brutal<Q, K>(query: Q, dist: (R, Q) -> real, threshold: Floats.FloatValue, key: R -> K, keys0: seq<K>)
      returns (keys: seq<K>)
      requires Valid()
      ensures keys == keys0 + Scan(Contents(), query, dist, threshold, key)
    {
      ghost var rs := records[..nRecords];
      keys := keys0;
      var n := nRecords;
      for r := 0 to n
        invariant keys == keys0 + Scan(rs[..r], query, dist, threshold, key)
      {
        assert records[r] == rs[r] && rs[..r + 1][..r] == rs[..r];
        ghost var k0 := keys;
        if Passes(true, dist(records[r], query), threshold) {
          keys := keys + [key(records[r])];
        }
        Append3(keys0, Scan(rs[..r], query, dist, threshold, key), keys[|k0|..]);
      }
      assert rs[..n] == rs;
    }
  }

  lemma ProbeNext<R, Q, K>(rs: seq<R>, hash: (R, nat) -> nat, qhash: (Q, nat) -> nat, query: Q, dist: (R, Q) -> real,
                           positive: bool, threshold: Floats.FloatValue, key: R -> K, i: nat,
                           before: seq<(K, real)>, after: seq<(K, real)>, keys0: seq<(K, real)>)
    ensures before == keys0 + Probe(rs, hash, qhash, query, dist, positive, threshold, key, i)
            && after == before + Hits(rs, HashedTo(rs, hash, i, qhash(query, i)), query, dist, positive, threshold, key)
            ==> after == keys0 + Probe(rs, hash, qhash, query, dist, positive, threshold, key, i + 1)
  {
  }

  /** One more slot scanned. */
  lemma HitsNext<R, Q, K>(rs: seq<R>, its: seq<nat>, c: nat, query: Q, dist: (R, Q) -> real, positive: bool,
                          threshold: Floats.FloatValue, key: R -> K, keys0: seq<(K, real)>,
                          before: seq<(K, real)>, after: seq<(K, real)>)
    requires c < |its| && forall k :: 0 <= k < |its| ==> its[k] < |rs|
    requires before == keys0 + Hits(rs, its[..c], query, dist, positive, threshold, key)
    requires var d := dist(rs[its[c]], query);
      after == before + (if Passes(positive, d, threshold) then [(key(rs[its[c]]), d)] else [])
    ensures after == keys0 + Hits(rs, its[..c + 1], query, dist, positive, threshold, key)
  {
    assert its[..c + 1][..c] == its[..c];
  }

  lemma Append3<T>(a: seq<T>, b: seq<T>, c: seq<T>)
    ensures a + b + c == a + (b + c)
  {
  }
}
