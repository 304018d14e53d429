/** The feature and object types of src/donkey-common.h: similarity
    polarity, the fixed-width VectorFeature and its byte layout, the integer
    Hamming distances, single- and multi-part objects with their stream
    formats, and the trivial and counting matchers.  The byte-level
    BitHamming of plugins/qbic-orb/config.h is here as well. */
module DonkeyCommon {
  import opened Wrappers
  import opened Arith
  import opened Bits
  import opened Bytes

  // ------------------------------------------------------------ polarity

  /** The similarity classes: `PositiveSimilarity` (larger is closer) and
      `NegativeSimilarity`, which `distance::Distance` names. */
  datatype Similarity = PositiveSimilarity | NegativeSimilarity

  /** The `POLARITY` constant of a similarity. */
  function Polarity(s: Similarity): (r: int)
    ensures r == 1 || r == -1
    ensures r > 0 <==> s.PositiveSimilarity?
  {
    match s
    case PositiveSimilarity => 1
    case NegativeSimilarity => -1
  }

  /** The feature similarities of the modelled code and the class each
      derives from. */
  datatype FeatureSimilarity = Cosine | L1 | L2 | Hamming | TypeHamming | BitHamming

  function SimilarityOf(f: FeatureSimilarity): (s: Similarity)
    ensures s.PositiveSimilarity? <==> f.Cosine?
  {
    if f.Cosine? then PositiveSimilarity else NegativeSimilarity
  }

  /** The matchers: TrivialMatcher takes the polarity of its feature
      similarity, CountingMatcher is positive and EMDMatcher negative. */
  datatype Matcher = TrivialMatcher(feature: FeatureSimilarity) | CountingMatcher | EMDMatcher

  function MatcherPolarity(m: Matcher): (r: int)
    ensures m.TrivialMatcher? ==> r == Polarity(SimilarityOf(m.feature))
    ensures m.CountingMatcher? ==> r == 1
    ensures m.EMDMatcher? ==> r == -1
  {
    match m
    case TrivialMatcher(f) => Polarity(SimilarityOf(f))
    case CountingMatcher => 1
    case EMDMatcher => -1
  }

  /** Every distance named in the code is negative, and a trivial matcher
      over a distance is negative too. */
  lemma DistancesAreNegative(f: FeatureSimilarity)
    requires f != Cosine
    ensures Polarity(SimilarityOf(f)) == -1 && MatcherPolarity(TrivialMatcher(f)) == -1
  {
  }

  // ------------------------------------------------------- vector feature

  /** VectorFeature<T, D>: D words of `width` = sizeof(T) bytes each. */
  predicate FeatureOk(width: nat, dim: nat, f: seq<nat>) {
    |f| == dim && forall i :: 0 <= i < |f| ==> f[i] < WordRange(width)
  }

  /** The bytes `write` emits: the words in order, each in memory order. */
  function FeatureBytes(width: nat, f: seq<nat>): (r: seq<Byte>)
    requires forall i :: 0 <= i < |f| ==> f[i] < WordRange(width)
    ensures |r| == width * |f|
  {
    if f == [] then []
    else
      var r := LittleEndian(f[0], width) + FeatureBytes(width, f[1..]);
      MulSucc(|f| - 1, width);
      r
  }

  /** The words `read` fills from `dim * width` bytes. */
  function FeatureOf(width: nat, dim: nat, s: seq<Byte>): (f: seq<nat>)
    requires |s| == width * dim
    ensures FeatureOk(width, dim, f)
  {
    if dim == 0 then []
    else
      MulSucc(dim - 1, width);
      [WordValue(s[..width])] + FeatureOf(width, dim - 1, s[width..])
  }

  /** read(write(f)) == f. */
  lemma {:induction false} FeatureRoundTrip(width: nat, dim: nat, f: seq<nat>)
    requires FeatureOk(width, dim, f)
    ensures FeatureOf(width, dim, FeatureBytes(width, f)) == f
  {
    if dim > 0 {
      var s := FeatureBytes(width, f);
      var head := LittleEndian(f[0], width);
      assert s == head + FeatureBytes(width, f[1..]);
      assert s[..width] == head && s[width..] == FeatureBytes(width, f[1..]);
      WordOfBytes(f[0], width);
      FeatureRoundTrip(width, dim - 1, f[1..]);
    }
  }

  /** write(read(s)) == s: every byte string of the right length is some
      feature. */
  lemma {:induction false} FeatureBytesOf(width: nat, dim: nat, s: seq<Byte>)
    requires |s| == width * dim
    ensures FeatureBytes(width, FeatureOf(width, dim, s)) == s
  {
    if dim > 0 {
      MulSucc(dim - 1, width);
      var head, tail := s[..width], s[width..];
      var f := FeatureOf(width, dim, s);
      var g := FeatureOf(width, dim - 1, tail);
      assert f == [WordValue(head)] + g;
      assert f[0] == WordValue(head) && f[1..] == g;
      FeatureBytesOf(width, dim - 1, tail);
      BytesOfWord(head);
      assert FeatureBytes(width, f) == head + tail;
      assert s == head + tail;
    }
  }

  /** VectorFeature::write. */
  method WriteFeature(os: OutStream, width: nat, dim: nat, f: seq<nat>)
    requires FeatureOk(width, dim, f)
    modifies os
    ensures os.bytes == old(os.bytes) + FeatureBytes(width, f)
  {
    os.Write(FeatureBytes(width, f));
  }

  /** VectorFeature::read into a feature that held `f`: a short read
      leaves the bytes after the extracted ones as they were. */
  method ReadFeature(ins: InStream, width: nat, dim: nat, f: seq<nat>) returns (f': seq<nat>)
    requires ins.Valid() && FeatureOk(width, dim, f)
    modifies ins
    ensures ins.Valid() && FeatureOk(width, dim, f')
    ensures old(ins.good) && width * dim <= |old(ins.Rest())| ==>
      ins.good && f' == FeatureOf(width, dim, old(ins.Rest())[..width * dim])
        && ins.Rest() == old(ins.Rest())[width * dim..]
    ensures old(ins.good) && width * dim > |old(ins.Rest())| ==> !ins.good && ins.Rest() == []
    ensures !old(ins.good) ==> !ins.good && ins.Rest() == old(ins.Rest())
  {
    var got := ins.Read(width * dim);
    var bytes := FeatureBytes(width, f);
    if |got| == width * dim {
      assert got + bytes[|got|..] == got;
    }
    f' := FeatureOf(width, dim, got + bytes[|got|..]);
  }

  // ------------------------------------------------------------ distances

  /** hamming_with_popcount: the sum over the words of popcount(v1[i] ^
      v2[i]); `Hamming` (on 32- or 64-bit words) and the byte-wise
      `BitHamming` both compute it. */
  function HammingDistance(v1: seq<nat>, v2: seq<nat>): (d: nat)
    requires |v1| == |v2|
  {
    if v1 == [] then 0
    else HammingDistance(v1[..|v1| - 1], v2[..|v2| - 1]) + Popcount(Xor(v1[|v1| - 1], v2[|v2| - 1]))
  }

  lemma {:induction false} HammingSymmetric(v1: seq<nat>, v2: seq<nat>)
    requires |v1| == |v2|
    ensures HammingDistance(v1, v2) == HammingDistance(v2, v1)
  {
    if v1 != [] {
      HammingSymmetric(v1[..|v1| - 1], v2[..|v2| - 1]);
      XorComm(v1[|v1| - 1], v2[|v2| - 1]);
    }
  }

  /** The distance is zero exactly on identical features. */
  lemma {:induction false} HammingZero(v1: seq<nat>, v2: seq<nat>)
    requires |v1| == |v2|
    ensures HammingDistance(v1, v2) == 0 <==> v1 == v2
  {
    if v1 != [] {
      var n := |v1| - 1;
      HammingZero(v1[..n], v2[..n]);
      XorZero(v1[n], v2[n]);
      PopcountZero(Xor(v1[n], v2[n]));
      if v1[..n] == v2[..n] && v1[n] == v2[n] {
        assert v1 == v1[..n] + [v1[n]] && v2 == v2[..n] + [v2[n]];
      }
    }
  }

  /** With words of w bits the distance is at most w per word. */
  lemma {:induction false} HammingBound(v1: seq<nat>, v2: seq<nat>, w: nat)
    requires |v1| == |v2|
    requires forall i :: 0 <= i < |v1| ==> v1[i] < Pow2(w) && v2[i] < Pow2(w)
    ensures HammingDistance(v1, v2) <= w * |v1|
  {
    if v1 != [] {
      var n := |v1| - 1;
      HammingBound(v1[..n], v2[..n], w);
      XorBound(v1[n], v2[n], w);
      PopcountBound(Xor(v1[n], v2[n]), w);
      MulSucc(n, w);
    }
  }

  /** TypeHamming: the number of positions where the features differ. */
  function TypeHammingDistance(v1: seq<nat>, v2: seq<nat>): (d: nat)
    requires |v1| == |v2|
  {
    if v1 == [] then 0
    else TypeHammingDistance(v1[..|v1| - 1], v2[..|v2| - 1]) + (if v1[|v1| - 1] != v2[|v2| - 1] then 1 else 0)
  }

  lemma {:induction false} TypeHammingProperties(v1: seq<nat>, v2: seq<nat>)
    requires |v1| == |v2|
    ensures TypeHammingDistance(v1, v2) <= |v1|
    ensures TypeHammingDistance(v1, v2) == TypeHammingDistance(v2, v1)
    ensures TypeHammingDistance(v1, v2) == 0 <==> v1 == v2
  {
    if v1 != [] {
      var n := |v1| - 1;
      TypeHammingProperties(v1[..n], v2[..n]);
      if v1[..n] == v2[..n] && v1[n] == v2[n] {
        assert v1 == v1[..n] + [v1[n]] && v2 == v2[..n] + [v2[n]];
      }
    }
  }

  /** QBIC_DIM of the ORB plugin: a feature is 64 bytes. */
  const QbicDim: nat := 64

  /** The ORB plugin's BitHamming<QBIC_DIM> lies in 0..512, and is zero
      exactly on equal features. */
  lemma BitHammingRange(v1: seq<Byte>, v2: seq<Byte>)
    requires |v1| == |v2| == QbicDim
    ensures HammingDistance(v1, v2) <= 512
    ensures HammingDistance(v1, v2) == 0 <==> v1 == v2
  {
    assert Pow2(8) == 256 by {
      assert Pow2(4) == 16;
    }
    HammingBound(v1, v2, 8);
    HammingZero(v1, v2);
  }

  // ------------------------------------------------------------- matchers

  /** TrivialMatcher::apply: the value of the first hint; no hint is a
      BOOST_VERIFY failure. */
  function TrivialApply(hints: seq<real>): (r: Result<real>)
    ensures hints == [] <==> r == Err(Abort)
    ensures hints != [] ==> r == Ok(hints[0])
  {
    if hints == [] then Err(Abort) else Ok(hints[0])
  }

  /** The counting loop of CountingMatcher::apply. */
  function CountHints(hints: seq<real>): (n: nat) {
    if hints == [] then 0 else CountHints(hints[1..]) + 1
  }

  lemma {:induction false} CountHintsIsLength(hints: seq<real>)
    ensures CountHints(hints) == |hints|
  {
    if hints != [] {
      CountHintsIsLength(hints[1..]);
    }
  }

  /** CountingMatcher::apply: the number of hints; no hint is a
      BOOST_VERIFY failure. */
  function CountingApply(hints: seq<real>): (r: Result<real>)
    ensures hints == [] <==> r == Err(Abort)
    ensures hints != [] ==> r == Ok(|hints| as real)
  {
    if hints == [] then Err(Abort)
    else
      CountHintsIsLength(hints);
      Ok(CountHints(hints) as real)
  }

  // -------------------------------------------------------------- objects

  /** The outcome of decoding an object from the bytes a stream holds:
      the value and the bytes after it, too few bytes (the stream fails),
      or a count over the limit (a BOOST_VERIFY failure). */
  datatype ReadOutcome<T> = Decoded(value: T, rest: seq<Byte>) | Short | Aborted

  /** SingleFeatureObject<T>: one feature, read and written as the
      feature itself. */
  class SingleFeatureObject {
    const width: nat
    const dim: nat
    var feature: seq<nat>

    ghost predicate Valid()
      reads this
    {
      FeatureOk(width, dim, feature)
    }

    constructor (width: nat, dim: nat, feature: seq<nat>)
      requires FeatureOk(width, dim, feature)
      ensures Valid() && this.width == width && this.dim == dim && this.feature == feature
    {
      this.width, this.dim, this.feature := width, dim, feature;
    }

    /** enumerate: the single feature, under tag 0. */
    function Enumerate(): (r: seq<(nat, seq<nat>)>)
      reads this
      ensures |r| == 1 && r[0].0 == 0 && r[0].1 == feature
    {
      [(0, feature)]
    }

    method Read(ins: InStream)
      requires Valid() && ins.Valid()
      modifies this, ins
      ensures Valid() && ins.Valid()
      ensures old(ins.good) && width * dim <= |old(ins.Rest())| ==>
        ins.good && feature == FeatureOf(width, dim, old(ins.Rest())[..width * dim])
          && ins.Rest() == old(ins.Rest())[width * dim..]
      ensures !(old(ins.good) && width * dim <= |old(ins.Rest())|) ==> !ins.good
    {
      feature := ReadFeature(ins, width, dim, feature);
    }

    method Write(os: OutStream)
      requires Valid()
      modifies os
      ensures os.bytes == old(os.bytes) + FeatureBytes(width, feature)
    {
      WriteFeature(os, width, dim, feature);
    }

    method Swap(v: SingleFeatureObject)
      modifies this, v
      ensures feature == old(v.feature) && v.feature == old(feature)
    {
      feature, v.feature := v.feature, feature;
    }
  }

  /** The sizes in bytes of a MultiPartObject's types: the feature has
      `dim` words of `width` bytes; a size of 0 stands for tag_no_weight or
      tag_no_data, whose fields are never read or written. */
  datatype PartLayout = PartLayout(width: nat, dim: nat, weightSize: nat, partDataSize: nat, objectDataSize: nat)

  datatype Part = Part(feature: seq<nat>, weight: seq<Byte>, data: seq<Byte>)

  predicate PartOk(l: PartLayout, p: Part) {
    FeatureOk(l.width, l.dim, p.feature) && |p.weight| == l.weightSize && |p.data| == l.partDataSize
  }

  function PartSize(l: PartLayout): nat {
    l.weightSize + l.partDataSize + l.width * l.dim
  }

  /** One part as `write` emits it: [weight][data] feature. */
  function PartBytes(l: PartLayout, p: Part): (r: seq<Byte>)
    requires PartOk(l, p)
    ensures |r| == PartSize(l)
  {
    p.weight + p.data + FeatureBytes(l.width, p.feature)
  }

  /** The part `read` fills from PartSize(l) bytes. */
  function PartOf(l: PartLayout, s: seq<Byte>): (p: Part)
    requires |s| == PartSize(l)
    ensures PartOk(l, p)
  {
    var a, b := l.weightSize, l.weightSize + l.partDataSize;
    Part(FeatureOf(l.width, l.dim, s[b..]), s[..a], s[a..b])
  }

  lemma PartRoundTrip(l: PartLayout, p: Part)
    requires PartOk(l, p)
    ensures PartOf(l, PartBytes(l, p)) == p
  {
    var s := PartBytes(l, p);
    var a, b := l.weightSize, l.weightSize + l.partDataSize;
    assert s[..a] == p.weight && s[a..b] == p.data && s[b..] == FeatureBytes(l.width, p.feature);
    FeatureRoundTrip(l.width, l.dim, p.feature);
  }

  predicate PartsOk(l: PartLayout, ps: seq<Part>) {
    forall i :: 0 <= i < |ps| ==> PartOk(l, ps[i])
  }

  /** The parts as `write` emits them, in order. */
  function PartsBytes(l: PartLayout, ps: seq<Part>): seq<Byte>
    requires PartsOk(l, ps)
  {
    if ps == [] then [] else PartBytes(l, ps[0]) + PartsBytes(l, ps[1..])
  }

  /** n parts decoded from the front of s, with the bytes after them; None
      when s runs out first. */
  function PartsFrom(l: PartLayout, n: nat, s: seq<Byte>): (r: Option<(seq<Part>, seq<Byte>)>)
    ensures r.Some? ==> |r.value.0| == n && PartsOk(l, r.value.0)
  {
    if n == 0 then Some(([], s))
    else if |s| < PartSize(l) then None
    else
      match PartsFrom(l, n - 1, s[PartSize(l)..])
      case None => None
      case Some(more) => Some(([PartOf(l, s[..PartSize(l)])] + more.0, more.1))
  }

  /** Decoding n parts from a part image followed by more bytes: that part,
      then n - 1 parts from the bytes after it. */
  lemma PartsFromCons(l: PartLayout, n: nat, x: seq<Byte>, rest: seq<Byte>)
    requires n >= 1 && |x| == PartSize(l)
    ensures PartsFrom(l, n, x + rest) == Glue([PartOf(l, x)], PartsFrom(l, n - 1, rest))
  {
    var s := x + rest;
    assert s[..PartSize(l)] == x && s[PartSize(l)..] == rest;
  }

  lemma {:induction false} PartsRoundTrip(l: PartLayout, ps: seq<Part>, t: seq<Byte>)
    requires PartsOk(l, ps)
    ensures PartsFrom(l, |ps|, PartsBytes(l, ps) + t) == Some((ps, t))
  {
    if ps != [] {
      var tail := ps[1..];
      PartsRoundTrip(l, tail, t);
      PartsRoundTripStep(l, ps, tail, t);
    } else {
      assert PartsBytes(l, ps) + t == t;
    }
  }

  lemma PartsRoundTripStep(l: PartLayout, ps: seq<Part>, tail: seq<Part>, t: seq<Byte>)
    requires PartsOk(l, ps) && ps != [] && tail == ps[1..]
    requires PartsFrom(l, |tail|, PartsBytes(l, tail) + t) == Some((tail, t))
    ensures PartsFrom(l, |ps|, PartsBytes(l, ps) + t) == Some((ps, t))
  {
    var x, y := PartBytes(l, ps[0]), PartsBytes(l, tail);
    var n, m := |ps|, |tail|;
    assert m == n - 1;
    assert PartsBytes(l, ps) + t == x + (y + t);
    PartsFromCons(l, n, x, y + t);
    PartRoundTrip(l, ps[0]);
    assert [ps[0]] + tail == ps;
  }

  /** The u16 count `write` stores: parts.size() truncated to 16 bits. */
  function PartCount(ps: seq<Part>): (c: nat)
    ensures c < WordRange(2)
  {
    |ps| % 65536
  }

  /** MultiPartObject::write: the count, the parts, then the object data
      if there is an object data type. */
  function MultiPartBytes(l: PartLayout, ps: seq<Part>, data: seq<Byte>): seq<Byte>
    requires PartsOk(l, ps)
  {
    LittleEndian(PartCount(ps), 2) + PartsBytes(l, ps) + data
  }

  /** What MultiPartObject::read makes of the bytes s: a count above
      maxFeatures fails the BOOST_VERIFY. */
  function DecodeMultiPart(l: PartLayout, maxFeatures: nat, s: seq<Byte>): (r: ReadOutcome<(seq<Part>, seq<Byte>)>)
    ensures r.Decoded? ==> |r.value.0| <= maxFeatures && PartsOk(l, r.value.0) && |r.value.1| == l.objectDataSize
  {
    if |s| < 2 then Short
    else
      var n := WordValue(s[..2]);
      if n > maxFeatures then Aborted
      else
        match PartsFrom(l, n, s[2..])
        case None => Short
        case Some(pr) =>
          if |pr.1| < l.objectDataSize then Short
          else Decoded((pr.0, pr.1[..l.objectDataSize]), pr.1[l.objectDataSize..])
  }

  /** read(write(o)) == o, and the bytes after the object are left in the
      stream, whenever the object has no more than maxFeatures parts (and
      fewer than 65536, so that the u16 count is exact). */
  lemma MultiPartRoundTrip(l: PartLayout, maxFeatures: nat, ps: seq<Part>, data: seq<Byte>, rest: seq<Byte>)
    requires PartsOk(l, ps) && |data| == l.objectDataSize
    requires |ps| <= maxFeatures && |ps| < 65536
    ensures DecodeMultiPart(l, maxFeatures, MultiPartBytes(l, ps, data) + rest) == Decoded((ps, data), rest)
  {
    var head, body := LittleEndian(|ps|, 2), PartsBytes(l, ps);
    var s := MultiPartBytes(l, ps, data) + rest;
    var t := data + rest;
    assert s == head + (body + t);
    assert s[..2] == head && s[2..] == body + t;
    WordOfBytes(|ps|, 2);
    PartsRoundTrip(l, ps, t);
    assert t[..|data|] == data && t[|data|..] == rest;
  }

  /** A count over maxFeatures in the stream is a BOOST_VERIFY failure. */
  lemma MultiPartTooMany(l: PartLayout, maxFeatures: nat, s: seq<Byte>)
    requires |s| >= 2 && WordValue(s[..2]) > maxFeatures
    ensures DecodeMultiPart(l, maxFeatures, s) == Aborted
  {
  }

  lemma GlueEmpty(r: Option<(seq<Part>, seq<Byte>)>)
    ensures Glue([], r) == r
  {
    if r.Some? {
      assert [] + r.value.0 == r.value.0;
    }
  }

  /** Decoded parts after a prefix already read: the outcome of the whole
      decode once `pre` is known. */
  function Glue(pre: seq<Part>, r: Option<(seq<Part>, seq<Byte>)>): Option<(seq<Part>, seq<Byte>)> {
    match r
    case None => None
    case Some(pr) => Some((pre + pr.0, pr.1))
  }

  /** enumerate: each part's feature under its index as tag, in part
      order. */
  function EnumerateParts(ps: seq<Part>): (r: seq<(nat, seq<nat>)>)
    ensures |r| == |ps|
    ensures forall i :: 0 <= i < |r| ==> r[i].0 == i && r[i].1 == ps[i].feature
  {
    if ps == [] then []
    else EnumerateParts(ps[..|ps| - 1]) + [(|ps| - 1, ps[|ps| - 1].feature)]
  }

  /** vector::resize: cut to n elements, or add copies of the
      value-initialised element `blank`. */
  function Resize<T>(ps: seq<T>, n: nat, blank: T): (r: seq<T>)
    ensures |r| == n
    ensures forall i :: 0 <= i < n ==> r[i] == (if i < |ps| then ps[i] else blank)
  {
    if n <= |ps| then ps[..n] else ps + seq(n - |ps|, _ => blank)
  }

  /** The bytes of one part, as the loop body of `write` emits them. */
  method WritePart(os: OutStream, l: PartLayout, p: Part)
    requires PartOk(l, p)
    modifies os
    ensures os.bytes == old(os.bytes) + PartBytes(l, p)
  {
    if l.weightSize > 0 {
      os.Write(p.weight);
    }
    if l.partDataSize > 0 {
      os.Write(p.data);
    }
    WriteFeature(os, l.width, l.dim, p.feature);
  }

  /** istream::read of a fixed-size field that held `v`, when its type is
      not a tag type (size n > 0); a short read leaves the bytes after the
      extracted ones as they were. */
  method ReadField(ins: InStream, n: nat, v: seq<Byte>) returns (v': seq<Byte>)
    requires ins.Valid() && |v| == n
    modifies ins
    ensures ins.Valid() && |v'| == n
    ensures old(ins.good) && n <= |old(ins.Rest())| ==>
      ins.good && v' == old(ins.Rest())[..n] && ins.Rest() == old(ins.Rest())[n..]
    ensures !(old(ins.good) && n <= |old(ins.Rest())|) ==> !ins.good
  {
    v' := v;
    if n > 0 {
      var got := ins.Read(n);
      v' := got + v[|got|..];
    }
  }

  /** The loop body of `read`: weight, data and feature of a part that
      held p. */
  method ReadPart(ins: InStream, l: PartLayout, p: Part) returns (p': Part)
    requires ins.Valid() && PartOk(l, p)
    modifies ins
    ensures ins.Valid() && PartOk(l, p')
    ensures old(ins.good) && PartSize(l) <= |old(ins.Rest())| ==>
      ins.good && p' == PartOf(l, old(ins.Rest())[..PartSize(l)]) && ins.Rest() == old(ins.Rest())[PartSize(l)..]
    ensures !(old(ins.good) && PartSize(l) <= |old(ins.Rest())|) ==> !ins.good
  {
    ghost var r0, g0 := ins.Rest(), ins.good;
    var w := ReadField(ins, l.weightSize, p.weight);
    ghost var r1, g1 := ins.Rest(), ins.good;
    var d := ReadField(ins, l.partDataSize, p.data);
    ghost var r2, g2 := ins.Rest(), ins.good;
    var f := ReadFeature(ins, l.width, l.dim, p.feature);
    p' := Part(f, w, d);
    PartFromFields(l, r0, r1, r2, ins.Rest(), g0, g1, g2, ins.good, p');
  }

  /** The three field reads of ReadPart together extract one part. */
  lemma PartFromFields(l: PartLayout, r0: seq<Byte>, r1: seq<Byte>, r2: seq<Byte>, r3: seq<Byte>,
                       g0: bool, g1: bool, g2: bool, g3: bool, p: Part)
    requires PartOk(l, p)
    requires g0 && l.weightSize <= |r0| ==> g1 && p.weight == r0[..l.weightSize] && r1 == r0[l.weightSize..]
    requires !(g0 && l.weightSize <= |r0|) ==> !g1
    requires g1 && l.partDataSize <= |r1| ==> g2 && p.data == r1[..l.partDataSize] && r2 == r1[l.partDataSize..]
    requires !(g1 && l.partDataSize <= |r1|) ==> !g2
    requires g2 && l.width * l.dim <= |r2| ==>
      g3 && p.feature == FeatureOf(l.width, l.dim, r2[..l.width * l.dim]) && r3 == r2[l.width * l.dim..]
    requires !(g2 && l.width * l.dim <= |r2|) ==> !g3
    ensures g0 && PartSize(l) <= |r0| ==> g3 && p == PartOf(l, r0[..PartSize(l)]) && r3 == r0[PartSize(l)..]
    ensures !(g0 && PartSize(l) <= |r0|) ==> !g3
  {
    var a, d, wd := l.weightSize, l.partDataSize, l.width * l.dim;
    if g0 && PartSize(l) <= |r0| {
      ThreeSlices(r0, a, d, wd);
    }
  }

  /** Three consecutive slices taken off the front of r0 are the three
      pieces of its prefix of length a + d + wd. */
  lemma ThreeSlices(r0: seq<Byte>, a: nat, d: nat, wd: nat)
    requires a + d + wd <= |r0|
    ensures var r1 := r0[a..]; var r2 := r1[d..]; var t := r0[..a + d + wd];
      t[..a] == r0[..a] && t[a..a + d] == r1[..d] && t[a + d..] == r2[..wd] && r2[wd..] == r0[a + d + wd..]
  {
  }

  /** MultiPartObject<T, FEATURE_DATA, W, OBJECT_DATA>. */
  class MultiPartObject {
    const layout: PartLayout
    var parts: seq<Part>
    var data: seq<Byte>

    ghost predicate Valid()
      reads this
    {
      PartsOk(layout, parts) && |data| == layout.objectDataSize
    }

    constructor (layout: PartLayout, parts: seq<Part>, data: seq<Byte>)
      requires PartsOk(layout, parts) && |data| == layout.objectDataSize
      ensures Valid() && this.layout == layout && this.parts == parts && this.data == data
    {
      this.layout, this.parts, this.data := layout, parts, data;
    }

    function Enumerate(): (r: seq<(nat, seq<nat>)>)
      reads this
      ensures r == EnumerateParts(parts)
    {
      EnumerateParts(parts)
    }

    method Write(os: OutStream)
      requires Valid()
      modifies os
      ensures os.bytes == old(os.bytes) + MultiPartBytes(layout, parts, data)
    {
      var head := LittleEndian(PartCount(parts), 2);
      os.Write(head);
      ghost var start := os.bytes;
      assert parts[0..] == parts;
      var i := 0;
      while i < |parts|
        invariant 0 <= i <= |parts| && start == old(os.bytes) + head
        invariant os.bytes + PartsBytes(layout, parts[i..]) == start + PartsBytes(layout, parts)
      {
        WritePartStep(os, layout, parts, i, start + PartsBytes(layout, parts));
        i := i + 1;
      }
      ghost var mid := os.bytes;
      if layout.objectDataSize > 0 {
        os.Write(data);
      }
      WriteDone(old(os.bytes), head, PartsBytes(layout, parts), data, mid, os.bytes);
    }

    /** MultiPartObject::read.  `junk` is the indeterminate value of the
        uninitialised count, which a short read leaves wholly or partly in
        place; `blank` is a value-initialised part.  false is the
        BOOST_VERIFY failure on a count above maxFeatures. */
    method Read(ins: InStream, maxFeatures: nat, junk: nat, blank: Part) returns (ok: bool)
      requires Valid() && ins.Valid() && PartOk(layout, blank) && junk < WordRange(2)
      modifies this, ins
      ensures ins.Valid() && (ok ==> Valid())
      ensures old(ins.good) && DecodeMultiPart(layout, maxFeatures, old(ins.Rest())).Decoded? ==>
        ok && ins.good && parts == DecodeMultiPart(layout, maxFeatures, old(ins.Rest())).value.0
          && data == DecodeMultiPart(layout, maxFeatures, old(ins.Rest())).value.1
          && ins.Rest() == DecodeMultiPart(layout, maxFeatures, old(ins.Rest())).rest
      ensures old(ins.good) && DecodeMultiPart(layout, maxFeatures, old(ins.Rest())).Aborted? ==> !ok
      ensures old(ins.good) && DecodeMultiPart(layout, maxFeatures, old(ins.Rest())).Short? ==> !ins.good
      ensures !old(ins.good) ==> !ins.good && (ok <==> junk <= maxFeatures)
    {
      ghost var s, g0 := ins.Rest(), ins.good;
      var sz := ReadCount(ins, junk);
      if sz > maxFeatures {
        CountAborts(layout, maxFeatures, s, g0, sz, ins.good);
        return false;
      }
      parts := Resize(parts, sz, blank);
      ghost var body := if |s| >= 2 then s[2..] else [];
      ghost var whole := PartsFrom(layout, sz, body);
      ReadParts(ins, sz);
      ghost var after, gl := ins.Rest(), ins.good;
      data := ReadField(ins, layout.objectDataSize, data);
      ReadDone(layout, maxFeatures, s, g0, sz, body, whole, parts, after, gl, data, ins.Rest(), ins.good);
      ok := true;
    }

    /** The loop of MultiPartObject::read over the resized parts. */
    method ReadParts(ins: InStream, sz: nat)
      requires ins.Valid() && |parts| == sz && PartsOk(layout, parts)
      modifies this, ins
      ensures ins.Valid() && |parts| == sz && PartsOk(layout, parts) && data == old(data)
      ensures ins.good ==> old(ins.good) && PartsFrom(layout, sz, old(ins.Rest())) == Some((parts, ins.Rest()))
      ensures old(ins.good) && PartsFrom(layout, sz, old(ins.Rest())).Some? ==> ins.good
    {
      ghost var whole, g0 := PartsFrom(layout, sz, ins.Rest()), ins.good;
      GlueEmpty(whole);
      assert parts[..0] == [];
      var i := 0;
      while i < sz
        invariant 0 <= i <= sz && |parts| == sz && PartsOk(layout, parts) && ins.Valid()
        invariant ins.good ==> g0 && whole == Glue(parts[..i], PartsFrom(layout, sz - i, ins.Rest()))
        invariant g0 && whole.Some? ==> ins.good
        invariant data == old(data)
      {
        ghost var before, pre, wasGood := ins.Rest(), parts[..i], ins.good;
        var p := ReadPart(ins, layout, parts[i]);
        parts := parts[i := p];
        ReadPartsStep(layout, sz, i, whole, before, ins.Rest(), p, pre, parts, g0 && whole.Some?, wasGood, ins.good);
        i := i + 1;
      }
      if ins.good {
        assert parts[..i] + [] == parts;
      }
    }

    method Swap(v: MultiPartObject)
      requires v.layout == layout
      modifies this, v
      ensures parts == old(v.parts) && v.parts == old(parts)
      ensures data == old(v.data) && v.data == old(data)
    {
      parts, v.parts := v.parts, parts;
      data, v.data := v.data, data;
    }
  }

  /** One turn of the loop in MultiPartObject::read: the parts read so
      far, glued to what the rest of the stream decodes to, still give the
      decode of the whole. */
  lemma ReadPartsStep(l: PartLayout, sz: nat, i: nat, whole: Option<(seq<Part>, seq<Byte>)>,
                      before: seq<Byte>, after: seq<Byte>, p: Part, pre: seq<Part>, parts: seq<Part>,
                      enough: bool, wasGood: bool, good: bool)
    requires i < sz && |parts| == sz && parts[i] == p && parts[..i] == pre
    requires wasGood ==> whole == Glue(pre, PartsFrom(l, sz - i, before))
    requires wasGood && PartSize(l) <= |before| ==>
      good && p == PartOf(l, before[..PartSize(l)]) && after == before[PartSize(l)..]
    requires !(wasGood && PartSize(l) <= |before|) ==> !good
    requires enough ==> wasGood && whole.Some?
    ensures good ==> wasGood && whole == Glue(parts[..i + 1], PartsFrom(l, sz - (i + 1), after))
    ensures enough ==> good
  {
    if good {
      assert parts[..i + 1] == pre + [p];
      match PartsFrom(l, sz - (i + 1), after)
      case None =>
      case Some(more) =>
        assert pre + ([p] + more.0) == (pre + [p]) + more.0;
    }
  }

  /** The u16 count read of MultiPartObject::read. */
  method ReadCount(ins: InStream, junk: nat) returns (sz: nat)
    requires ins.Valid() && junk < WordRange(2)
    modifies ins
    ensures ins.Valid()
    ensures old(ins.good) && 2 <= |old(ins.Rest())| ==>
      ins.good && sz == WordValue(old(ins.Rest())[..2]) && ins.Rest() == old(ins.Rest())[2..]
    ensures !(old(ins.good) && 2 <= |old(ins.Rest())|) ==> !ins.good
    ensures !old(ins.good) ==> sz == junk
  {
    var init := LittleEndian(junk, 2);
    var got := ins.Read(2);
    sz := WordValue(got + init[|got|..]);
    if |got| == 2 {
      assert got + init[|got|..] == got;
    }
    if |got| == 0 {
      assert got + init[|got|..] == init;
      WordOfBytes(junk, 2);
    }
  }

  lemma CountAborts(l: PartLayout, maxFeatures: nat, s: seq<Byte>, g0: bool, sz: nat, good: bool)
    requires sz > maxFeatures
    requires g0 && 2 <= |s| ==> good && sz == WordValue(s[..2])
    requires !(g0 && 2 <= |s|) ==> !good
    ensures g0 ==> !DecodeMultiPart(l, maxFeatures, s).Decoded? && (DecodeMultiPart(l, maxFeatures, s).Short? ==> !good)
  {
  }

  /** After the loop and the object-data read, the object holds what
      DecodeMultiPart decodes. */
  lemma ReadDone(l: PartLayout, maxFeatures: nat, s: seq<Byte>, g0: bool, sz: nat, body: seq<Byte>,
                 whole: Option<(seq<Part>, seq<Byte>)>, parts: seq<Part>, after: seq<Byte>, gl: bool,
                 data: seq<Byte>, rest: seq<Byte>, good: bool)
    requires sz <= maxFeatures && body == (if |s| >= 2 then s[2..] else []) && whole == PartsFrom(l, sz, body)
    requires g0 && 2 <= |s| ==> sz == WordValue(s[..2])
    requires gl ==> g0 && |s| >= 2 && whole == Some((parts, after))
    requires g0 && |s| >= 2 && whole.Some? ==> gl
    requires gl && l.objectDataSize <= |after| ==>
      good && data == after[..l.objectDataSize] && rest == after[l.objectDataSize..]
    requires !(gl && l.objectDataSize <= |after|) ==> !good
    ensures g0 && DecodeMultiPart(l, maxFeatures, s).Decoded? ==>
      good && parts == DecodeMultiPart(l, maxFeatures, s).value.0
        && data == DecodeMultiPart(l, maxFeatures, s).value.1 && rest == DecodeMultiPart(l, maxFeatures, s).rest
    ensures g0 ==> !DecodeMultiPart(l, maxFeatures, s).Aborted?
    ensures g0 && DecodeMultiPart(l, maxFeatures, s).Short? ==> !good
    ensures !g0 ==> !good
  {
  }

  /** The loop body of MultiPartObject::write: what is written plus what
      remains to be written stays the whole image. */
  method WritePartStep(os: OutStream, l: PartLayout, ps: seq<Part>, i: nat, ghost goal: seq<Byte>)
    requires PartsOk(l, ps) && i < |ps| && os.bytes + PartsBytes(l, ps[i..]) == goal
    modifies os
    ensures os.bytes + PartsBytes(l, ps[i + 1..]) == goal
  {
    ghost var before := os.bytes;
    WritePart(os, l, ps[i]);
    assert ps[i..][1..] == ps[i + 1..];
    assert PartsBytes(l, ps[i..]) == PartBytes(l, ps[i]) + PartsBytes(l, ps[i + 1..]);
    assert before + (PartBytes(l, ps[i]) + PartsBytes(l, ps[i + 1..])) == os.bytes + PartsBytes(l, ps[i + 1..]);
  }

  lemma WriteDone(o: seq<Byte>, head: seq<Byte>, body: seq<Byte>, data: seq<Byte>, mid: seq<Byte>, fin: seq<Byte>)
    requires mid + [] == o + head + body
    requires fin == mid + data
    ensures fin == o + (head + body + data)
  {
    assert mid + [] == mid;
  }
}
