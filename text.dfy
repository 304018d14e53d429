/** TextObject of src/donkey-text.h: a bag of words, each word a raw
    fixed-size record whose leading bytes hold an int-like feature, plus
    optional object data.  The stream format copies the records' memory
    image. */
module DonkeyText {
  import opened Wrappers
  import opened Arith
  import opened Bytes
  import opened DonkeyCommon

  /** The sizes in bytes of a TextObject's types: `featureSize` is
      sizeof(T), `recordSize` is sizeof(Word) (feature, word data and
      padding), and an `objectDataSize` of 0 stands for tag_no_data. */
  datatype TextLayout = TextLayout(featureSize: nat, recordSize: nat, objectDataSize: nat)

  predicate LayoutOk(l: TextLayout) {
    l.featureSize <= l.recordSize
  }

  predicate RecordsOk(k: nat, ws: seq<seq<Byte>>) {
    forall i :: 0 <= i < |ws| ==> |ws[i]| == k
  }

  /** The feature of a word: its first sizeof(T) bytes, little-endian. */
  function RecordFeature(l: TextLayout, w: seq<Byte>): (f: nat)
    requires LayoutOk(l) && |w| == l.recordSize
    ensures f < WordRange(l.featureSize)
  {
    WordValue(w[..l.featureSize])
  }

  /** A word whose record starts with the bytes of f has feature f. */
  lemma RecordFeatureOf(l: TextLayout, f: nat, tail: seq<Byte>)
    requires LayoutOk(l) && f < WordRange(l.featureSize) && l.featureSize + |tail| == l.recordSize
    ensures RecordFeature(l, LittleEndian(f, l.featureSize) + tail) == f
  {
    var w := LittleEndian(f, l.featureSize) + tail;
    assert w[..l.featureSize] == LittleEndian(f, l.featureSize);
    WordOfBytes(f, l.featureSize);
  }

  /** The memory image of a vector of words: the records back to back. */
  function Flatten(ws: seq<seq<Byte>>): seq<Byte> {
    if ws == [] then [] else ws[0] + Flatten(ws[1..])
  }

  lemma {:induction false} FlattenLength(k: nat, ws: seq<seq<Byte>>)
    requires RecordsOk(k, ws)
    ensures |Flatten(ws)| == k * |ws|
  {
    if ws != [] {
      FlattenLength(k, ws[1..]);
      MulSucc(|ws| - 1, k);
    }
  }

  /** n records of k bytes taken from the front of s, with the bytes after
      them; None when s runs out first. */
  function RecordsFrom(k: nat, n: nat, s: seq<Byte>): (r: Option<(seq<seq<Byte>>, seq<Byte>)>)
    ensures r.Some? ==> |r.value.0| == n && RecordsOk(k, r.value.0)
  {
    if n == 0 then Some(([], s))
    else if |s| < k then None
    else
      match RecordsFrom(k, n - 1, s[k..])
      case None => None
      case Some(more) => Some(([s[..k]] + more.0, more.1))
  }

  /** The records found are a prefix of the input: laid back to back and
      followed by the remaining bytes they give s again. */
  lemma {:induction false} RecordsFromSplits(k: nat, n: nat, s: seq<Byte>)
    requires RecordsFrom(k, n, s).Some?
    ensures Flatten(RecordsFrom(k, n, s).value.0) + RecordsFrom(k, n, s).value.1 == s
  {
    if n > 0 {
      var t := s[k..];
      RecordsFromSplits(k, n - 1, t);
      var more := RecordsFrom(k, n - 1, t).value;
      var ws := RecordsFrom(k, n, s).value.0;
      assert ws == [s[..k]] + more.0;
      assert ws[1..] == more.0;
      assert s == s[..k] + t;
    }
  }

  /** n records are found exactly when s holds at least k * n bytes. */
  lemma {:induction false} RecordsFromEnough(k: nat, n: nat, len: nat, s: seq<Byte>)
    requires len == k * n
    ensures RecordsFrom(k, n, s).Some? <==> len <= |s|
  {
    if n > 0 {
      var m := n - 1;
      MulSucc(m, k);
      if |s| >= k {
        RecordsFromEnough(k, m, k * m, s[k..]);
      }
    }
  }

  /** Bytes after the records do not change which records are found. */
  lemma {:induction false} RecordsFromExtend(k: nat, n: nat, s: seq<Byte>, t: seq<Byte>)
    requires RecordsFrom(k, n, s).Some?
    ensures RecordsFrom(k, n, s + t) == Some((RecordsFrom(k, n, s).value.0, RecordsFrom(k, n, s).value.1 + t))
  {
    if n > 0 {
      assert (s + t)[..k] == s[..k] && (s + t)[k..] == s[k..] + t;
      RecordsFromExtend(k, n - 1, s[k..], t);
    }
  }

  lemma {:induction false} RecordsRoundTrip(k: nat, ws: seq<seq<Byte>>, t: seq<Byte>)
    requires RecordsOk(k, ws)
    ensures RecordsFrom(k, |ws|, Flatten(ws) + t) == Some((ws, t))
  {
    if ws == [] {
      assert Flatten(ws) + t == t;
    } else {
      var tail := ws[1..];
      RecordsRoundTrip(k, tail, t);
      var s := Flatten(ws) + t;
      assert s == ws[0] + (Flatten(tail) + t);
      assert s[..k] == ws[0] && s[k..] == Flatten(tail) + t;
      assert [ws[0]] + tail == ws;
    }
  }

  /** The u32 count `write` stores: the number of words truncated to 32
      bits. */
  function TextCount(ws: seq<seq<Byte>>): (c: nat)
    ensures c <= |ws| && c < WordRange(4)
  {
    WordRange4();
    |ws| % 0x1_0000_0000
  }

  /** TextObject::write: the count, the memory image of that many words,
      then the object data unless its type is tag_no_data. */
  function TextBytes(ws: seq<seq<Byte>>, data: seq<Byte>): seq<Byte> {
    LittleEndian(TextCount(ws), 4) + Flatten(ws[..TextCount(ws)]) + data
  }

  /** What TextObject::read makes of the bytes s. */
  function DecodeText(l: TextLayout, s: seq<Byte>): (r: ReadOutcome<(seq<seq<Byte>>, seq<Byte>)>)
    ensures !r.Aborted?
    ensures r.Decoded? ==> RecordsOk(l.recordSize, r.value.0) && |r.value.1| == l.objectDataSize
  {
    if |s| < 4 then Short
    else
      match RecordsFrom(l.recordSize, WordValue(s[..4]), s[4..])
      case None => Short
      case Some(wr) =>
        if |wr.1| < l.objectDataSize then Short
        else Decoded((wr.0, wr.1[..l.objectDataSize]), wr.1[l.objectDataSize..])
  }

  /** read(write(t)) == t, leaving the bytes after the object in the
      stream, for fewer than 2^32 words. */
  lemma TextRoundTrip(l: TextLayout, ws: seq<seq<Byte>>, data: seq<Byte>, rest: seq<Byte>)
    requires RecordsOk(l.recordSize, ws) && |data| == l.objectDataSize && |ws| < 0x1_0000_0000
    ensures DecodeText(l, TextBytes(ws, data) + rest) == Decoded((ws, data), rest)
  {
    var head, body := LittleEndian(|ws|, 4), Flatten(ws);
    var s := TextBytes(ws, data) + rest;
    var t := data + rest;
    WordRange4();
    assert ws[..TextCount(ws)] == ws;
    assert s == head + (body + t);
    assert s[..4] == head && s[4..] == body + t;
    WordOfBytes(|ws|, 4);
    RecordsRoundTrip(l.recordSize, ws, t);
    assert t[..|data|] == data && t[|data|..] == rest;
  }

  /** 2^32 words or more: only the words below the truncated count are
      written. */
  lemma TextCountWraps(ws: seq<seq<Byte>>)
    requires |ws| == 0x1_0000_0000
    ensures TextCount(ws) == 0 && TextBytes(ws, []) == [0, 0, 0, 0]
  {
    assert ws[..0] == [];
  }

  /** istream::read of |dst| bytes into dst: the bytes extracted from src
      overwrite the front of dst and the rest keeps its old content. */
  function Fill(src: seq<Byte>, dst: seq<Byte>): (r: seq<Byte>)
    ensures |r| == |dst|
    ensures |src| >= |dst| ==> r == src[..|dst|]
    ensures |src| < |dst| ==> r[..|src|] == src && r[|src|..] == dst[|src|..]
  {
    if |src| >= |dst| then src[..|dst|] else src + dst[|src|..]
  }

  /** enumerate: (i, feature of word i) for every word, in order. */
  function EnumerateWords(l: TextLayout, ws: seq<seq<Byte>>): (r: seq<(nat, nat)>)
    requires LayoutOk(l) && RecordsOk(l.recordSize, ws)
    ensures |r| == |ws|
    ensures forall i :: 0 <= i < |r| ==> r[i] == (i, RecordFeature(l, ws[i]))
  {
    if ws == [] then []
    else EnumerateWords(l, ws[..|ws| - 1]) + [(|ws| - 1, RecordFeature(l, ws[|ws| - 1]))]
  }

  class TextObject {
    const layout: TextLayout
    var words: seq<seq<Byte>>
    var data: seq<Byte>

    ghost predicate Valid()
      reads this
    {
      LayoutOk(layout) && RecordsOk(layout.recordSize, words) && |data| == layout.objectDataSize
    }

    constructor (layout: TextLayout, words: seq<seq<Byte>>, data: seq<Byte>)
      requires LayoutOk(layout) && RecordsOk(layout.recordSize, words) && |data| == layout.objectDataSize
      ensures Valid() && this.layout == layout && this.words == words && this.data == data
    {
      this.layout, this.words, this.data := layout, words, data;
    }

    function Enumerate(): (r: seq<(nat, nat)>)
      reads this
      requires Valid()
      ensures r == EnumerateWords(layout, words)
    {
      EnumerateWords(layout, words)
    }

    method Write(os: OutStream)
      requires Valid()
      modifies os
      ensures os.bytes == old(os.bytes) + TextBytes(words, data)
    {
      var sz := |words| % 0x1_0000_0000;
      WordRange4();
      os.Write(LittleEndian(sz, 4));
      os.Write(Flatten(words[..sz]));
      if layout.objectDataSize > 0 {
        os.Write(data);
      }
    }

    /** TextObject::read.  The words are resized (new words are
        value-initialised, all bytes zero) only when the count was read;
        one read then fills their memory image, and the object data is read
        only if the stream is still good. */
    method Read(ins: InStream)
      requires Valid() && ins.Valid()
      modifies this, ins
      ensures Valid() && ins.Valid()
      ensures old(ins.good) && DecodeText(layout, old(ins.Rest())).Decoded? ==>
        ins.good && words == DecodeText(layout, old(ins.Rest())).value.0
          && data == DecodeText(layout, old(ins.Rest())).value.1
          && ins.Rest() == DecodeText(layout, old(ins.Rest())).rest
      ensures old(ins.good) && DecodeText(layout, old(ins.Rest())).Short? ==> !ins.good
      ensures old(ins.good) && 4 <= |old(ins.Rest())| ==>
        Flatten(words) == Fill(old(ins.Rest())[4..],
                               Flatten(Resize(old(words), WordValue(old(ins.Rest())[..4]), Zeros(layout.recordSize))))
      ensures !(old(ins.good) && 4 <= |old(ins.Rest())|) ==> words == old(words) && data == old(data)
    {
      ghost var s, g0 := ins.Rest(), ins.good;
      var got := ins.Read(4);
      if ins.good {
        var sz := WordValue(got);
        var k := layout.recordSize;
        var buf := Flatten(Resize(words, sz, Zeros(k)));
        ghost var dst := buf;
        ghost var body := ins.Rest();
        var len := k * sz;
        FlattenLength(k, Resize(words, sz, Zeros(k)));
        var fill := ins.Read(len);
        buf := fill + buf[|fill|..];
        RecordsFromEnough(k, sz, len, buf);
        words := RecordsFrom(k, sz, buf).value.0;
        RecordsFromSplits(k, sz, buf);
        FlattenLength(k, words);
        RecordsFromEnough(k, sz, len, body);
        FillRecords(k, sz, len, body, dst, buf, words, RecordsFrom(k, sz, buf).value.1, ins.good);
      }
      if ins.good {
        data := ReadField(ins, layout.objectDataSize, data);
      }
    }

    /** swap: exchanges words and data. */
    method Swap(v: TextObject)
      modifies this, v
      ensures words == old(v.words) && v.words == old(words)
      ensures data == old(v.data) && v.data == old(data)
    {
      words, v.words := v.words, words;
      data, v.data := v.data, data;
    }
  }

  /** The single read of the words' memory image: on a full read the
      records decoded from the image are those at the front of the stream,
      on a short read the stream does not hold that many records. */
  lemma FillRecords(k: nat, sz: nat, len: nat, body: seq<Byte>, dst: seq<Byte>, buf: seq<Byte>,
                    ws: seq<seq<Byte>>, r: seq<Byte>, good: bool)
    requires |dst| == len && |buf| == len && |Flatten(ws)| == len
    requires RecordsFrom(k, sz, buf) == Some((ws, r)) && Flatten(ws) + r == buf
    requires RecordsFrom(k, sz, body).Some? <==> len <= |body|
    requires good ==> len <= |body| && buf == body[..len]
    requires !good ==> len > |body| && buf == body + dst[|body|..]
    ensures Flatten(ws) == Fill(body, dst)
    ensures good ==> RecordsFrom(k, sz, body) == Some((ws, body[len..]))
    ensures !good ==> RecordsFrom(k, sz, body).None?
  {
    assert |Flatten(ws) + r| == len + |r|;
    assert r == [];
    assert Flatten(ws) + r == Flatten(ws);
    if good {
      FillFull(k, sz, len, body, dst, buf, ws);
    } else {
      assert Fill(body, dst) == body + dst[|body|..];
    }
  }

  lemma FillFull(k: nat, sz: nat, len: nat, body: seq<Byte>, dst: seq<Byte>, buf: seq<Byte>, ws: seq<seq<Byte>>)
    requires |dst| == len && len <= |body| && buf == body[..len]
    requires RecordsFrom(k, sz, buf) == Some((ws, []))
    ensures RecordsFrom(k, sz, body) == Some((ws, body[len..]))
  {
    var t := body[len..];
    RecordsFromExtend(k, sz, buf, t);
    assert buf + t == body;
    assert [] + t == t;
  }

  /** k value-initialised bytes. */
  function Zeros(k: nat): (r: seq<Byte>)
    ensures |r| == k && forall i :: 0 <= i < k ==> r[i] == 0
  {
    seq(k, _ => 0)
  }
}
