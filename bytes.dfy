/** Byte strings, the little-endian layout of unsigned words in memory, and
    the two stream operations the object codecs use: `ostream::write` and
    `istream::read` of a fixed number of bytes. */
module Bytes {

  type Byte = b: int | 0 <= b < 256

  /** 256^n: the number of values of an n-byte unsigned word. */
  function WordRange(n: nat): (r: nat)
    ensures r >= 1
  {
    if n == 0 then 1 else 256 * WordRange(n - 1)
  }

  /** A u32 holds 2^32 values. */
  lemma WordRange4()
    ensures WordRange(4) == 0x1_0000_0000
  {
  }

  /** The n bytes of an unsigned word in memory, least significant first. */
  function LittleEndian(v: nat, n: nat): (r: seq<Byte>)
    requires v < WordRange(n)
    ensures |r| == n
  {
    if n == 0 then [] else [v % 256] + LittleEndian(v / 256, n - 1)
  }

  /** The unsigned word whose bytes are s, least significant first. */
  function WordValue(s: seq<Byte>): (v: nat)
    ensures v < WordRange(|s|)
  {
    if s == [] then 0 else s[0] + 256 * WordValue(s[1..])
  }

  lemma {:induction false} WordOfBytes(v: nat, n: nat)
    requires v < WordRange(n)
    ensures WordValue(LittleEndian(v, n)) == v
  {
    if n > 0 {
      WordOfBytes(v / 256, n - 1);
      var s := LittleEndian(v, n);
      assert s[1..] == LittleEndian(v / 256, n - 1);
    }
  }

  lemma {:induction false} BytesOfWord(s: seq<Byte>)
    ensures LittleEndian(WordValue(s), |s|) == s
  {
    if s != [] {
      BytesOfWord(s[1..]);
      var w := WordValue(s[1..]);
      ByteDigits(s[0], w);
      assert s == [s[0]] + s[1..];
    }
  }

  lemma ByteDigits(a: Byte, w: nat)
    ensures (a + 256 * w) % 256 == a && (a + 256 * w) / 256 == w
  {
  }

  /** Writing to a std::ostream that never fails: the bytes are appended. */
  class OutStream {
    var bytes: seq<Byte>

    constructor ()
      ensures bytes == []
    {
      bytes := [];
    }

    method Write(b: seq<Byte>)
      modifies this
      ensures bytes == old(bytes) + b
    {
      bytes := bytes + b;
    }
  }

  /** A std::istream over a byte string.  `good` is false once failbit is
      set. */
  class InStream {
    const data: seq<Byte>
    var pos: nat
    var good: bool

    ghost predicate Valid()
      reads this
    {
      pos <= |data|
    }

    /** The bytes not yet extracted. */
    function Rest(): seq<Byte>
      reads this
      requires Valid()
    {
      data[pos..]
    }

    constructor (d: seq<Byte>)
      ensures Valid() && data == d && pos == 0 && good
    {
      data, pos, good := d, 0, true;
    }

    /** istream::read(dst, n): a failed stream extracts nothing; otherwise
        up to n bytes are extracted, and a short read sets failbit. */
    method Read(n: nat) returns (got: seq<Byte>)
      requires Valid()
      modifies this
      ensures Valid()
      ensures old(good) && n <= |old(Rest())| ==> good && got == old(Rest())[..n] && Rest() == old(Rest())[n..]
      ensures old(good) && n > |old(Rest())| ==> !good && got == old(Rest()) && Rest() == []
      ensures !old(good) ==> !good && got == [] && Rest() == old(Rest())
    {
      if !good {
        got := [];
      } else if pos + n <= |data| {
        got := data[pos..pos + n];
        pos := pos + n;
      } else {
        got := data[pos..];
        pos := |data|;
        good := false;
      }
    }
  }
}
