/** InvertedIndex of src/donkey-inverted-index.h: one bin of
    (obj, tag) pairs per exact feature value. */
module DonkeyInvertedIndex {
  import opened DonkeyIndex

  /** The bin of feature f; a feature never inserted has an empty bin. */
  function BinOf<F>(bins: map<F, seq<(nat, nat)>>, f: F): seq<(nat, nat)> {
    if f in bins then bins[f] else []
  }

  /** The matches search emits for a bin: one per entry, in bin order, each
      with the bin's size as its distance. */
  function BinMatches(bin: seq<(nat, nat)>): (r: seq<Match>)
    ensures |r| == |bin|
    ensures forall i :: 0 <= i < |bin| ==> r[i] == Match(bin[i].0, bin[i].1, |bin| as real)
  {
    seq(|bin|, i requires 0 <= i < |bin| => Match(bin[i].0, bin[i].1, |bin| as real))
  }

  class InvertedIndex<F(==)> {
    var bins: map<F, seq<(nat, nat)>>

    constructor ()
      ensures bins == map[]
    {
      bins := map[];
    }

    /** search: appends the query's bin to `matches`, which it does not
        clear first. */
    method Search(query: F, matches: seq<Match>) returns (out: seq<Match>)
      ensures out == matches + BinMatches(BinOf(bins, query))
    {
      var bin := BinOf(bins, query);
      out := matches;
      var i := 0;
      while i < |bin|
        invariant 0 <= i <= |bin|
        invariant out == matches + BinMatches(bin)[..i]
      {
        out := out + [Match(bin[i].0, bin[i].1, |bin| as real)];
        i := i + 1;
      }
      assert BinMatches(bin)[..i] == BinMatches(bin);
    }

    /** insert: (obj, tag) goes to the end of the feature's bin. */
    method Insert(obj: nat, tag: nat, feature: F)
      modifies this
      ensures bins == old(bins)[feature := BinOf(old(bins), feature) + [(obj, tag)]]
    {
      bins := bins[feature := BinOf(bins, feature) + [(obj, tag)]];
    }

    method Clear()
      modifies this
      ensures bins == map[]
    {
      bins := map[];
    }

    /** rebuild: nothing to do. */
    method Rebuild()
      ensures unchanged(this)
    {
    }
  }

  /** Inserting into one bin appends to it and leaves every other bin as it
      was. */
  lemma InsertAppends<F>(bins: map<F, seq<(nat, nat)>>, f: F, p: (nat, nat), g: F)
    ensures BinOf(bins[f := BinOf(bins, f) + [p]], g) == if g == f then BinOf(bins, f) + [p] else BinOf(bins, g)
  {
  }

  /** After an insert the query of that feature ends with the inserted pair,
      at a distance one larger than before. */
  lemma SearchAfterInsert<F>(bins: map<F, seq<(nat, nat)>>, f: F, obj: nat, tag: nat)
    ensures var bin := BinOf(bins[f := BinOf(bins, f) + [(obj, tag)]], f);
      var ms := BinMatches(bin);
      |ms| == |BinOf(bins, f)| + 1 && ms[|ms| - 1] == Match(obj, tag, (|BinOf(bins, f)| + 1) as real)
  {
  }

  /** A feature never inserted, or any feature after clear, finds nothing. */
  lemma EmptyBinFindsNothing<F>(bins: map<F, seq<(nat, nat)>>, f: F)
    requires f !in bins
    ensures BinMatches(BinOf(bins, f)) == []
  {
  }
}
