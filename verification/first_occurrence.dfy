/** The "keep the first occurrence" filter the bundler writes twice as
    `xs.filter((x, i, self) => i === self.findIndex(t => key(t) === key(x)))`:
    once with the JSON serialisation as key (array merge) and once with the tag
    name (tag deduplication). Keys are given as a sequence parallel to the elements. */
module FirstOccurrence {

  /** No earlier position holds the key found at position `i`. */
  predicate IsFirst<K(==)>(ks: seq<K>, i: int)
    requires 0 <= i < |ks|
  {
    forall j :: 0 <= j < i ==> ks[j] != ks[i]
  }

  predicate Increasing(ix: seq<nat>) {
    forall a, b :: 0 <= a < b < |ix| ==> ix[a] < ix[b]
  }

  /** The positions that hold the first occurrence of their key, in increasing order. */
  function FirstIndices<K(==)>(ks: seq<K>): (r: seq<nat>)
    ensures forall a :: 0 <= a < |r| ==> r[a] < |ks|
    ensures forall i :: i in r <==> 0 <= i < |ks| && IsFirst(ks, i)
    ensures Increasing(r)
    decreases |ks|
  {
    if |ks| == 0 then []
    else
      var n := |ks| - 1;
      var front := FirstIndices(ks[..n]);
      assert forall i :: 0 <= i < n ==> (IsFirst(ks[..n], i) <==> IsFirst(ks, i));
      assert IsFirst(ks, n) <==> ks[n] !in ks[..n];
      front + (if ks[n] in ks[..n] then [] else [n])
  }

  /** The elements at the given positions, in the given order. */
  function Select<T>(xs: seq<T>, ix: seq<nat>): (r: seq<T>)
    requires forall a :: 0 <= a < |ix| ==> ix[a] < |xs|
    ensures |r| == |ix|
    ensures forall a :: 0 <= a < |ix| ==> r[a] == xs[ix[a]]
  {
    seq(|ix|, a requires 0 <= a < |ix| => xs[ix[a]])
  }

  /** Keeps each element whose key does not occur earlier. */
  function KeepFirstBy<T, K(==)>(xs: seq<T>, ks: seq<K>): seq<T>
    requires |xs| == |ks|
  {
    Select(xs, FirstIndices(ks))
  }

  /** The kept positions hold pairwise distinct keys. */
  lemma KeptKeysDistinct<K>(ks: seq<K>)
    ensures var ix := FirstIndices(ks);
      forall a, b :: 0 <= a < b < |ix| ==> ks[ix[a]] != ks[ix[b]]
  {
    var ix := FirstIndices(ks);
    forall a, b | 0 <= a < b < |ix|
      ensures ks[ix[a]] != ks[ix[b]]
    {
      assert ix[b] in ix;
      assert IsFirst(ks, ix[b]);
      assert ix[a] < ix[b];
    }
  }

  /** Every key of the input is kept: the first holder of the key at any position
      is among the kept positions. */
  lemma EveryKeyKept<K>(ks: seq<K>)
    ensures forall i :: 0 <= i < |ks| ==> FirstHolder(ks, i) in FirstIndices(ks)
  {
  }

  /** Some position at or before `i` is the first holder of the key at `i`. */
  lemma {:induction false} FirstHolderExists<K>(ks: seq<K>, i: nat)
    requires i < |ks|
    ensures exists j :: 0 <= j <= i && ks[j] == ks[i] && IsFirst(ks, j)
    decreases i
  {
    if !IsFirst(ks, i) {
      var j :| 0 <= j < i && ks[j] == ks[i];
      FirstHolderExists(ks, j);
    }
  }

  function FirstHolder<K(==)>(ks: seq<K>, i: nat): (j: nat)
    requires i < |ks|
    ensures j <= i && ks[j] == ks[i] && IsFirst(ks, j)
  {
    FirstHolderExists(ks, i);
    var j :| 0 <= j <= i && ks[j] == ks[i] && IsFirst(ks, j);
    j
  }

  /** The filter keeps one element per key: each kept element is the first with
      its key, no two kept elements share a key, every key of the input is among
      them, and they come in the order their keys first appear. */
  lemma KeepFirstByProperties<T, K>(xs: seq<T>, ks: seq<K>)
    requires |xs| == |ks|
    ensures var ix := FirstIndices(ks);
      var r := KeepFirstBy(xs, ks);
      && |r| == |ix|
      && (forall a :: 0 <= a < |ix| ==> r[a] == xs[ix[a]] && ks[ix[a]] in ks && FirstHolderOf(ks, ks[ix[a]]) == ix[a])
      && (forall a, b :: 0 <= a < b < |ix| ==> ks[ix[a]] != ks[ix[b]] && ix[a] < ix[b])
      && (forall i :: 0 <= i < |ks| ==> exists a :: 0 <= a < |ix| && ks[ix[a]] == ks[i])
  {
    var ix := FirstIndices(ks);
    KeptKeysDistinct(ks);
    EveryKeyKept(ks);
    forall i | 0 <= i < |ks|
      ensures exists a :: 0 <= a < |ix| && ks[ix[a]] == ks[i]
    {
      var j := FirstHolder(ks, i);
      var a :| 0 <= a < |ix| && ix[a] == j;
    }
    forall a | 0 <= a < |ix|
      ensures FirstHolderOf(ks, ks[ix[a]]) == ix[a]
    {
      assert ix[a] in ix;
      FirstHolderOfFirst(ks, ix[a]);
    }
  }

  /** The position where `x` first appears in `xs`. */
  function FirstHolderOf<T(==)>(xs: seq<T>, x: T): (j: nat)
    requires x in xs
    ensures j < |xs| && xs[j] == x && IsFirst(xs, j)
  {
    var i :| 0 <= i < |xs| && xs[i] == x;
    FirstHolder(xs, i)
  }

  lemma FirstHolderOfFirst<T>(xs: seq<T>, i: nat)
    requires i < |xs| && IsFirst(xs, i)
    ensures FirstHolderOf(xs, xs[i]) == i
  {
    var j := FirstHolderOf(xs, xs[i]);
  }

  /** The source's filter/findIndex loop: for every position `i`, scan from the start
      for the first position whose key equals the key at `i`, and keep the element
      when that scan stops at `i` itself. */
  method FilterFirstOccurrences<T, K(==)>(xs: seq<T>, ks: seq<K>) returns (r: seq<T>)
    requires |xs| == |ks|
    ensures r == KeepFirstBy(xs, ks)
  {
    r := [];
    var i := 0;
    while i < |xs|
      invariant 0 <= i <= |xs|
      invariant r == Select(xs, FirstIndices(ks[..i]))
    {
      var j := 0;
      while ks[j] != ks[i]
        invariant 0 <= j <= i
        invariant forall m :: 0 <= m < j ==> ks[m] != ks[i]
        decreases i - j
      {
        j := j + 1;
      }
      assert ks[..i + 1][..i] == ks[..i];
      assert ks[i] in ks[..i] <==> j < i;
      if j == i {
        r := r + [xs[i]];
      }
      i := i + 1;
    }
    assert ks[..|xs|] == ks;
  }
}
