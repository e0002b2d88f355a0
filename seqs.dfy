/**
  Generic sequence facts used by both filtering loops of the outline
  extractor: keeping, in order, the images of the elements that a partial
  map sends to `Some`, and describing which input positions were kept.
 */
module Seqs {

  datatype Option<T> = None | Some(value: T)

  /** The indices in `idx` are strictly increasing. */
  predicate StrictlyIncreasing(idx: seq<nat>)
  {
    forall i, j :: 0 <= i < j < |idx| ==> idx[i] < idx[j]
  }

  /** What `f` contributes for one element: its image, or nothing. */
  function Image<A, B>(f: A -> Option<B>, a: A): seq<B>
  {
    match f(a)
    case Some(b) => [b]
    case None => []
  }

  /**
    The images of the elements of `s` that `f` maps to `Some`, in the order
    of `s`. Defined on the last element so that it follows a left-to-right
    loop that appends to an accumulator.
   */
  function FilterMap<A, B>(s: seq<A>, f: A -> Option<B>): (r: seq<B>)
    ensures |r| <= |s|
  {
    if s == [] then [] else FilterMap(s[..|s| - 1], f) + Image(f, s[|s| - 1])
  }

  /**
    The positions of `s` that `FilterMap` keeps: it keeps exactly the
    positions `f` maps to `Some`, in increasing order, and entry `k` of the
    result is the image of position `idx[k]`.
   */
  function KeptIndices<A, B>(s: seq<A>, f: A -> Option<B>): (idx: seq<nat>)
    ensures |idx| == |FilterMap(s, f)|
    ensures StrictlyIncreasing(idx)
    ensures forall k :: 0 <= k < |idx| ==> idx[k] < |s| && f(s[idx[k]]) == Some(FilterMap(s, f)[k])
  {
    if s == [] then []
    else
      var prefix, last := s[..|s| - 1], s[|s| - 1];
      var before := KeptIndices(prefix, f);
      var idx := before + (if f(last).Some? then [|s| - 1] else []);
      assert idx[..|before|] == before;
      assert forall k :: 0 <= k < |before| ==>
        s[before[k]] == prefix[before[k]] && FilterMap(s, f)[k] == FilterMap(prefix, f)[k];
      assert f(last).Some? ==> FilterMap(s, f)[|before|] == f(last).value;
      idx
  }

  /** `FilterMap` keeps exactly the positions that `f` maps to `Some`. */
  lemma {:induction false} KeptIndicesExact<A, B>(s: seq<A>, f: A -> Option<B>)
    ensures forall j :: 0 <= j < |s| ==> (j in KeptIndices(s, f) <==> f(s[j]).Some?)
  {
    if s != [] {
      var prefix, last := s[..|s| - 1], s[|s| - 1];
      var before := KeptIndices(prefix, f);
      KeptIndicesExact(prefix, f);
      assert KeptIndices(s, f) == before + (if f(last).Some? then [|s| - 1] else []);
      assert |s| - 1 !in before;
      forall j | 0 <= j < |s| - 1 ensures (j in KeptIndices(s, f) <==> f(s[j]).Some?) {
        assert s[j] == prefix[j];
      }
    }
  }

  /** Filtering distributes over concatenation. */
  lemma {:induction false} FilterMapAppend<A, B>(a: seq<A>, b: seq<A>, f: A -> Option<B>)
    ensures FilterMap(a + b, f) == FilterMap(a, f) + FilterMap(b, f)
  {
    if b == [] {
      assert a + b == a;
    } else {
      var b' := b[..|b| - 1];
      assert (a + b)[..|a + b| - 1] == a + b';
      FilterMapAppend(a, b', f);
    }
  }

  /** When `f` keeps every element, nothing is dropped. */
  lemma {:induction false} FilterMapKeepsAll<A, B>(s: seq<A>, f: A -> Option<B>)
    requires forall j :: 0 <= j < |s| ==> f(s[j]).Some?
    ensures |FilterMap(s, f)| == |s|
  {
    if s != [] {
      FilterMapKeepsAll(s[..|s| - 1], f);
    }
  }
}
