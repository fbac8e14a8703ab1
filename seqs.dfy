/** The shape of the agent's extraction loops: walk the selected nodes in
    document order, skip (`continue`) the ones a filter rejects, and append
    one record for each one it accepts. */
module Seqs {
  import opened Wrappers

  /** The records `f` yields for the elements it accepts, in order. */
  function FilterMap<A, B>(f: A -> Option<B>, s: seq<A>): (r: seq<B>)
    ensures |r| <= |s|
  {
    if s == [] then []
    else FilterMap(f, s[..|s| - 1]) + Yield(f(s[|s| - 1]))
  }

  /** One accepted element contributes one record, a rejected one none. */
  function Yield<B>(o: Option<B>): (r: seq<B>)
    ensures |r| == if o.Some? then 1 else 0
  {
    match o
    case Some(b) => [b]
    case None => []
  }

  /** The positions of the elements `f` accepts, in increasing order. */
  function Kept<A, B>(f: A -> Option<B>, s: seq<A>): seq<nat> {
    if s == [] then []
    else Kept(f, s[..|s| - 1]) + (if f(s[|s| - 1]).Some? then [|s| - 1] else [])
  }

  /** One position is kept per record produced, and every position kept is
      a position of `s`. */
  lemma {:induction false} KeptLength<A, B>(f: A -> Option<B>, s: seq<A>)
    ensures |Kept(f, s)| == |FilterMap(f, s)|
    ensures forall k :: 0 <= k < |Kept(f, s)| ==> Kept(f, s)[k] < |s|
  {
    if s != [] {
      KeptLength(f, s[..|s| - 1]);
    }
  }

  /** The k-th record is what `f` yields for the element at the k-th kept
      position. */
  lemma {:induction false} KeptRecords<A, B>(f: A -> Option<B>, s: seq<A>)
    ensures |Kept(f, s)| == |FilterMap(f, s)|
    ensures forall k :: 0 <= k < |Kept(f, s)| ==>
      Kept(f, s)[k] < |s| && f(s[Kept(f, s)[k]]) == Some(FilterMap(f, s)[k])
  {
    KeptLength(f, s);
    if s != [] {
      var front := s[..|s| - 1];
      KeptRecords(f, front);
      KeptLength(f, front);
      var idx0, r0 := Kept(f, front), FilterMap(f, front);
      var idx, r := Kept(f, s), FilterMap(f, s);
      forall k | 0 <= k < |idx| ensures f(s[idx[k]]) == Some(r[k]) {
        if k < |idx0| {
          assert idx[k] == idx0[k] && r[k] == r0[k];
          assert s[idx0[k]] == front[idx0[k]];
        } else {
          assert idx[k] == |s| - 1;
        }
      }
    }
  }

  /** Kept positions are strictly increasing: the records come out in the
      order of their elements. */
  lemma {:induction false} KeptIncreasing<A, B>(f: A -> Option<B>, s: seq<A>)
    ensures forall k, l :: 0 <= k < l < |Kept(f, s)| ==> Kept(f, s)[k] < Kept(f, s)[l]
  {
    if s != [] {
      var front := s[..|s| - 1];
      KeptIncreasing(f, front);
      KeptLength(f, front);
    }
  }

  /** Every element `f` accepts has its position kept: none is skipped. */
  lemma {:induction false} KeptComplete<A, B>(f: A -> Option<B>, s: seq<A>)
    ensures forall i :: 0 <= i < |s| && f(s[i]).Some? ==> i in Kept(f, s)
  {
    if s != [] {
      var front := s[..|s| - 1];
      KeptComplete(f, front);
      forall i | 0 <= i < |s| && f(s[i]).Some? ensures i in Kept(f, s) {
        if i < |s| - 1 {
          assert front[i] == s[i];
          assert i in Kept(f, front);
        }
      }
    }
  }

  /** When `f` accepts every element, there is one record per element, each
      at its element's position. */
  lemma {:induction false} FilterMapAllKept<A, B>(f: A -> Option<B>, s: seq<A>)
    requires forall i :: 0 <= i < |s| ==> f(s[i]).Some?
    ensures |FilterMap(f, s)| == |s|
    ensures forall i :: 0 <= i < |s| ==> f(s[i]) == Some(FilterMap(f, s)[i])
  {
    if s != [] {
      var front := s[..|s| - 1];
      assert forall i :: 0 <= i < |front| ==> front[i] == s[i];
      FilterMapAllKept(f, front);
    }
  }

  /** One more element extends the records by what `f` yields for it. */
  lemma FilterMapStep<A, B>(f: A -> Option<B>, s: seq<A>, i: nat)
    requires i < |s|
    ensures FilterMap(f, s[..i + 1]) == FilterMap(f, s[..i]) + Yield(f(s[i]))
  {
    assert s[..i + 1][..i] == s[..i];
  }

  /** A `foreach` that converts each element in turn and adds the result
      to a list: one result per element, in element order. */
  method ConvertEach<A, B>(f: A --> B, s: seq<A>) returns (r: seq<B>)
    requires forall k :: 0 <= k < |s| ==> f.requires(s[k])
    ensures |r| == |s|
    ensures forall k :: 0 <= k < |s| ==> r[k] == f(s[k])
  {
    r := [];
    for i := 0 to |s|
      invariant |r| == i
      invariant forall k :: 0 <= k < i ==> r[k] == f(s[k])
    {
      r := r + [f(s[i])];
    }
  }

  /** Extraction distributes over adjacent stretches of the input. */
  lemma {:induction false} FilterMapAppend<A, B>(f: A -> Option<B>, s: seq<A>, t: seq<A>)
    ensures FilterMap(f, s + t) == FilterMap(f, s) + FilterMap(f, t)
  {
    if t == [] {
      assert s + t == s;
    } else {
      var front := t[..|t| - 1];
      assert (s + t)[..|s + t| - 1] == s + front;
      assert (s + t)[|s + t| - 1] == t[|t| - 1];
      FilterMapAppend(f, s, front);
    }
  }
}
