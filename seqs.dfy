/** Sequence utilities shared by the model: an option type, an
    order-preserving filter (the source's `Array.prototype.filter`) and
    subsequence embeddings used to state "in input order". */
module Seqs {

  datatype Option<+T> = None | Some(value: T)

  function Min(a: int, b: int): int
  {
    if a <= b then a else b
  }

  /** The elements of `s` that satisfy `p`, in their original order. */
  function Filter<T>(p: T -> bool, s: seq<T>): (r: seq<T>)
    ensures |r| <= |s|
    ensures forall i :: 0 <= i < |r| ==> p(r[i])
  {
    if s == [] then []
    else (if p(s[0]) then [s[0]] else []) + Filter(p, s[1..])
  }

  /** `idx` lists, strictly increasing, positions of `s` whose elements,
      read in that order, are exactly `r`. */
  ghost predicate Embeds<T>(r: seq<T>, s: seq<T>, idx: seq<int>)
  {
    && |idx| == |r|
    && (forall k :: 0 <= k < |idx| ==> 0 <= idx[k] < |s| && r[k] == s[idx[k]])
    && (forall k, l :: 0 <= k < l < |idx| ==> idx[k] < idx[l])
  }

  /** `r` is obtained from `s` by deleting elements, keeping the order. */
  ghost predicate IsSubsequence<T>(r: seq<T>, s: seq<T>)
  {
    exists idx :: Embeds(r, s, idx)
  }

  /** Every position shifted one to the right. */
  function Shift(q: seq<int>): seq<int>
  {
    seq(|q|, k requires 0 <= k < |q| => q[k] + 1)
  }

  /** The positions of `s` whose elements satisfy `p`, ascending. */
  function Positions<T>(p: T -> bool, s: seq<T>): (r: seq<int>)
    ensures |r| == |Filter(p, s)|
    ensures forall k :: 0 <= k < |r| ==> 0 <= r[k] < |s|
  {
    if s == [] then []
    else (if p(s[0]) then [0] else []) + Shift(Positions(p, s[1..]))
  }

  /** Filter keeps exactly the elements satisfying `p`, in order: it is
      the subsequence of `s` read at the positions satisfying `p`, and a
      position is among those read if and only if its element satisfies `p`. */
  lemma {:induction false} FilterExact<T>(p: T -> bool, s: seq<T>)
    ensures Embeds(Filter(p, s), s, Positions(p, s))
    ensures forall i :: 0 <= i < |s| ==> (p(s[i]) <==> i in Positions(p, s))
  {
    if s != [] {
      FilterExact(p, s[1..]);
      FilterExactStep(p, s);
    }
  }

  /** The positions of `s` in terms of those of `s[1..]`. */
  lemma PositionsUnfold<T>(p: T -> bool, s: seq<T>)
    requires s != []
    ensures Positions(p, s) == (if p(s[0]) then [0] else []) + Shift(Positions(p, s[1..]))
    ensures Filter(p, s) == (if p(s[0]) then [s[0]] else []) + Filter(p, s[1..])
  {
  }

  /** The inductive step of FilterExact: from the facts about `s[1..]`
      to the facts about `s`. */
  lemma FilterExactStep<T>(p: T -> bool, s: seq<T>)
    requires s != []
    requires Embeds(Filter(p, s[1..]), s[1..], Positions(p, s[1..]))
    requires forall i :: 0 <= i < |s| - 1 ==> (p(s[1..][i]) <==> i in Positions(p, s[1..]))
    ensures Embeds(Filter(p, s), s, Positions(p, s))
    ensures forall i :: 0 <= i < |s| ==> (p(s[i]) <==> i in Positions(p, s))
  {
    PositionsUnfold(p, s);
    StepElements(p, s, Filter(p, s[1..]), Positions(p, s[1..]));
    StepMembers(p, s, Positions(p, s[1..]));
  }

  /** The elements half of the inductive step of FilterExact. */
  lemma StepElements<T>(p: T -> bool, s: seq<T>, ft: seq<T>, q: seq<int>)
    requires s != []
    requires Embeds(ft, s[1..], q)
    ensures Embeds((if p(s[0]) then [s[0]] else []) + ft, s, (if p(s[0]) then [0] else []) + Shift(q))
  {
    if p(s[0]) {
      ConsEmbeds(s, ft, q);
    } else {
      TailEmbeds(s, ft, q);
    }
  }

  /** An embedding into `s[1..]` is one into `s`, one position further on. */
  lemma TailEmbeds<T>(s: seq<T>, ft: seq<T>, q: seq<int>)
    requires s != [] && Embeds(ft, s[1..], q)
    ensures Embeds(ft, s, Shift(q))
  {
    var idx := Shift(q);
    forall k | 0 <= k < |idx|
      ensures 0 <= idx[k] < |s| && ft[k] == s[idx[k]]
    {
      assert ft[k] == s[1..][q[k]];
    }
  }

  /** Adding `s[0]` in front of an embedding into `s[1..]`. */
  lemma ConsEmbeds<T>(s: seq<T>, ft: seq<T>, q: seq<int>)
    requires s != [] && Embeds(ft, s[1..], q)
    ensures Embeds([s[0]] + ft, s, [0] + Shift(q))
  {
    TailEmbeds(s, ft, q);
    var r := [s[0]] + ft;
    var idx := [0] + Shift(q);
    forall k | 0 <= k < |idx|
      ensures 0 <= idx[k] < |s| && r[k] == s[idx[k]]
    {
      if k > 0 {
        assert idx[k] == Shift(q)[k - 1] && r[k] == ft[k - 1];
      }
    }
    forall k, l | 0 <= k < l < |idx|
      ensures idx[k] < idx[l]
    {
      assert idx[l] == Shift(q)[l - 1];
      if k > 0 {
        assert idx[k] == Shift(q)[k - 1];
      }
    }
  }

  lemma StepMembers<T>(p: T -> bool, s: seq<T>, q: seq<int>)
    requires s != []
    requires forall k :: 0 <= k < |q| ==> 0 <= q[k]
    requires forall i :: 0 <= i < |s| - 1 ==> (p(s[1..][i]) <==> i in q)
    ensures forall i :: 0 <= i < |s| ==> (p(s[i]) <==> i in (if p(s[0]) then [0] else []) + Shift(q))
  {
    var h: seq<int> := if p(s[0]) then [0] else [];
    var idx := h + Shift(q);
    forall i | 0 <= i < |s|
      ensures p(s[i]) <==> i in idx
    {
      if i > 0 {
        assert s[i] == s[1..][i - 1];
        if i - 1 in q {
          var j :| 0 <= j < |q| && q[j] == i - 1;
          assert idx[|h| + j] == i;
        }
        if i in idx {
          var m :| 0 <= m < |idx| && idx[m] == i;
          assert m >= |h|;
          assert q[m - |h|] == i - 1;
        }
      }
    }
  }

  /** Filtering a sequence extended by one element extends the filtered
      sequence by that element exactly when it passes. */
  lemma {:induction false} FilterSnoc<T>(p: T -> bool, s: seq<T>, x: T)
    ensures Filter(p, s + [x]) == Filter(p, s) + (if p(x) then [x] else [])
  {
    if s != [] {
      assert (s + [x])[1..] == s[1..] + [x];
      FilterSnoc(p, s[1..], x);
    }
  }

  /** A sequence whose every element passes is its own filter. */
  lemma {:induction false} FilterKeepsAll<T>(p: T -> bool, s: seq<T>)
    requires forall i :: 0 <= i < |s| ==> p(s[i])
    ensures Filter(p, s) == s
  {
    if s != [] {
      FilterKeepsAll(p, s[1..]);
    }
  }

  /** A prefix of an embedded subsequence is embedded by the prefix of
      its positions. */
  lemma EmbedsPrefix<T>(r: seq<T>, s: seq<T>, idx: seq<int>, k: nat)
    requires Embeds(r, s, idx) && k <= |r|
    ensures Embeds(r[..k], s, idx[..k])
  {
  }

  /** Every prefix of `s` is a subsequence of `s`, read at positions 0..k-1. */
  lemma PrefixEmbeds<T>(s: seq<T>, k: nat)
    requires k <= |s|
    ensures Embeds(s[..k], s, seq(k, i => i))
  {
  }
}
