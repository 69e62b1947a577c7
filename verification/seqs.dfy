/** Generic facts about sequences: order-preserving selection and subsequences. */
module Seqs {

  /** `idx` lists, strictly increasing, the positions of `b` that hold the elements of `a`. */
  ghost predicate Embeds<T>(a: seq<T>, b: seq<T>, idx: seq<nat>) {
    && |idx| == |a|
    && (forall i :: 0 <= i < |idx| ==> idx[i] < |b| && a[i] == b[idx[i]])
    && (forall i, j :: 0 <= i < j < |idx| ==> idx[i] < idx[j])
  }

  /** `a` is obtained from `b` by dropping elements, keeping the order of the rest. */
  ghost predicate IsSubsequence<T>(a: seq<T>, b: seq<T>) {
    exists idx :: Embeds(a, b, idx)
  }

  /** The elements of `s` that satisfy `f`, in their original order (JavaScript's `Array.prototype.filter`). */
  function Keep<T(==,!new)>(s: seq<T>, f: T -> bool): (r: seq<T>)
    ensures |r| <= |s|
    ensures forall i :: 0 <= i < |r| ==> f(r[i])
  {
    if |s| == 0 then []
    else if f(s[0]) then [s[0]] + Keep(s[1..], f) else Keep(s[1..], f)
  }

  /** Shifts every position of an embedding one place to the right. */
  function Shift(idx: seq<nat>): (r: seq<nat>)
    ensures |r| == |idx|
    ensures forall i :: 0 <= i < |r| ==> r[i] == idx[i] + 1
  {
    seq(|idx|, i requires 0 <= i < |idx| => idx[i] + 1)
  }

  /** An embedding into the tail of `b` is an embedding into `b` once shifted. */
  lemma EmbedSkip<T>(a: seq<T>, b: seq<T>, idx: seq<nat>)
    requires |b| > 0 && Embeds(a, b[1..], idx)
    ensures Embeds(a, b, Shift(idx))
  {
  }

  /** Matching the head of `b` first extends an embedding into the tail of `b`. */
  lemma EmbedCons<T>(a: seq<T>, b: seq<T>, idx: seq<nat>)
    requires |b| > 0 && Embeds(a, b[1..], idx)
    ensures Embeds([b[0]] + a, b, [0] + Shift(idx))
  {
    var a' := [b[0]] + a;
    var idx' := [0] + Shift(idx);
    forall i | 0 <= i < |idx'|
      ensures idx'[i] < |b| && a'[i] == b[idx'[i]]
    {
      if i > 0 {
        assert idx'[i] == idx[i - 1] + 1;
        assert a'[i] == a[i - 1];
      }
    }
  }

  lemma {:induction false} KeepIsSubsequence<T(!new)>(s: seq<T>, f: T -> bool)
    ensures IsSubsequence(Keep(s, f), s)
  {
    if |s| == 0 {
      assert Embeds(Keep(s, f), s, []);
    } else {
      var tail := Keep(s[1..], f);
      KeepIsSubsequence(s[1..], f);
      var idx :| Embeds(tail, s[1..], idx);
      if f(s[0]) {
        EmbedCons(tail, s, idx);
        assert Keep(s, f) == [s[0]] + tail;
      } else {
        EmbedSkip(tail, s, idx);
        assert Keep(s, f) == tail;
      }
    }
  }

  /** Every element satisfying `f` is kept as often as it occurs; every other element is dropped. */
  lemma {:induction false} KeepCounts<T(!new)>(s: seq<T>, f: T -> bool)
    ensures forall x :: multiset(Keep(s, f))[x] == if f(x) then multiset(s)[x] else 0
  {
    if |s| > 0 {
      KeepCounts(s[1..], f);
      assert s == [s[0]] + s[1..];
    }
  }

  /** Filtering twice by the same predicate gives the same as filtering once. */
  lemma {:induction false} KeepIdempotent<T(!new)>(s: seq<T>, f: T -> bool)
    ensures Keep(Keep(s, f), f) == Keep(s, f)
  {
    if |s| > 0 {
      KeepIdempotent(s[1..], f);
    }
  }

  /** When every element passes, filtering returns the sequence itself. */
  lemma {:induction false} KeepAll<T(!new)>(s: seq<T>, f: T -> bool)
    requires forall i :: 0 <= i < |s| ==> f(s[i])
    ensures Keep(s, f) == s
  {
    if |s| > 0 {
      KeepAll(s[1..], f);
      assert s == [s[0]] + s[1..];
    }
  }

  /** Filtering distributes over concatenation. */
  lemma {:induction false} KeepAppend<T(!new)>(a: seq<T>, b: seq<T>, f: T -> bool)
    ensures Keep(a + b, f) == Keep(a, f) + Keep(b, f)
  {
    if |a| == 0 {
      assert a + b == b;
    } else {
      assert (a + b)[1..] == a[1..] + b;
      KeepAppend(a[1..], b, f);
    }
  }
}
