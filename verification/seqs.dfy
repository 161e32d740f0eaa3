/** `Array.prototype.filter` on sequences, and what it promises: the kept
    elements are exactly those satisfying the predicate, in their original
    order, each as often as it occurred. */
module Seqs {

  /** The elements of `s` that satisfy `p`, in order. */
  function Keep<T>(s: seq<T>, p: T -> bool): (r: seq<T>)
    ensures |r| <= |s|
    ensures forall i :: 0 <= i < |r| ==> r[i] in s && p(r[i])
    ensures forall i :: 0 <= i < |s| && p(s[i]) ==> s[i] in r
  {
    if |s| == 0 then []
    else if p(s[0]) then [s[0]] + Keep(s[1..], p)
    else Keep(s[1..], p)
  }

  /** `idx` lists positions of `s`, strictly increasing, at which `s` holds
      the elements of `r` in turn: `r` is an order-preserving subsequence. */
  ghost predicate Embeds<T>(idx: seq<nat>, r: seq<T>, s: seq<T>) {
    && |idx| == |r|
    && (forall k :: 0 <= k < |idx| ==> idx[k] < |s| && s[idx[k]] == r[k])
    && (forall j, k :: 0 <= j < k < |idx| ==> idx[j] < idx[k])
  }

  /** Every position shifted one to the right. */
  function Shift(idx: seq<nat>): (r: seq<nat>)
    ensures |r| == |idx| && forall k :: 0 <= k < |idx| ==> r[k] == idx[k] + 1
  {
    seq(|idx|, k requires 0 <= k < |idx| => idx[k] + 1)
  }

  /** Positions into the tail of `s`, shifted, are positions into `s`. */
  lemma ShiftEmbeds<T>(rest: seq<nat>, r: seq<T>, s: seq<T>)
    requires |s| > 0 && Embeds(rest, r, s[1..])
    ensures Embeds(Shift(rest), r, s)
    ensures forall i :: 1 <= i < |s| ==> (i in Shift(rest) <==> i - 1 in rest)
    ensures 0 !in Shift(rest)
  {
    var shifted := Shift(rest);
    forall k | 0 <= k < |shifted| ensures shifted[k] < |s| && s[shifted[k]] == r[k] {
      assert s[1..][rest[k]] == s[rest[k] + 1];
    }
    forall i | 1 <= i < |s| ensures i in shifted <==> i - 1 in rest {
      if i in shifted {
        var k :| 0 <= k < |shifted| && shifted[k] == i;
        assert rest[k] == i - 1;
      }
      if i - 1 in rest {
        var k :| 0 <= k < |rest| && rest[k] == i - 1;
        assert shifted[k] == i;
      }
    }
  }

  /** The tail's kept positions, shifted, are the kept positions of `s`
      after the first. */
  lemma ShiftPositions<T>(rest: seq<nat>, r: seq<T>, s: seq<T>, p: T -> bool)
    requires |s| > 0 && Embeds(rest, r, s[1..])
    requires forall i :: 0 <= i < |s| - 1 ==> (i in rest <==> p(s[1..][i]))
    ensures Embeds(Shift(rest), r, s)
    ensures forall i :: 1 <= i < |s| ==> (i in Shift(rest) <==> p(s[i]))
    ensures 0 !in Shift(rest)
  {
    ShiftEmbeds(rest, r, s);
    forall i | 1 <= i < |s| ensures i in Shift(rest) <==> p(s[i]) {
      assert s[1..][i - 1] == s[i];
    }
  }

  /** Position 0 may be put in front of positions that avoid it. */
  lemma PrependEmbeds<T>(idx: seq<nat>, r: seq<T>, s: seq<T>)
    requires |s| > 0 && Embeds(idx, r, s) && 0 !in idx
    ensures Embeds([0] + idx, [s[0]] + r, s)
  {
    var idx' := [0] + idx;
    forall j, k | 0 <= j < k < |idx'| ensures idx'[j] < idx'[k] {
      assert idx'[k] == idx[k - 1];
      assert idx[k - 1] != 0 by { assert idx[k - 1] in idx; }
      if j > 0 {
        assert idx'[j] == idx[j - 1];
      }
    }
  }

  /** The filter keeps precisely the positions where `p` holds, in
      increasing order. */
  lemma {:induction false} KeepPositions<T>(s: seq<T>, p: T -> bool) returns (idx: seq<nat>)
    ensures Embeds(idx, Keep(s, p), s)
    ensures forall i :: 0 <= i < |s| ==> (i in idx <==> p(s[i]))
  {
    if |s| == 0 {
      idx := [];
    } else {
      var rest := KeepPositions(s[1..], p);
      var tail := Keep(s[1..], p);
      ShiftPositions(rest, tail, s, p);
      var shifted := Shift(rest);
      if p(s[0]) {
        idx := [0] + shifted;
        PrependEmbeds(shifted, tail, s);
        assert forall i :: 0 <= i < |s| ==> (i in idx <==> i == 0 || i in shifted);
      } else {
        idx := shifted;
      }
    }
  }

  /** Each element is kept as often as it occurs when it satisfies `p`,
      and not at all otherwise. */
  lemma {:induction false} KeepCounts<T>(s: seq<T>, p: T -> bool)
    ensures forall x :: multiset(Keep(s, p))[x] == if p(x) then multiset(s)[x] else 0
  {
    if |s| > 0 {
      KeepCounts(s[1..], p);
      assert s == [s[0]] + s[1..];
    }
  }

  /** A predicate that holds everywhere keeps the whole sequence. */
  lemma {:induction false} KeepEverything<T>(s: seq<T>, p: T -> bool)
    requires forall i :: 0 <= i < |s| ==> p(s[i])
    ensures Keep(s, p) == s
  {
    if |s| > 0 {
      KeepEverything(s[1..], p);
    }
  }
}
