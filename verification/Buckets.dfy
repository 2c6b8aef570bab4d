/** Bucketing by counting sort: how the node-to-edge table and the node grid are laid out. */
module Buckets {
  import opened Basics

  /** The first `k` items with bucket `b`, in order. */
  function ItemsOf(bucket: seq<nat>, b: nat, k: nat): (items: seq<nat>)
    requires k <= |bucket|
  {
    if k == 0 then []
    else ItemsOf(bucket, b, k - 1) + if bucket[k - 1] == b then [k - 1] else []
  }

  lemma {:induction false} ItemsOfMembers(bucket: seq<nat>, b: nat, k: nat)
    requires k <= |bucket|
    ensures Distinct(ItemsOf(bucket, b, k))
    ensures forall i :: i in ItemsOf(bucket, b, k) <==> 0 <= i < k && bucket[i] == b
  {
    if k > 0 { ItemsOfMembers(bucket, b, k - 1); }
  }

  /** Where bucket `b` starts when the buckets are laid out one after the other. */
  function Start(bucket: seq<nat>, b: nat): nat {
    if b == 0 then 0 else Start(bucket, b - 1) + |ItemsOf(bucket, b - 1, |bucket|)|
  }

  lemma {:induction false} StartMonotone(bucket: seq<nat>, b: nat, c: nat)
    requires b < c
    ensures Start(bucket, b) + |ItemsOf(bucket, b, |bucket|)| <= Start(bucket, c)
  {
    if b + 1 < c { StartMonotone(bucket, b, c - 1); }
  }

  lemma {:induction false} CountMonotone(bucket: seq<nat>, b: nat, k: nat, m: nat)
    requires k <= m <= |bucket|
    ensures |ItemsOf(bucket, b, k)| <= |ItemsOf(bucket, b, m)|
    ensures k < m && bucket[k] == b ==> |ItemsOf(bucket, b, k)| < |ItemsOf(bucket, b, m)|
  {
    if k < m { CountMonotone(bucket, b, k, m - 1); }
  }

  /** How many of the first `k` items lie in the first `m` buckets. */
  function CountBelow(bucket: seq<nat>, m: nat, k: nat): nat
    requires k <= |bucket|
  {
    if m == 0 then 0 else CountBelow(bucket, m - 1, k) + |ItemsOf(bucket, m - 1, k)|
  }

  lemma {:induction false} CountBelowZero(bucket: seq<nat>, m: nat)
    ensures CountBelow(bucket, m, 0) == 0
  {
    if m > 0 { CountBelowZero(bucket, m - 1); }
  }

  lemma {:induction false} CountBelowStep(bucket: seq<nat>, m: nat, k: nat)
    requires 0 < k <= |bucket|
    ensures CountBelow(bucket, m, k) == CountBelow(bucket, m, k - 1) + if bucket[k - 1] < m then 1 else 0
  {
    if m > 0 { CountBelowStep(bucket, m - 1, k); }
  }

  /** All buckets together hold every item. */
  lemma {:induction false} StartTotal(bucket: seq<nat>, m: nat, k: nat)
    requires k <= |bucket| && forall i :: 0 <= i < |bucket| ==> bucket[i] < m
    ensures CountBelow(bucket, m, k) == k
    decreases k
  {
    if k > 0 {
      StartTotal(bucket, m, k - 1);
      CountBelowStep(bucket, m, k);
    } else {
      CountBelowZero(bucket, m);
    }
  }

  lemma {:induction false} StartIsCount(bucket: seq<nat>, m: nat)
    ensures Start(bucket, m) == CountBelow(bucket, m, |bucket|)
  {
    if m > 0 { StartIsCount(bucket, m - 1); }
  }

  /** The layout: bucket `b` of `order` is first[b] .. first[b + 1] and lists the bucket's items in order. */
  ghost predicate Laid(bucket: seq<nat>, count: nat, first: seq<nat>, order: seq<nat>) {
    && |first| == count + 1 && |order| == |bucket|
    && (forall i :: 0 <= i < |order| ==> order[i] < |bucket|)
    && (forall b {:trigger first[b]} :: 0 <= b <= count ==> first[b] == Start(bucket, b) && first[b] <= |order|)
    && forall b {:trigger order[first[b]..first[b + 1]]} :: 0 <= b < count ==>
         first[b] <= first[b + 1] && order[first[b]..first[b + 1]] == ItemsOf(bucket, b, |bucket|)
  }

  /** After the first `k` items: every bucket's filled part holds its items so far. */
  ghost predicate Filled(bucket: seq<nat>, count: nat, k: nat, order: seq<nat>, next: seq<nat>)
    requires k <= |bucket|
  {
    && |order| == |bucket| && |next| == count
    && (forall i :: 0 <= i < |order| ==> order[i] < |bucket|)
    && forall b :: 0 <= b < count ==>
         var items := ItemsOf(bucket, b, k);
         && next[b] == Start(bucket, b) + |items|
         && next[b] <= |order|
         && order[Start(bucket, b)..next[b]] == items
  }

  lemma StartInRange(bucket: seq<nat>, count: nat, b: nat)
    requires b <= count && forall i :: 0 <= i < |bucket| ==> bucket[i] < count
    ensures Start(bucket, b) <= |bucket|
    ensures b < count ==> Start(bucket, b) + |ItemsOf(bucket, b, |bucket|)| <= |bucket|
  {
    StartTotal(bucket, count, |bucket|);
    StartIsCount(bucket, count);
    if b < count { StartMonotone(bucket, b, count); }
  }

  lemma FillStep(bucket: seq<nat>, count: nat, k: nat, order: seq<nat>, next: seq<nat>)
    requires k < |bucket| && forall i :: 0 <= i < |bucket| ==> bucket[i] < count
    requires Filled(bucket, count, k, order, next)
    ensures next[bucket[k]] < |order|
    ensures Filled(bucket, count, k + 1, order[next[bucket[k]] := k], next[bucket[k] := next[bucket[k]] + 1])
  {
    var b := bucket[k];
    CountMonotone(bucket, b, k, |bucket|);
    StartInRange(bucket, count, b);
    var at := next[b];
    var order', next' := order[at := k], next[b := at + 1];
    forall c | 0 <= c < count
      ensures var items := ItemsOf(bucket, c, k + 1);
        && next'[c] == Start(bucket, c) + |items| && next'[c] <= |order'|
        && order'[Start(bucket, c)..next'[c]] == items
    {
      CountMonotone(bucket, c, k, |bucket|);
      if c == b {
        assert order'[Start(bucket, c)..at + 1] == order[Start(bucket, c)..at] + [k];
      } else {
        if c < b { StartMonotone(bucket, c, b); } else { StartMonotone(bucket, b, c); }
        assert order'[Start(bucket, c)..next'[c]] == order[Start(bucket, c)..next[c]];
      }
    }
  }

  /** Slot `b + 1` counts the items of bucket `b` among the first `k`. */
  ghost predicate Counted(bucket: seq<nat>, count: nat, k: nat, first: seq<nat>)
    requires k <= |bucket|
  {
    |first| == count + 1 && forall b :: 1 <= b <= count ==> first[b] == |ItemsOf(bucket, b - 1, k)|
  }

  lemma CountStep(bucket: seq<nat>, count: nat, k: nat, first: seq<nat>)
    requires k < |bucket| && bucket[k] < count && Counted(bucket, count, k, first)
    ensures Counted(bucket, count, k + 1, first[bucket[k] + 1 := first[bucket[k] + 1] + 1])
  {}

  /** The slots up to `b` hold starts, the later ones still counts. */
  ghost predicate Summed(bucket: seq<nat>, count: nat, b: nat, first: seq<nat>) {
    && |first| == count + 1
    && (forall c :: 0 <= c <= b && c <= count ==> first[c] == Start(bucket, c))
    && (forall c :: b < c <= count ==> first[c] == |ItemsOf(bucket, c - 1, |bucket|)|)
  }

  lemma SumStep(bucket: seq<nat>, count: nat, b: nat, first: seq<nat>)
    requires b < count && Summed(bucket, count, b, first)
    ensures Summed(bucket, count, b + 1, first[b + 1 := first[b + 1] + first[b]])
  {
    assert first[b + 1] == |ItemsOf(bucket, b, |bucket|)|;
  }

  /** Counts, then running sums. */
  method Starts(bucket: seq<nat>, count: nat) returns (first: seq<nat>)
    requires forall i :: 0 <= i < |bucket| ==> bucket[i] < count
    ensures Summed(bucket, count, count, first)
  {
    first := seq(count + 1, _ => 0);
    for i := 0 to |bucket|
      invariant Counted(bucket, count, i, first) && first[0] == 0
    {
      CountStep(bucket, count, i, first);
      var at := bucket[i] + 1;
      first := first[at := first[at] + 1];
    }
    assert Summed(bucket, count, 0, first);
    for b := 0 to count
      invariant Summed(bucket, count, b, first)
    {
      SumStep(bucket, count, b, first);
      first := first[b + 1 := first[b + 1] + first[b]];
    }
  }

  lemma NothingFilled(bucket: seq<nat>, count: nat, first: seq<nat>, order: seq<nat>)
    requires forall i :: 0 <= i < |bucket| ==> bucket[i] < count
    requires Summed(bucket, count, count, first) && |order| == |bucket|
    requires forall i :: 0 <= i < |order| ==> order[i] < |bucket|
    ensures Filled(bucket, count, 0, order, first[..count])
  {
    forall b | 0 <= b < count ensures first[b] <= |bucket| { StartInRange(bucket, count, b); }
  }

  lemma AllFilled(bucket: seq<nat>, count: nat, first: seq<nat>, order: seq<nat>, next: seq<nat>)
    requires forall i :: 0 <= i < |bucket| ==> bucket[i] < count
    requires Summed(bucket, count, count, first) && Filled(bucket, count, |bucket|, order, next)
    ensures Laid(bucket, count, first, order)
  {
    forall b | 0 <= b <= count ensures first[b] <= |order| { StartInRange(bucket, count, b); }
    forall b | 0 <= b < count ensures first[b + 1] == next[b] {
      assert first[b + 1] == Start(bucket, b + 1);
    }
  }

  /** The starts of the buckets, and one pass that places each item at its bucket's next free position. */
  method Layout(bucket: seq<nat>, count: nat) returns (first: seq<nat>, order: seq<nat>)
    requires forall i :: 0 <= i < |bucket| ==> bucket[i] < count
    ensures Laid(bucket, count, first, order)
  {
    first := Starts(bucket, count);
    order := seq(|bucket|, _ => 0);
    var next := first[..count];
    NothingFilled(bucket, count, first, order);
    for k := 0 to |bucket|
      invariant Filled(bucket, count, k, order, next)
    {
      FillStep(bucket, count, k, order, next);
      var at := next[bucket[k]];
      order := order[at := k];
      next := next[bucket[k] := at + 1];
    }
    AllFilled(bucket, count, first, order, next);
  }
}
