// Median-time-past (netcoin/consensus.py): the median timestamp of up to eleven ancestors.
module MedianTime {
  import opened Sorting

  const WINDOW := 11

  function CountBelow(s: seq<int>, bound: int): nat {
    if s == [] then 0 else CountBelow(s[1..], bound) + (if s[0] < bound then 1 else 0)
  }

  function Window(timestamps: seq<int>): (w: seq<int>) {
    if |timestamps| <= WINDOW then timestamps else timestamps[|timestamps| - WINDOW..]
  }

  // Zero when there are no ancestors.
  function MedianTimePast(timestamps: seq<int>): int {
    if timestamps == [] then 0
    else
      var w := Window(timestamps);
      SortedOf(w)[|w| / 2]
  }

  // ---- what the median is, counting ----

  lemma {:induction false} CountBelowAppend(s: seq<int>, t: seq<int>, bound: int)
    ensures CountBelow(s + t, bound) == CountBelow(s, bound) + CountBelow(t, bound)
  {
    if s == [] {
      assert s + t == t;
    } else {
      assert (s + t)[1..] == s[1..] + t;
      CountBelowAppend(s[1..], t, bound);
    }
  }

  lemma {:induction false} CountBelowPermutation(s: seq<int>, t: seq<int>, bound: int)
    requires multiset(s) == multiset(t)
    ensures CountBelow(s, bound) == CountBelow(t, bound)
    decreases |s|
  {
    assert |multiset(s)| == |s| && |multiset(t)| == |t|;
    if s != [] {
      assert s == [s[0]] + s[1..];
      assert s[0] in multiset(s);
      var i :| 0 <= i < |t| && t[i] == s[0];
      TakeOut(t, i, bound);
      assert multiset(s[1..]) == multiset(s) - multiset{s[0]};
      CountBelowPermutation(s[1..], t[..i] + t[i + 1..], bound);
    }
  }

  lemma TakeOut(t: seq<int>, i: nat, bound: int)
    requires i < |t|
    ensures multiset(t[..i] + t[i + 1..]) == multiset(t) - multiset{t[i]}
    ensures CountBelow(t, bound) == CountBelow(t[..i] + t[i + 1..], bound) + (if t[i] < bound then 1 else 0)
  {
    assert t == t[..i] + ([t[i]] + t[i + 1..]);
    CountBelowAppend(t[..i], t[i + 1..], bound);
    CountBelowAppend(t[..i], [t[i]] + t[i + 1..], bound);
    assert ([t[i]] + t[i + 1..])[1..] == t[i + 1..];
  }

  // In a sorted list the count below a bound says which positions hold smaller values.
  lemma {:induction false} CountBelowSorted(s: seq<int>, bound: int, k: nat)
    requires Sorted(s) && k < |s|
    ensures s[k] < bound <==> k < CountBelow(s, bound)
    decreases |s|
  {
    if s[0] >= bound {
      NothingBelow(s, bound);
    } else if k > 0 {
      CountBelowSorted(s[1..], bound, k - 1);
    }
  }

  lemma {:induction false} NothingBelow(s: seq<int>, bound: int)
    requires forall i :: 0 <= i < |s| ==> s[i] >= bound
    ensures CountBelow(s, bound) == 0
  {
    if s != [] {
      NothingBelow(s[1..], bound);
    }
  }

  // The median is the value with at most half of the window below it, and with more than
  // half of the window below anything larger.
  lemma MedianByCounting(timestamps: seq<int>, bound: int)
    requires timestamps != []
    ensures MedianTimePast(timestamps) >= bound <==>
            CountBelow(Window(timestamps), bound) <= |Window(timestamps)| / 2
  {
    var w := Window(timestamps);
    var s := SortedOf(w);
    SortedOfSorts(w);
    CountBelowPermutation(s, w, bound);
    CountBelowSorted(s, bound, |w| / 2);
  }

  // A block later than the median of its ancestors never lowers the median, both while the
  // window fills up and once it slides.
  lemma MedianNeverDecreases(timestamps: seq<int>, next: int)
    requires timestamps != [] && next > MedianTimePast(timestamps)
    ensures MedianTimePast(timestamps + [next]) >= MedianTimePast(timestamps)
  {
    var m := MedianTimePast(timestamps);
    var w := Window(timestamps);
    var w' := Window(timestamps + [next]);
    MedianByCounting(timestamps, m);
    MedianByCounting(timestamps + [next], m);
    CountBelowAppend(w, [next], m);
    if |timestamps| < WINDOW {
      assert w' == w + [next];
    } else {
      assert w' == w[1..] + [next];
      CountBelowAppend(w[1..], [next], m);
    }
  }

  // The part of the window that stays when one more block arrives.
  function Staying(timestamps: seq<int>): seq<int> {
    if |timestamps| < WINDOW then timestamps else Window(timestamps)[1..]
  }

  // Exactly when one more block lowers the median: it is earlier than the median, and so are
  // already half of the window's other blocks.
  lemma MedianDropsExactly(timestamps: seq<int>, next: int)
    requires timestamps != []
    ensures var m := MedianTimePast(timestamps);
            MedianTimePast(timestamps + [next]) < m <==>
              next < m && CountBelow(Staying(timestamps), m) >= (|Staying(timestamps)| + 1) / 2
  {
    var m := MedianTimePast(timestamps);
    var w := Window(timestamps);
    hide MedianTimePast;
    MedianByCounting(timestamps, m);
    MedianByCounting(timestamps + [next], m);
    assert Window(timestamps + [next]) == Staying(timestamps) + [next];
    CountBelowAppend(Staying(timestamps), [next], m);
    if |timestamps| >= WINDOW {
      CountBelowAppend(w[..1], w[1..], m);
      assert w == w[..1] + w[1..];
    }
  }

  // Without that rule it may drop: one early block is enough.
  lemma MedianCanDecreaseWithoutRule()
    ensures MedianTimePast([10]) > MedianTimePast([10, 0, 0])
  {
    MedianByCounting([10], 10);
    MedianByCounting([10, 0, 0], 10);
  }

  predicate RuleHoldsAt(timestamps: seq<int>, i: nat)
    requires i < |timestamps|
  {
    timestamps[i] > MedianTimePast(timestamps[..i])
  }

  // Along a whole chain whose blocks all pass the rule from position `from` on.
  lemma {:induction false} MedianIsMonotone(timestamps: seq<int>, lo: nat, hi: nat)
    requires 1 <= lo <= hi <= |timestamps|
    requires forall i :: lo <= i < hi ==> RuleHoldsAt(timestamps, i)
    ensures MedianTimePast(timestamps[..lo]) <= MedianTimePast(timestamps[..hi])
    decreases hi
  {
    hide MedianTimePast;
    if lo < hi {
      MedianIsMonotone(timestamps, lo, hi - 1);
      var before := timestamps[..hi - 1];
      assert timestamps[..hi] == before + [timestamps[hi - 1]];
      assert RuleHoldsAt(timestamps, hi - 1);
      MedianNeverDecreases(before, timestamps[hi - 1]);
    }
  }

  // The sort of the source, as an insertion into a growing sorted list.
  method ComputeMedianTimePast(timestamps: seq<int>) returns (median: int)
    ensures median == MedianTimePast(timestamps)
  {
    if timestamps == [] {
      return 0;
    }
    var recent := Window(timestamps);
    var sorted := [];
    for i := 0 to |recent|
      invariant sorted == SortedOf(recent[..i])
    {
      assert recent[..i + 1][..i] == recent[..i];
      sorted := Insert(sorted, recent[i]);
    }
    assert recent[..|recent|] == recent;
    median := sorted[|recent| / 2];
  }
}
