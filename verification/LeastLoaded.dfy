/**
 Giving one unit of load at a time to the first least-loaded place: how high the maximum and the
 spread can get, and that no other placement does better.
 */
module LeastLoaded {
  import opened Powers

  function Total(loads: seq<nat>): (t: nat) {
    if loads == [] then 0 else loads[0] + Total(loads[1..])
  }

  function Max(loads: seq<nat>): (m: nat)
    requires loads != []
    ensures m in loads
    ensures forall i :: 0 <= i < |loads| ==> loads[i] <= m
  {
    if |loads| == 1 then loads[0] else
      var m := Max(loads[1..]);
      if loads[0] > m then loads[0] else m
  }

  function Min(loads: seq<nat>): (m: nat)
    requires loads != []
    ensures m in loads
    ensures forall i :: 0 <= i < |loads| ==> m <= loads[i]
  {
    if |loads| == 1 then loads[0] else
      var m := Min(loads[1..]);
      if loads[0] < m then loads[0] else m
  }

  /** The first place with the least load. */
  ghost predicate IsFirstLeast(loads: seq<nat>, i: nat) {
    && i < |loads|
    && (forall j :: 0 <= j < |loads| ==> loads[i] <= loads[j])
    && (forall j :: 0 <= j < i ==> loads[i] < loads[j])
  }

  /** b is the larger of `floor` and the total spread evenly over m places, rounded up. */
  ghost predicate IsBest(b: nat, floor: nat, total: nat, m: nat) {
    && floor <= b && total <= m * b
    && (b == floor || m * (b - 1) < total)
  }

  function CeilDiv(a: nat, m: nat): (q: nat)
    requires m > 0
  {
    (a + m - 1) / m
  }

  /** The quotient rounded up is the least q with m * q >= total. */
  lemma CeilDivBounds(total: nat, m: nat)
    requires m > 0
    ensures total <= m * CeilDiv(total, m)
    ensures CeilDiv(total, m) > 0 ==> m * (CeilDiv(total, m) - 1) < total
  {
    var q: int := CeilDiv(total, m);
    assert m * q <= total + m - 1 < m * q + m;
    assert m * (q - 1) == m * q - m;
  }

  /** The predicate says what the formula max(floor, ceil(total / m)) says. */
  lemma BestIsFormula(b: nat, floor: nat, total: nat, m: nat)
    requires m > 0
    ensures IsBest(b, floor, total, m) <==> b == if floor >= CeilDiv(total, m) then floor else CeilDiv(total, m)
  {
    CeilDivBounds(total, m);
    var q: int := CeilDiv(total, m);
    hide CeilDiv;
    if q <= b {
      MulMonotone(q, b, m);
    } else {
      MulMonotone(b, q - 1, m);
    }
    if q <= b - 1 {
      MulMonotone(q, b - 1, m);
    }
  }

  lemma {:induction false} TotalAtMost(loads: seq<nat>, b: nat)
    requires forall i :: 0 <= i < |loads| ==> loads[i] <= b
    ensures Total(loads) <= |loads| * b
  {
    if loads != [] {
      TotalAtMost(loads[1..], b);
      assert |loads| * b == |loads[1..]| * b + b;
    }
  }

  lemma {:induction false} TotalAtLeast(loads: seq<nat>, b: nat)
    requires forall i :: 0 <= i < |loads| ==> b <= loads[i]
    ensures |loads| * b <= Total(loads)
  {
    if loads != [] {
      TotalAtLeast(loads[1..], b);
      assert |loads| * b == |loads[1..]| * b + b;
    }
  }

  lemma {:induction false} TotalOfIncrement(loads: seq<nat>, i: nat)
    requires i < |loads|
    ensures Total(loads[i := loads[i] + 1]) == Total(loads) + 1
  {
    if i > 0 {
      TotalOfIncrement(loads[1..], i - 1);
      assert loads[i := loads[i] + 1][1..] == loads[1..][i - 1 := loads[i] + 1];
    } else {
      assert loads[0 := loads[0] + 1][1..] == loads[1..];
    }
  }

  /** Only where all places are level does one more unit raise the maximum; the minimum never falls. */
  lemma MaxOfIncrement(loads: seq<nat>, i: nat)
    requires IsFirstLeast(loads, i)
    ensures var after := loads[i := loads[i] + 1];
      && Max(after) == (if loads[i] < Max(loads) then Max(loads) else Max(loads) + 1)
      && Min(after) >= Min(loads)
  {
    var after := loads[i := loads[i] + 1];
    assert forall j :: 0 <= j < |loads| ==> after[j] == if j == i then loads[i] + 1 else loads[j];
    var top :| 0 <= top < |loads| && loads[top] == Max(loads);
    assert after[top] >= loads[top] && after[i] == loads[i] + 1;
  }

  /** The best maximum for one unit more: the same while the units fit below it, else one more. */
  lemma BestOfIncrement(b: nat, floor: nat, total: nat, m: nat)
    requires IsBest(b, floor, total, m)
    ensures total + 1 <= m * b ==> IsBest(b, floor, total + 1, m)
    ensures m * b <= total && total + 1 <= m * (b + 1) ==> IsBest(b + 1, floor, total + 1, m)
  {
  }

  /** One step: the maximum stays best possible and the spread does not exceed max(1, spread before). */
  lemma IncrementLeast(loads: seq<nat>, i: nat, floor: nat)
    requires IsFirstLeast(loads, i)
    requires IsBest(Max(loads), floor, Total(loads), |loads|)
    ensures var after := loads[i := loads[i] + 1];
      && Total(after) == Total(loads) + 1
      && IsBest(Max(after), floor, Total(after), |after|)
      && Max(after) - Min(after) <= if Max(loads) - Min(loads) <= 1 then 1 else Max(loads) - Min(loads)
  {
    var after := loads[i := loads[i] + 1];
    MaxOfIncrement(loads, i);
    TotalOfIncrement(loads, i);
    TotalAtMost(after, Max(after));
    if loads[i] == Max(loads) {
      TotalAtLeast(loads, Max(loads));
      assert Min(loads) == Max(loads);
    }
    hide IsBest, Total;
    BestOfIncrement(Max(loads), floor, Total(loads), |loads|);
  }

  lemma AlreadyBest(loads: seq<nat>)
    requires loads != []
    ensures IsBest(Max(loads), Max(loads), Total(loads), |loads|)
  {
    TotalAtMost(loads, Max(loads));
  }

  /** Whatever is at least the floor and has room for the total is at least the best maximum. */
  lemma BestIsLeast(b: nat, floor: nat, total: nat, m: nat, c: nat)
    requires IsBest(b, floor, total, m) && floor <= c && total <= m * c
    ensures b <= c
  {
    if c < b {
      MulMonotone(c, b - 1, m);
    }
  }

  /** No placement of the same total that takes nothing away has a smaller maximum. */
  lemma NoPlacementIsBetter(loads: seq<nat>, other: seq<nat>, b: nat)
    requires loads != [] && |other| == |loads|
    requires forall i :: 0 <= i < |loads| ==> loads[i] <= other[i]
    requires IsBest(b, Max(loads), Total(other), |loads|)
    ensures b <= Max(other)
  {
    hide IsBest, Total;
    TotalAtMost(other, Max(other));
    var top :| 0 <= top < |loads| && loads[top] == Max(loads);
    assert other[top] >= loads[top];
    BestIsLeast(b, Max(loads), Total(other), |loads|, Max(other));
  }
}
