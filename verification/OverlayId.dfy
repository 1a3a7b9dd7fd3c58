/**
 Overlay identifiers of the Plexus network: a K-bit number together with the length of the
 prefix that the owning node is responsible for. Bit K-1 is the first bit of the prefix.
 */
module OverlayIds {
  import opened Powers

  /** `id` is the pattern, `prefixLength` the number of leading bits that count, `maxLength` is K. */
  datatype OverlayId = OverlayId(id: nat, prefixLength: nat, maxLength: nat) {

    ghost predicate Valid() {
      maxLength >= 1 && id < Pow2(maxLength)
    }

    function GetBitAtPosition(n: nat): (b: nat)
      ensures b <= 1
    {
      Bit(id, n)
    }

    function ToggleBitAtPosition(n: nat): (r: OverlayId) {
      OverlayId(Toggle(id, n), prefixLength, maxLength)
    }

    /** operator== compares the prefix length as well; operator< and the tables look at `id` alone. */
    predicate Equals(other: OverlayId) {
      prefixLength == other.prefixLength && id == other.id
    }

    /**
     Counts equal leading bits. The loop never looks at bit 0, so the result is at most K - 1:
     it is the longest shared prefix, cut off at K - 1.
     */
    method GetMatchedPrefixLength(other: OverlayId) returns (length: nat)
      requires Valid() && other.Valid() && other.maxLength == maxLength
      ensures length == MatchedLength(id, other.id, maxLength)
      ensures length <= maxLength - 1
      ensures SharesPrefix(id, other.id, maxLength, length)
      ensures length < maxLength - 1 ==> !SharesPrefix(id, other.id, maxLength, length + 1)
    {
      var position := maxLength - 1;
      while position > 0
        invariant 0 <= position <= maxLength - 1
        invariant StopPosition(id, other.id, position) == StopPosition(id, other.id, maxLength - 1)
      {
        if GetBitAtPosition(position) != other.GetBitAtPosition(position) {
          break;
        }
        position := position - 1;
      }
      length := maxLength - position - 1;
      MatchedLengthIsLongestPrefix(id, other.id, maxLength);
    }
  }

  function Bit(v: nat, n: nat): (b: nat)
    ensures b <= 1
  {
    ShiftRight(v, n) % 2
  }

  /** Exclusive-or with 1 << n. */
  function Toggle(v: nat, n: nat): (r: nat) {
    if Bit(v, n) == 1 then BitSetIsLarge(v, n); v - Pow2(n) else v + Pow2(n)
  }

  lemma BitSetIsLarge(v: nat, n: nat)
    requires Bit(v, n) == 1
    ensures v >= Pow2(n)
  {
    ShiftRightToZero(v, n);
  }

  /** The first j of K bits agree. */
  ghost predicate SharesPrefix(a: nat, b: nat, k: nat, j: nat)
    requires j <= k
  {
    ShiftRight(a, k - j) == ShiftRight(b, k - j)
  }

  /** Where a scan from `pos` down to 1 for a differing bit ends. */
  function StopPosition(a: nat, b: nat, pos: nat): (stop: nat)
    ensures stop <= pos
  {
    if pos == 0 || Bit(a, pos) != Bit(b, pos) then pos else StopPosition(a, b, pos - 1)
  }

  function MatchedLength(a: nat, b: nat, k: nat): (length: nat)
    requires k >= 1
    ensures length <= k - 1
  {
    k - 1 - StopPosition(a, b, k - 1)
  }

  lemma PrefixStep(a: nat, b: nat, m: nat)
    ensures ShiftRight(a, m) == 2 * ShiftRight(a, m + 1) + Bit(a, m)
    ensures (ShiftRight(a, m) == ShiftRight(b, m))
      <==> (ShiftRight(a, m + 1) == ShiftRight(b, m + 1) && Bit(a, m) == Bit(b, m))
  {
  }

  lemma {:induction false} SharesShorterPrefix(a: nat, b: nat, k: nat, j: nat, shorter: nat)
    requires shorter <= j <= k
    requires SharesPrefix(a, b, k, j)
    ensures SharesPrefix(a, b, k, shorter)
  {
    if shorter < j {
      PrefixStep(a, b, k - j);
      SharesShorterPrefix(a, b, k, j - 1, shorter);
    }
  }

  lemma {:induction false} StopPositionMeaning(a: nat, b: nat, pos: nat)
    requires ShiftRight(a, pos + 1) == ShiftRight(b, pos + 1)
    ensures var stop := StopPosition(a, b, pos);
      ShiftRight(a, stop + 1) == ShiftRight(b, stop + 1) && (stop > 0 ==> ShiftRight(a, stop) != ShiftRight(b, stop))
  {
    PrefixStep(a, b, pos);
    if pos > 0 && Bit(a, pos) == Bit(b, pos) {
      StopPositionMeaning(a, b, pos - 1);
    }
  }

  /** The scan finds the longest shared prefix among the first K - 1 bits. */
  lemma {:induction false} MatchedLengthIsLongestPrefix(a: nat, b: nat, k: nat)
    requires k >= 1 && a < Pow2(k) && b < Pow2(k)
    ensures forall j {:trigger SharesPrefix(a, b, k, j)} :: 0 <= j <= k - 1 ==>
      (SharesPrefix(a, b, k, j) <==> j <= MatchedLength(a, b, k))
  {
    ShiftRightToZero(a, k);
    ShiftRightToZero(b, k);
    StopPositionMeaning(a, b, k - 1);
    var length := MatchedLength(a, b, k);
    assert SharesPrefix(a, b, k, length);
    forall j | 0 <= j <= k - 1
      ensures SharesPrefix(a, b, k, j) <==> j <= length
    {
      if j <= length {
        SharesShorterPrefix(a, b, k, length, j);
      } else if SharesPrefix(a, b, k, j) {
        SharesShorterPrefix(a, b, k, j, length + 1);
      }
    }
  }

  lemma ToggleShifted(v: nat, n: nat)
    ensures ShiftRight(Toggle(v, n), n) == if Bit(v, n) == 1 then ShiftRight(v, n) - 1 else ShiftRight(v, n) + 1
    ensures ShiftRight(Toggle(v, n), n + 1) == ShiftRight(v, n + 1)
  {
    if Bit(v, n) == 1 {
      BitSetIsLarge(v, n);
      ShiftRightOfSum(v - Pow2(n), n);
    } else {
      ShiftRightOfSum(v, n);
    }
  }

  /** Toggling bit n changes bit n, keeps everything above it and stays inside K bits. */
  lemma ToggleFlipsOneBit(v: nat, n: nat, k: nat)
    requires n < k && v < Pow2(k)
    ensures Toggle(v, n) < Pow2(k)
    ensures SharesPrefix(v, Toggle(v, n), k, k - n - 1)
    ensures !SharesPrefix(v, Toggle(v, n), k, k - n)
    ensures Bit(Toggle(v, n), n) == 1 - Bit(v, n)
  {
    ToggleShifted(v, n);
    ShiftRightTwice(v, n + 1, k - n - 1);
    ShiftRightTwice(Toggle(v, n), n + 1, k - n - 1);
    ShiftRightToZero(v, k);
    ShiftRightToZero(Toggle(v, n), k);
  }

  /** Toggling twice gives back the identifier. */
  lemma ToggleIsAnInvolution(v: nat, n: nat, k: nat)
    requires n < k && v < Pow2(k)
    ensures Toggle(Toggle(v, n), n) == v
  {
    ToggleShifted(v, n);
  }
}
