/**
 The Plexus overlay tree: how identifiers are handed out to hosts, and which host owns which
 identifier. A tree of `size` hosts has `DeepCount` leaves at depth `height` followed by
 leaves at depth `height - 1`; an identifier has `bits` bits.
 */
module PlexusTree {
  import opened Powers
  import opened OverlayIds

  datatype Shape = Shape(size: nat, height: nat, bits: nat) {

    /** `height` is ceil(log2(size)) and identifiers, of at least one bit, are at least that long. */
    ghost predicate Valid() {
      && bits >= 1 && height <= bits
      && 1 <= size <= Pow2(height)
      && (height > 0 ==> Pow2(height - 1) < size)
    }

    /** nodesAtMaxHeight */
    function DeepCount(): (d: nat)
      requires Valid()
      ensures 1 <= d <= size
      ensures if height == 0 then d == size == 1 else d % 2 == 0
    {
      2 * size - Pow2(height)
    }

    /** startingNodeAtPrevLevel; a single host is alone at height 0, where nothing lies above it. */
    function FirstShallow(): (s: nat)
      requires Valid()
      ensures height > 0 ==> 2 * s == DeepCount()
    {
      (if height == 0 then 0 else Pow2(height - 1)) - (size - DeepCount())
    }

    function PrefixLength(i: nat): (p: nat)
      requires Valid()
      ensures height - 1 <= p <= height
    {
      if i < DeepCount() || height == 0 then height else height - 1
    }

    function Width(i: nat): (w: nat)
      requires Valid()
      ensures w >= 1
    {
      Pow2(bits - PrefixLength(i))
    }

    /** The number that is shifted left to give host i its pattern. */
    function Rank(i: nat): (r: nat)
      requires Valid()
    {
      if i < DeepCount() then i else FirstShallow() + (i - DeepCount())
    }

    function Pattern(i: nat): (p: nat)
      requires Valid()
    {
      ShiftLeft(Rank(i), bits - PrefixLength(i))
    }

    function IdOf(i: nat): (id: OverlayId)
      requires Valid()
    {
      OverlayId(Pattern(i), PrefixLength(i), bits)
    }

    /** Host i is responsible for the identifiers [Pattern(i), Pattern(i) + Width(i)). */
    predicate Owns(i: nat, t: nat)
      requires Valid()
    {
      Pattern(i) <= t < Pattern(i) + Width(i)
    }

    /** The owner of t in closed form, without looking at any host. */
    function Owner(t: nat): (i: nat)
      requires Valid()
    {
      if t < ShiftLeft(DeepCount(), bits - height) then ShiftRight(t, bits - height) else
        FirstShallowReached(this, t);
        DeepCount() + (ShiftRight(t, bits - height + 1) - FirstShallow())
    }
  }

  /**
   The identifiers in closed form: the first 2 * size - 2^height hosts are the deep leaves, numbered
   from 0 at depth `height`, and the others follow on at depth `height - 1`.
   */
  lemma IdentifiersAssigned(sh: Shape, i: nat)
    requires sh.Valid() && i < sh.size
    ensures sh.height == 0 ==> sh.IdOf(i) == OverlayId(0, 0, sh.bits)
    ensures sh.height > 0 && i < 2 * sh.size - Pow2(sh.height) ==>
      sh.IdOf(i) == OverlayId(i * Pow2(sh.bits - sh.height), sh.height, sh.bits)
    ensures sh.height > 0 && i >= 2 * sh.size - Pow2(sh.height) ==>
      var rank := Pow2(sh.height - 1) + i - sh.size;
      rank >= 0 && sh.IdOf(i) == OverlayId(rank * Pow2(sh.bits - sh.height + 1), sh.height - 1, sh.bits)
  {
    ShiftLeftIsProduct(sh.Rank(i), sh.bits - sh.PrefixLength(i));
    if sh.height == 0 {
      assert Pow2(0) == 1;
    }
    hide ShiftLeft;
  }

  /** Deep and shallow leaves meet: deepCount deep intervals are as wide as firstShallow shallow ones. */
  lemma DeepMeetsShallow(sh: Shape)
    requires sh.Valid() && sh.height > 0
    ensures ShiftLeft(sh.DeepCount(), sh.bits - sh.height) == ShiftLeft(sh.FirstShallow(), sh.bits - sh.height + 1)
  {
    ShiftLeftTwice(sh.FirstShallow(), 1, sh.bits - sh.height);
    assert ShiftLeft(sh.FirstShallow(), 1) == sh.DeepCount();
  }

  lemma FirstShallowReached(sh: Shape, t: nat)
    requires sh.Valid() && t >= ShiftLeft(sh.DeepCount(), sh.bits - sh.height)
    ensures ShiftRight(t, sh.bits - sh.height + 1) >= sh.FirstShallow()
  {
    if sh.height > 0 {
      DeepMeetsShallow(sh);
      InShiftedBlock(t, sh.FirstShallow(), sh.bits - sh.height + 1);
    }
  }

  /** In index order the intervals follow one another without a gap. */
  lemma IntervalsAreConsecutive(sh: Shape, i: nat)
    requires sh.Valid() && i + 1 < sh.size
    ensures sh.Pattern(i + 1) == sh.Pattern(i) + sh.Width(i)
  {
    InShiftedBlock(0, sh.Rank(i), sh.bits - sh.PrefixLength(i));
    DeepMeetsShallow(sh);
  }

  /** The first interval starts at 0 and the last one ends at 2^bits. */
  lemma IntervalsSpanEverything(sh: Shape)
    requires sh.Valid()
    ensures sh.Pattern(0) == 0
    ensures sh.Pattern(sh.size - 1) + sh.Width(sh.size - 1) == Pow2(sh.bits)
  {
    var i := sh.size - 1;
    var p := sh.PrefixLength(i);
    assert sh.Rank(i) + 1 == Pow2(p);
    hide ShiftLeft, Pow2;
    ShiftLeftIsProduct(0, sh.bits - sh.height);
    InShiftedBlock(0, sh.Rank(i), sh.bits - p);
    ShiftLeftIsProduct(Pow2(p), sh.bits - p);
    Pow2Add(p, sh.bits - p);
  }

  lemma {:induction false} PatternsIncrease(sh: Shape, i: nat, j: nat)
    requires sh.Valid() && i < j < sh.size
    ensures sh.Pattern(i) + sh.Width(i) <= sh.Pattern(j)
  {
    IntervalsAreConsecutive(sh, j - 1);
    if i < j - 1 {
      PatternsIncrease(sh, i, j - 1);
    }
  }

  lemma PatternInRange(sh: Shape, i: nat)
    requires sh.Valid() && i < sh.size
    ensures sh.Pattern(i) + sh.Width(i) <= Pow2(sh.bits)
    ensures sh.IdOf(i).Valid()
    ensures sh.Owns(i, sh.Pattern(i))
  {
    IntervalsSpanEverything(sh);
    if i < sh.size - 1 {
      PatternsIncrease(sh, i, sh.size - 1);
    }
  }

  /**
   The intervals of the hosts partition [0, 2^bits): every identifier has an owner, given in
   closed form, and no other host owns it.
   */
  lemma IntervalsPartition(sh: Shape, t: nat)
    requires sh.Valid() && t < Pow2(sh.bits)
    ensures sh.Owner(t) < sh.size
    ensures forall i :: 0 <= i < sh.size ==> (sh.Owns(i, t) <==> i == sh.Owner(t))
  {
    OwnerOwns(sh, t);
    var o := sh.Owner(t);
    forall i | 0 <= i < sh.size && i != o
      ensures !sh.Owns(i, t)
    {
      if i < o {
        PatternsIncrease(sh, i, o);
      } else {
        PatternsIncrease(sh, o, i);
      }
    }
  }

  lemma OwnerOwns(sh: Shape, t: nat)
    requires sh.Valid() && t < Pow2(sh.bits)
    ensures sh.Owner(t) < sh.size && sh.Owns(sh.Owner(t), t)
  {
    var tail := sh.bits - sh.height;
    ShiftLeftIsProduct(1, tail);
    hide ShiftLeft, ShiftRight, Pow2;
    if t < ShiftLeft(sh.DeepCount(), tail) {
      InShiftedBlock(t, sh.DeepCount(), tail);
      InShiftedBlock(t, ShiftRight(t, tail), tail);
    } else {
      FirstShallowReached(sh, t);
      InShiftedBlock(t, ShiftRight(t, tail + 1), tail + 1);
      ShiftRightTwice(t, tail + 1, sh.height - 1);
      ShiftRightToZero(t, sh.bits);
      ShiftRightToZero(ShiftRight(t, tail + 1), sh.height - 1);
    }
  }

  /** Owning an identifier is the same as sharing the whole prefix with it. */
  lemma OwnsIsPrefix(sh: Shape, i: nat, t: nat)
    requires sh.Valid() && i < sh.size
    ensures sh.Owns(i, t) <==> SharesPrefix(sh.Pattern(i), t, sh.bits, sh.PrefixLength(i))
  {
    InShiftedBlock(t, sh.Rank(i), sh.bits - sh.PrefixLength(i));
    InShiftedBlock(sh.Pattern(i), sh.Rank(i), sh.bits - sh.PrefixLength(i));
  }

  /** A node that is not the owner shares strictly less with an identifier than the owner's prefix length. */
  lemma OthersShareLess(sh: Shape, i: nat, t: nat)
    requires sh.Valid() && i < sh.size && t < Pow2(sh.bits)
    requires i != sh.Owner(t)
    ensures var o := sh.Owner(t);
      o < sh.size && !SharesPrefix(sh.Pattern(i), t, sh.bits, sh.PrefixLength(o))
  {
    IntervalsPartition(sh, t);
    var o := sh.Owner(t);
    OwnsIsPrefix(sh, o, t);
    if SharesPrefix(sh.Pattern(i), t, sh.bits, sh.PrefixLength(o)) {
      // then i's own pattern would lie in o's interval
      OwnsIsPrefix(sh, o, sh.Pattern(i));
      PatternInRange(sh, i);
      IntervalsPartition(sh, sh.Pattern(i));
    }
  }

  // ---------------------------------------------------------------- search

  function MatchWith(sh: Shape, t: nat, i: nat): (length: nat)
    requires sh.Valid()
    ensures length <= sh.bits - 1
  {
    MatchedLength(t, sh.Pattern(i), sh.bits)
  }

  /** What a scan over all hosts for the first longest match must return. */
  ghost predicate IsFirstLongestMatch(sh: Shape, t: nat, r: nat)
    requires sh.Valid()
  {
    && r < sh.size
    && (forall i :: 0 <= i < sh.size ==> MatchWith(sh, t, i) <= MatchWith(sh, t, r))
    && (forall i :: 0 <= i < r ==> MatchWith(sh, t, i) < MatchWith(sh, t, r))
  }

  /** The first longest match among the first m hosts. */
  function Scan(sh: Shape, t: nat, m: nat): (r: nat)
    requires sh.Valid() && 1 <= m <= sh.size
    ensures r < m
  {
    if m == 1 then 0 else
      var best := Scan(sh, t, m - 1);
      if MatchWith(sh, t, m - 1) > MatchWith(sh, t, best) then m - 1 else best
  }

  function Search(sh: Shape, t: nat): (r: nat)
    requires sh.Valid()
    ensures r < sh.size
  {
    Scan(sh, t, sh.size)
  }

  lemma {:induction false} ScanFindsFirstLongest(sh: Shape, t: nat, m: nat)
    requires sh.Valid() && 1 <= m <= sh.size
    ensures forall i :: 0 <= i < m ==> MatchWith(sh, t, i) <= MatchWith(sh, t, Scan(sh, t, m))
    ensures forall i :: 0 <= i < Scan(sh, t, m) ==> MatchWith(sh, t, i) < MatchWith(sh, t, Scan(sh, t, m))
  {
    if m > 1 {
      ScanFindsFirstLongest(sh, t, m - 1);
    }
  }

  /** The search returns the first of the longest matches, and nothing else is one. */
  lemma SearchFindsFirstLongest(sh: Shape, t: nat)
    requires sh.Valid()
    ensures IsFirstLongestMatch(sh, t, Search(sh, t))
    ensures forall r :: IsFirstLongestMatch(sh, t, r) ==> r == Search(sh, t)
  {
    ScanFindsFirstLongest(sh, t, sh.size);
  }

  /** Identifiers for which the search goes wrong: bit 0 is a prefix bit of the owner, and it is set. */
  predicate LastBitDecides(sh: Shape, t: nat)
    requires sh.Valid()
  {
    sh.bits == sh.height && t < sh.DeepCount() && t % 2 == 1
  }

  lemma MatchMeaning(sh: Shape, t: nat, i: nat, j: nat)
    requires sh.Valid() && i < sh.size && t < Pow2(sh.bits) && j <= sh.bits - 1
    ensures SharesPrefix(sh.Pattern(i), t, sh.bits, j) <==> j <= MatchWith(sh, t, i)
  {
    PatternInRange(sh, i);
    MatchedLengthIsLongestPrefix(t, sh.Pattern(i), sh.bits);
    assert SharesPrefix(t, sh.Pattern(i), sh.bits, j) <==> j <= MatchWith(sh, t, i);
  }

  /** When the owner's prefix does not use bit 0, the owner is the only longest match. */
  lemma OwnerMatchesLongest(sh: Shape, i: nat, t: nat)
    requires sh.Valid() && i < sh.size && t < Pow2(sh.bits)
    requires i != sh.Owner(t) && sh.PrefixLength(sh.Owner(t)) < sh.bits
    ensures sh.Owner(t) < sh.size
    ensures MatchWith(sh, t, i) < sh.PrefixLength(sh.Owner(t)) <= MatchWith(sh, t, sh.Owner(t))
  {
    var o := sh.Owner(t);
    IntervalsPartition(sh, t);
    OwnsIsPrefix(sh, o, t);
    OthersShareLess(sh, i, t);
    MatchMeaning(sh, t, o, sh.PrefixLength(o));
    MatchMeaning(sh, t, i, sh.PrefixLength(o));
  }

  lemma DeepPatternIsIndex(sh: Shape, i: nat)
    requires sh.Valid() && sh.bits == sh.height && i < sh.DeepCount()
    ensures sh.Pattern(i) == i && i < Pow2(sh.bits) && sh.Owner(i) == i
  {
    PatternInRange(sh, i);
  }

  /** With bits == height the deep patterns are 0, 1, 2, ... and all but bit 0 is compared. */
  lemma DeepMatch(sh: Shape, t: nat, i: nat)
    requires sh.Valid() && sh.bits == sh.height && t < sh.DeepCount() && i < sh.DeepCount()
    ensures MatchWith(sh, t, i) == sh.bits - 1 <==> i / 2 == t / 2
  {
    DeepPatternIsIndex(sh, i);
    DeepPatternIsIndex(sh, t);
    MatchMeaning(sh, t, i, sh.bits - 1);
    assert ShiftRight(i, 1) == i / 2 && ShiftRight(t, 1) == t / 2;
  }

  /** So the even member of a pair is always found, whichever of the two is looked for. */
  lemma DeepPairsTie(sh: Shape, t: nat)
    requires sh.Valid() && sh.bits == sh.height && t < sh.DeepCount()
    ensures Search(sh, t) == t - t % 2
  {
    var e := t - t % 2;
    DeepMatch(sh, t, e);
    forall i | 0 <= i < e
      ensures MatchWith(sh, t, i) < sh.bits - 1
    {
      DeepMatch(sh, t, i);
    }
    SearchFindsFirstLongest(sh, t);
    assert IsFirstLongestMatch(sh, t, e);
  }

  lemma ShallowOwnerFound(sh: Shape, t: nat)
    requires sh.Valid() && t < Pow2(sh.bits)
    requires sh.PrefixLength(sh.Owner(t)) < sh.bits
    ensures Search(sh, t) == sh.Owner(t)
  {
    SearchFindsFirstLongest(sh, t);
    IntervalsPartition(sh, t);
    if Search(sh, t) != sh.Owner(t) {
      OwnerMatchesLongest(sh, Search(sh, t), t);
    }
  }

  /**
   The exact correctness of the longest-prefix search. It returns the owner of every identifier
   except those whose owner is told apart from its sibling by bit 0 alone.
   */
  lemma SearchFindsOwnerExactlyWhen(sh: Shape, t: nat)
    requires sh.Valid() && t < Pow2(sh.bits)
    ensures Search(sh, t) == sh.Owner(t) <==> !LastBitDecides(sh, t)
  {
    if sh.bits == sh.height && t < sh.DeepCount() {
      DeepPatternIsIndex(sh, t);
      DeepPairsTie(sh, t);
    } else {
      if sh.bits == sh.height {
        FirstShallowReached(sh, t);
      }
      ShallowOwnerFound(sh, t);
    }
  }

  // ---------------------------------------------------------------- whole arrays

  /** All identifiers in index order. */
  function Ids(sh: Shape): (ids: seq<OverlayId>)
    requires sh.Valid()
  {
    seq(sh.size, i requires 0 <= i < sh.size => sh.IdOf(i))
  }

  /** Whenever identifiers are longer than the tree is high, the search always finds the owner. */
  lemma SearchFindsOwner(sh: Shape, t: nat)
    requires sh.Valid() && t < Pow2(sh.bits) && sh.bits > sh.height
    ensures Search(sh, t) == sh.Owner(t)
  {
    SearchFindsOwnerExactlyWhen(sh, t);
  }
}
