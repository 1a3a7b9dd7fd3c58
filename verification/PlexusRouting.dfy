/**
 Routing over the Plexus tree: what the routing tables contain and why a greedy walk over them
 reaches the owner of any identifier.
 */
module PlexusRouting {
  import opened Shared
  import opened Powers
  import opened OverlayIds
  import opened LookupTables
  import opened PlexusTree

  /** v with its first j of k bits toggled. */
  function ToggleLeading(v: nat, k: nat, j: nat): (r: nat)
    requires j <= k
  {
    if j == 0 then v else Toggle(ToggleLeading(v, k, j - 1), k - j)
  }

  /** Adds a link to whichever host the search names for `pattern`, unless that is host i itself. */
  function LinkTo(sh: Shape, hosts: seq<HostAddress>, i: nat, pattern: nat, table: LookupTable<HostAddress>)
    : (r: LookupTable<HostAddress>)
    requires sh.Valid() && i < sh.size == |hosts|
  {
    var n := Search(sh, pattern);
    if sh.IdOf(n).Equals(sh.IdOf(i)) then table else Add(table, sh.IdOf(n), hosts[n])
  }

  function NeighbourPattern(sh: Shape, i: nat, j: nat): (r: nat)
    requires sh.Valid() && j < sh.bits
  {
    Toggle(sh.Pattern(i), sh.bits - j - 1)
  }

  /** Host i's table after the first j prefix bits have been toggled one at a time. */
  function Links(sh: Shape, hosts: seq<HostAddress>, i: nat, j: nat): (r: LookupTable<HostAddress>)
    requires sh.Valid() && i < sh.size == |hosts| && j <= sh.PrefixLength(i)
  {
    if j == 0 then map[] else
      LinkTo(sh, hosts, i, NeighbourPattern(sh, i, j - 1), Links(sh, hosts, i, j - 1))
  }

  function ReplicaPattern(sh: Shape, i: nat): (r: nat)
    requires sh.Valid()
  {
    ToggleLeading(sh.Pattern(i), sh.bits, sh.PrefixLength(i))
  }

  /** The finished routing table: one link per prefix bit and one to the replica. */
  function Table(sh: Shape, hosts: seq<HostAddress>, i: nat): (r: LookupTable<HostAddress>)
    requires sh.Valid() && i < sh.size == |hosts|
  {
    LinkTo(sh, hosts, i, ReplicaPattern(sh, i), Links(sh, hosts, i, sh.PrefixLength(i)))
  }

  /** The tables of all hosts in index order. */
  function Tables(sh: Shape, hosts: seq<HostAddress>): (r: seq<LookupTable<HostAddress>>)
    requires sh.Valid() && sh.size == |hosts|
  {
    seq(sh.size, i requires 0 <= i < sh.size => Table(sh, hosts, i))
  }

  /** The directory from identifier to address after the first m hosts have been added. */
  function Directory(sh: Shape, hosts: seq<HostAddress>, m: nat): (r: LookupTable<HostAddress>)
    requires sh.Valid() && m <= sh.size == |hosts|
  {
    if m == 0 then map[] else Add(Directory(sh, hosts, m - 1), sh.IdOf(m - 1), hosts[m - 1])
  }

  /** Looking a host's identifier up in the directory gives that host's own address. */
  lemma {:induction false} DirectoryLookup(sh: Shape, hosts: seq<HostAddress>, m: nat, i: nat)
    requires sh.Valid() && m <= sh.size == |hosts| && i < sh.size
    ensures Lookup(Directory(sh, hosts, m), sh.IdOf(i)) == if i < m then Some(hosts[i]) else None
  {
    if m > 0 {
      DirectoryLookup(sh, hosts, m - 1, i);
      DirectoryLookup(sh, hosts, m - 1, m - 1);
      if i != m - 1 {
        DifferentHostsDifferentPatterns(sh, i, m - 1);
      }
    }
  }

  /** The host that host i links to for bit j. */
  function Neighbour(sh: Shape, i: nat, j: nat): (r: nat)
    requires sh.Valid() && j < sh.bits
  {
    Search(sh, NeighbourPattern(sh, i, j))
  }

  function Replica(sh: Shape, i: nat): (r: nat)
    requires sh.Valid()
  {
    Search(sh, ReplicaPattern(sh, i))
  }

  /** Prefix bits shared by two hosts, or by a host and an identifier. */
  function Common(sh: Shape, i: nat, t: nat): (c: nat)
    requires sh.Valid()
  {
    MatchedLength(sh.Pattern(i), t, sh.bits)
  }

  // ---------------------------------------------------------------- prefixes

  lemma CommonMeaning(sh: Shape, i: nat, t: nat, j: nat)
    requires sh.Valid() && i < sh.size && t < Pow2(sh.bits) && j <= sh.bits - 1
    ensures SharesPrefix(sh.Pattern(i), t, sh.bits, j) <==> j <= Common(sh, i, t)
  {
    PatternInRange(sh, i);
    MatchedLengthIsLongestPrefix(sh.Pattern(i), t, sh.bits);
  }

  lemma {:induction false} ShiftRightOfMultiple(v: nat, n: nat, m: nat)
    requires m <= n
    ensures ShiftRight(v + Pow2(n), m) == ShiftRight(v, m) + Pow2(n - m)
  {
    if m > 0 {
      ShiftRightOfMultiple(v, n, m - 1);
      assert Pow2(n - m + 1) == 2 * Pow2(n - m);
    }
  }

  lemma SumKeepsLowerBits(v: nat, n: nat, m: nat)
    requires m < n
    ensures Bit(v + Pow2(n), m) == Bit(v, m)
  {
    ShiftRightOfMultiple(v, n, m);
    assert Pow2(n - m) == 2 * Pow2(n - m - 1);
  }

  /** Toggling bit n leaves every lower bit alone. */
  lemma ToggleKeepsLowerBits(v: nat, n: nat, m: nat)
    requires m < n
    ensures Bit(Toggle(v, n), m) == Bit(v, m)
  {
    hide ShiftRight, Pow2;
    if Bit(v, n) == 1 {
      BitSetIsLarge(v, n);
      SumKeepsLowerBits(v - Pow2(n), n, m);
    } else {
      SumKeepsLowerBits(v, n, m);
    }
  }

  /** Toggling the first j bits touches nothing below them. */
  lemma {:induction false} ToggleLeadingKeepsTail(v: nat, k: nat, j: nat, m: nat)
    requires m < k - j
    ensures Bit(ToggleLeading(v, k, j), m) == Bit(v, m)
  {
    if j > 0 {
      ToggleLeadingKeepsTail(v, k, j - 1, m);
      ToggleKeepsLowerBits(ToggleLeading(v, k, j - 1), k - j, m);
    }
  }

  /** Toggling the first j bits complements the prefix of length j. */
  lemma {:induction false} ToggleLeadingComplements(v: nat, k: nat, j: nat)
    requires j <= k && v < Pow2(k)
    ensures ToggleLeading(v, k, j) < Pow2(k)
    ensures ShiftRight(ToggleLeading(v, k, j), k - j) == Pow2(j) - 1 - ShiftRight(v, k - j)
  {
    if j == 0 {
      ShiftRightToZero(v, k);
    } else {
      var u := ToggleLeading(v, k, j - 1);
      ToggleLeadingComplements(v, k, j - 1);
      ToggleLeadingKeepsTail(v, k, j - 1, k - j);
      ToggleFlipsOneBit(u, k - j, k);
      ToggleShifted(u, k - j);
    }
  }

  // ---------------------------------------------------------------- the links

  /** An identifier that leaves host i at bit j belongs to a host that leaves i at bit j as well. */
  lemma OwnerOfBranch(sh: Shape, i: nat, x: nat, j: nat)
    requires sh.Valid() && i < sh.size && x < Pow2(sh.bits) && j < sh.PrefixLength(i) < sh.bits
    requires Common(sh, i, x) == j
    ensures var o := sh.Owner(x);
      && o < sh.size && o != i
      && Common(sh, i, sh.Pattern(o)) == j
      && j < sh.PrefixLength(o)
      && SharesPrefix(sh.Pattern(o), x, sh.bits, j + 1)
  {
    var o := sh.Owner(x);
    IntervalsPartition(sh, x);
    OwnsIsPrefix(sh, o, x);
    CommonMeaning(sh, i, x, j);
    CommonMeaning(sh, i, x, j + 1);
    PatternInRange(sh, o);
    PatternInRange(sh, i);
    if sh.PrefixLength(o) <= j {
      // o's whole prefix would be a prefix of i's pattern, so o would own it
      SharesShorterPrefix(sh.Pattern(i), x, sh.bits, j, sh.PrefixLength(o));
      OwnsIsPrefix(sh, o, sh.Pattern(i));
      IntervalsPartition(sh, sh.Pattern(i));
    }
    SharesShorterPrefix(sh.Pattern(o), x, sh.bits, sh.PrefixLength(o), j + 1);
    SharesShorterPrefix(sh.Pattern(o), x, sh.bits, j + 1, j);
    CommonMeaning(sh, i, sh.Pattern(o), j);
    CommonMeaning(sh, i, sh.Pattern(o), j + 1);
  }

  /** The link for bit j leads to the owner of the flipped pattern, which shares exactly j bits with i. */
  lemma NeighbourSharesExactly(sh: Shape, i: nat, j: nat)
    requires sh.Valid() && i < sh.size && j < sh.PrefixLength(i) && sh.bits > sh.height
    ensures NeighbourPattern(sh, i, j) < Pow2(sh.bits)
    ensures Neighbour(sh, i, j) == sh.Owner(NeighbourPattern(sh, i, j))
    ensures Neighbour(sh, i, j) != i
    ensures Common(sh, i, sh.Pattern(Neighbour(sh, i, j))) == j
    ensures Common(sh, i, NeighbourPattern(sh, i, j)) == j
  {
    var x := NeighbourPattern(sh, i, j);
    PatternInRange(sh, i);
    ToggleFlipsOneBit(sh.Pattern(i), sh.bits - j - 1, sh.bits);
    SearchFindsOwner(sh, x);
    CommonMeaning(sh, i, x, j);
    CommonMeaning(sh, i, x, j + 1);
    OwnerOfBranch(sh, i, x, j);
  }

  lemma FirstBitOfComplement(a: nat, p: nat)
    requires p >= 1 && a < Pow2(p)
    ensures ShiftRight(a, p - 1) != ShiftRight(Pow2(p) - 1 - a, p - 1)
  {
    InShiftedBlock(a, 1, p - 1);
    InShiftedBlock(Pow2(p) - 1 - a, 1, p - 1);
    ShiftLeftIsProduct(1, p - 1);
  }

  /** The complement of a prefix already differs in the first bit. */
  lemma ReplicaLeavesAtOnce(sh: Shape, i: nat)
    requires sh.Valid() && i < sh.size && sh.PrefixLength(i) >= 1
    ensures ReplicaPattern(sh, i) < Pow2(sh.bits)
    ensures !SharesPrefix(sh.Pattern(i), ReplicaPattern(sh, i), sh.bits, 1)
  {
    var v, x, p := sh.Pattern(i), ReplicaPattern(sh, i), sh.PrefixLength(i);
    PatternInRange(sh, i);
    ToggleLeadingComplements(v, sh.bits, p);
    ShiftRightTwice(v, sh.bits - p, p - 1);
    ShiftRightTwice(x, sh.bits - p, p - 1);
    PrefixInRange(v, sh.bits, p);
    hide ShiftRight, Pow2, ToggleLeading;
    FirstBitOfComplement(ShiftRight(v, sh.bits - p), p);
  }

  lemma PrefixInRange(v: nat, k: nat, p: nat)
    requires p <= k && v < Pow2(k)
    ensures ShiftRight(v, k - p) < Pow2(p)
  {
    ShiftRightToZero(v, k);
    ShiftRightTwice(v, k - p, p);
    ShiftRightToZero(ShiftRight(v, k - p), p);
  }

  /** The replica link leads to the owner of the complemented prefix, which shares no bit with i. */
  lemma ReplicaSharesNothing(sh: Shape, i: nat)
    requires sh.Valid() && i < sh.size && sh.bits > sh.height > 0
    ensures ReplicaPattern(sh, i) < Pow2(sh.bits)
    ensures Replica(sh, i) == sh.Owner(ReplicaPattern(sh, i))
    ensures Replica(sh, i) != i
    ensures Common(sh, i, sh.Pattern(Replica(sh, i))) == 0
  {
    var x := ReplicaPattern(sh, i);
    assert sh.PrefixLength(i) >= 1 by {
      if sh.height == 1 {
        assert sh.DeepCount() == sh.size by { HeightOne(sh); }
      }
    }
    ReplicaLeavesAtOnce(sh, i);
    SearchFindsOwner(sh, x);
    hide ReplicaPattern;
    CommonMeaning(sh, i, x, 1);
    OwnerOfBranch(sh, i, x, 0);
  }

  lemma HeightOne(sh: Shape)
    requires sh.Valid() && sh.height == 1
    ensures sh.DeepCount() == sh.size
  {
    assert Pow2(1) == 2;
  }

  /** The entry under `key` is another host's identifier with that host's own address. */
  ghost predicate IsHostEntry(sh: Shape, hosts: seq<HostAddress>, i: nat, key: nat, entry: (OverlayId, HostAddress))
    requires sh.Valid() && |hosts| == sh.size
  {
    var k := sh.Owner(key);
    k < sh.size && k != i && key == sh.Pattern(k) && entry == (sh.IdOf(k), hosts[k])
  }

  ghost predicate EntriesAreHosts(sh: Shape, hosts: seq<HostAddress>, i: nat, table: LookupTable<HostAddress>)
    requires sh.Valid() && |hosts| == sh.size
  {
    forall key :: key in table ==> IsHostEntry(sh, hosts, i, key, table[key])
  }

  /** The key under which the link for bit j is stored. */
  function LinkKey(sh: Shape, i: nat, j: nat): (key: nat)
    requires sh.Valid() && j < sh.bits
  {
    sh.Pattern(Neighbour(sh, i, j))
  }

  function LinkKeys(sh: Shape, i: nat, j: nat): (keys: seq<nat>)
    requires sh.Valid() && j <= sh.bits
  {
    seq(j, b requires 0 <= b < j => LinkKey(sh, i, b))
  }

  /** Each link key says by itself which bit it belongs to, so no two are equal. */
  lemma LinkKeyIsNew(sh: Shape, i: nat, j: nat)
    requires sh.Valid() && i < sh.size && j < sh.PrefixLength(i) && sh.bits > sh.height
    ensures LinkKey(sh, i, j) !in LinkKeys(sh, i, j)
  {
    NeighbourSharesExactly(sh, i, j);
    forall b | 0 <= b < j
      ensures LinkKeys(sh, i, j)[b] != LinkKey(sh, i, j)
    {
      NeighbourSharesExactly(sh, i, b);
    }
  }

  lemma HostEntry(sh: Shape, hosts: seq<HostAddress>, i: nat, n: nat)
    requires sh.Valid() && |hosts| == sh.size && n < sh.size && n != i
    ensures IsHostEntry(sh, hosts, i, sh.Pattern(n), (sh.IdOf(n), hosts[n]))
  {
    PatternInRange(sh, n);
    IntervalsPartition(sh, sh.Pattern(n));
  }

  /** One entry per bit, under the link keys of the first j bits, each a host with its own address. */
  ghost predicate LinksAreRight(sh: Shape, hosts: seq<HostAddress>, i: nat, j: nat, table: LookupTable<HostAddress>)
    requires sh.Valid() && i < sh.size == |hosts| && j <= sh.bits
  {
    && |table| == j
    && EntriesAreHosts(sh, hosts, i, table)
    && table.Keys == (set key | key in LinkKeys(sh, i, j))
  }

  lemma EntryAdded(sh: Shape, hosts: seq<HostAddress>, i: nat, table: LookupTable<HostAddress>,
                   key: nat, entry: (OverlayId, HostAddress))
    requires sh.Valid() && |hosts| == sh.size
    requires EntriesAreHosts(sh, hosts, i, table)
    requires IsHostEntry(sh, hosts, i, key, entry)
    ensures EntriesAreHosts(sh, hosts, i, table[key := entry])
  {
  }

  lemma LinkStep(sh: Shape, hosts: seq<HostAddress>, i: nat, j: nat) returns (entry: (OverlayId, HostAddress))
    requires sh.Valid() && i < sh.size == |hosts| && j < sh.PrefixLength(i) && sh.bits > sh.height
    requires LinkKey(sh, i, j) !in Links(sh, hosts, i, j)
    ensures IsHostEntry(sh, hosts, i, LinkKey(sh, i, j), entry)
    ensures Links(sh, hosts, i, j + 1) == Links(sh, hosts, i, j)[LinkKey(sh, i, j) := entry]
  {
    var n := Neighbour(sh, i, j);
    NeighbourSharesExactly(sh, i, j);
    DifferentHostsDifferentPatterns(sh, i, n);
    HostEntry(sh, hosts, i, n);
    entry := (sh.IdOf(n), hosts[n]);
  }

  lemma LinkKeepsRight(sh: Shape, hosts: seq<HostAddress>, i: nat, j: nat)
    requires sh.Valid() && i < sh.size == |hosts| && j < sh.PrefixLength(i) && sh.bits > sh.height
    requires LinksAreRight(sh, hosts, i, j, Links(sh, hosts, i, j))
    ensures LinksAreRight(sh, hosts, i, j + 1, Links(sh, hosts, i, j + 1))
  {
    LinkKeyIsNew(sh, i, j);
    var entry := LinkStep(sh, hosts, i, j);
    EntryAdded(sh, hosts, i, Links(sh, hosts, i, j), LinkKey(sh, i, j), entry);
    LinkKeysSnoc(sh, i, j);
    OneKeyMore(Links(sh, hosts, i, j), LinkKeys(sh, i, j), LinkKey(sh, i, j), entry);
    hide EntriesAreHosts, IsHostEntry, Links, LinkKeys, LinkKey;
  }

  lemma OneKeyMore<V>(table: map<nat, V>, keys: seq<nat>, key: nat, entry: V)
    requires table.Keys == (set k | k in keys) && key !in keys
    ensures table[key := entry].Keys == (set k | k in keys + [key])
    ensures |table[key := entry]| == |table| + 1
  {
    assert table[key := entry].Keys == table.Keys + {key};
  }

  lemma LinkKeysSnoc(sh: Shape, i: nat, j: nat)
    requires sh.Valid() && j < sh.bits
    ensures LinkKeys(sh, i, j + 1) == LinkKeys(sh, i, j) + [LinkKey(sh, i, j)]
  {
  }

  lemma {:induction false} LinksContents(sh: Shape, hosts: seq<HostAddress>, i: nat, j: nat)
    requires sh.Valid() && i < sh.size == |hosts| && j <= sh.PrefixLength(i) && sh.bits > sh.height
    ensures LinksAreRight(sh, hosts, i, j, Links(sh, hosts, i, j))
  {
    hide LinksAreRight, Links;
    if j == 0 {
      NoLinksYet(sh, hosts, i);
    } else {
      LinksContents(sh, hosts, i, j - 1);
      LinkKeepsRight(sh, hosts, i, j - 1);
    }
  }

  lemma NoLinksYet(sh: Shape, hosts: seq<HostAddress>, i: nat)
    requires sh.Valid() && i < sh.size == |hosts|
    ensures LinksAreRight(sh, hosts, i, 0, Links(sh, hosts, i, 0))
  {
    assert LinkKeys(sh, i, 0) == [];
  }

  lemma DifferentHostsDifferentPatterns(sh: Shape, i: nat, k: nat)
    requires sh.Valid() && i < sh.size && k < sh.size && i != k
    ensures sh.Pattern(i) != sh.Pattern(k)
  {
    if i < k {
      PatternsIncrease(sh, i, k);
    } else {
      PatternsIncrease(sh, k, i);
    }
  }

  /**
   What a routing table holds, exactly: one entry per prefix bit and, if it is not among them
   already, one for the replica; every entry is another host's identifier with that host's
   own address. A single host has nobody to link to.
   */
  lemma TableContents(sh: Shape, hosts: seq<HostAddress>, i: nat)
    requires sh.Valid() && i < sh.size == |hosts| && sh.bits > sh.height
    ensures EntriesAreHosts(sh, hosts, i, Table(sh, hosts, i))
    ensures if sh.height == 0 then Table(sh, hosts, i) == map[] else HasAllLinks(sh, i, Table(sh, hosts, i))
  {
    if sh.height > 0 {
      FullTableContents(sh, hosts, i);
    }
  }

  ghost predicate HasAllLinks(sh: Shape, i: nat, table: LookupTable<HostAddress>)
    requires sh.Valid()
  {
    && table.Keys == (set key | key in LinkKeys(sh, i, sh.PrefixLength(i))) + {sh.Pattern(Replica(sh, i))}
    && |table| == if Replica(sh, i) == Neighbour(sh, i, 0) then sh.PrefixLength(i) else sh.PrefixLength(i) + 1
  }

  lemma FullTableContents(sh: Shape, hosts: seq<HostAddress>, i: nat)
    requires sh.Valid() && i < sh.size == |hosts| && sh.bits > sh.height > 0
    ensures EntriesAreHosts(sh, hosts, i, Table(sh, hosts, i))
    ensures HasAllLinks(sh, i, Table(sh, hosts, i))
  {
    var r := Replica(sh, i);
    LinksContents(sh, hosts, i, sh.PrefixLength(i));
    ReplicaSharesNothing(sh, i);
    DifferentHostsDifferentPatterns(sh, i, r);
    ReplicaIsNewOrFirst(sh, i);
    HostEntry(sh, hosts, i, r);
  }

  lemma ReplicaIsNewOrFirst(sh: Shape, i: nat)
    requires sh.Valid() && i < sh.size && sh.bits > sh.height > 0
    ensures sh.Pattern(Replica(sh, i)) in LinkKeys(sh, i, sh.PrefixLength(i)) <==> Replica(sh, i) == Neighbour(sh, i, 0)
  {
    var keys, key := LinkKeys(sh, i, sh.PrefixLength(i)), sh.Pattern(Replica(sh, i));
    ReplicaSharesNothing(sh, i);
    assert keys[0] == LinkKey(sh, i, 0);
    if Replica(sh, i) != Neighbour(sh, i, 0) {
      DifferentHostsDifferentPatterns(sh, Replica(sh, i), Neighbour(sh, i, 0));
      forall b | 0 <= b < |keys|
        ensures keys[b] != key
      {
        NeighbourSharesExactly(sh, i, b);
      }
    }
  }

  // ---------------------------------------------------------------- greedy walks

  /** Host k is in host i's table and no other entry shares more of t. */
  ghost predicate IsGreedyHop(sh: Shape, hosts: seq<HostAddress>, i: nat, k: nat, t: nat)
    requires sh.Valid() && i < sh.size == |hosts|
  {
    && k < sh.size
    && sh.Pattern(k) in Table(sh, hosts, i)
    && forall key :: key in Table(sh, hosts, i) ==> MatchedLength(key, t, sh.bits) <= Common(sh, k, t)
  }

  /** A message for t moves greedily and stops at the owner. */
  ghost predicate IsGreedyWalk(sh: Shape, hosts: seq<HostAddress>, walk: seq<nat>, t: nat)
    requires sh.Valid() && |hosts| == sh.size
  {
    && |walk| > 0
    && (forall x :: 0 <= x < |walk| ==> walk[x] < sh.size)
    && (forall x :: 0 <= x < |walk| - 1 ==>
          !sh.Owns(walk[x], t) && IsGreedyHop(sh, hosts, walk[x], walk[x + 1], t))
  }

  ghost predicate Delivers(sh: Shape, hosts: seq<HostAddress>, i: nat, t: nat)
    requires sh.Valid() && |hosts| == sh.size
  {
    exists walk :: IsGreedyWalk(sh, hosts, walk, t) && walk[0] == i && sh.Owns(walk[|walk| - 1], t)
  }

  /** Two identifiers that leave host i at the same bit agree on that bit. */
  lemma SameBranchAgrees(sh: Shape, i: nat, t: nat, x: nat, c: nat)
    requires sh.Valid() && i < sh.size && t < Pow2(sh.bits) && x < Pow2(sh.bits) && c + 1 < sh.bits
    requires Common(sh, i, t) == c == Common(sh, i, x)
    ensures SharesPrefix(t, x, sh.bits, c + 1)
  {
    CommonMeaning(sh, i, t, c);
    CommonMeaning(sh, i, t, c + 1);
    CommonMeaning(sh, i, x, c);
    CommonMeaning(sh, i, x, c + 1);
    PrefixStep(sh.Pattern(i), t, sh.bits - c - 1);
    PrefixStep(sh.Pattern(i), x, sh.bits - c - 1);
    PrefixStep(t, x, sh.bits - c - 1);
  }

  lemma NeighbourIsCloser(sh: Shape, i: nat, t: nat)
    requires sh.Valid() && i < sh.size && t < Pow2(sh.bits) && sh.bits > sh.height
    requires Common(sh, i, t) < sh.PrefixLength(i)
    ensures Common(sh, Neighbour(sh, i, Common(sh, i, t)), t) > Common(sh, i, t)
  {
    var c := Common(sh, i, t);
    NeighbourSharesExactly(sh, i, c);
    var n, x := Neighbour(sh, i, c), NeighbourPattern(sh, i, c);
    OwnerOfBranch(sh, i, x, c);
    SameBranchAgrees(sh, i, t, x, c);
    CommonMeaning(sh, n, t, c + 1);
  }

  /** Some entry of i's table shares strictly more of t than i does, for every t that i does not own. */
  lemma TableMakesProgress(sh: Shape, hosts: seq<HostAddress>, i: nat, t: nat)
    requires sh.Valid() && i < sh.size == |hosts| && t < Pow2(sh.bits) && sh.bits > sh.height
    requires !sh.Owns(i, t)
    ensures Common(sh, i, t) < sh.PrefixLength(i)
    ensures LinkKey(sh, i, Common(sh, i, t)) in Table(sh, hosts, i)
    ensures Common(sh, Neighbour(sh, i, Common(sh, i, t)), t) > Common(sh, i, t)
  {
    OwnsIsPrefix(sh, i, t);
    CommonMeaning(sh, i, t, sh.PrefixLength(i));
    TableContents(sh, hosts, i);
    assert LinkKeys(sh, i, sh.PrefixLength(i))[Common(sh, i, t)] == LinkKey(sh, i, Common(sh, i, t));
    NeighbourIsCloser(sh, i, t);
  }

  /** A greedy hop away from a host that does not own t gets strictly closer to t. */
  lemma GreedyHopGetsCloser(sh: Shape, hosts: seq<HostAddress>, i: nat, k: nat, t: nat)
    requires sh.Valid() && i < sh.size == |hosts| && t < Pow2(sh.bits) && sh.bits > sh.height
    requires !sh.Owns(i, t) && IsGreedyHop(sh, hosts, i, k, t)
    ensures Common(sh, i, t) < Common(sh, k, t)
  {
    TableMakesProgress(sh, hosts, i, t);
  }

  lemma {:induction false} BestKey(keys: set<nat>, t: nat, bits: nat) returns (best: nat)
    requires keys != {} && bits >= 1
    ensures best in keys
    ensures forall key :: key in keys ==> MatchedLength(key, t, bits) <= MatchedLength(best, t, bits)
  {
    best :| best in keys;
    if keys != {best} {
      var other := BestKey(keys - {best}, t, bits);
      if MatchedLength(other, t, bits) > MatchedLength(best, t, bits) {
        best := other;
      }
    }
  }

  lemma GreedyHopExists(sh: Shape, hosts: seq<HostAddress>, i: nat, t: nat) returns (k: nat)
    requires sh.Valid() && i < sh.size == |hosts| && t < Pow2(sh.bits) && sh.bits > sh.height
    requires !sh.Owns(i, t)
    ensures k < sh.size && IsGreedyHop(sh, hosts, i, k, t)
  {
    TableMakesProgress(sh, hosts, i, t);
    TableContents(sh, hosts, i);
    var table := Table(sh, hosts, i);
    var key := BestKey(table.Keys, t, sh.bits);
    assert IsHostEntry(sh, hosts, i, key, table[key]);
    k := sh.Owner(key);
  }

  lemma {:induction false} WalkGetsCloser(sh: Shape, hosts: seq<HostAddress>, walk: seq<nat>, t: nat, x: nat)
    requires sh.Valid() && |hosts| == sh.size && t < Pow2(sh.bits) && sh.bits > sh.height
    requires IsGreedyWalk(sh, hosts, walk, t) && x < |walk|
    ensures Common(sh, walk[x], t) >= Common(sh, walk[0], t) + x
  {
    if x > 0 {
      WalkGetsCloser(sh, hosts, walk, t, x - 1);
      assert walk[x - 1 + 1] == walk[x];
      GreedyHopGetsCloser(sh, hosts, walk[x - 1], walk[x], t);
    }
  }

  lemma GreedyWalkIsShort(sh: Shape, hosts: seq<HostAddress>, walk: seq<nat>, t: nat)
    requires sh.Valid() && |hosts| == sh.size && t < Pow2(sh.bits) && sh.bits > sh.height
    requires IsGreedyWalk(sh, hosts, walk, t)
    ensures |walk| - 1 <= sh.height
  {
    if |walk| > 1 {
      WalkGetsCloser(sh, hosts, walk, t, |walk| - 2);
      TableMakesProgress(sh, hosts, walk[|walk| - 2], t);
    }
  }

  /**
   However ties are broken, a greedy walk makes at most `height` hops, and as long as it has
   not reached the owner it can go on.
   */
  lemma EveryGreedyWalkIsShort(sh: Shape, hosts: seq<HostAddress>, walk: seq<nat>, t: nat)
    requires sh.Valid() && |hosts| == sh.size && t < Pow2(sh.bits) && sh.bits > sh.height
    requires IsGreedyWalk(sh, hosts, walk, t)
    ensures |walk| - 1 <= sh.height
    ensures sh.Owns(walk[|walk| - 1], t) || exists k: nat {:trigger walk + [k]} :: IsGreedyWalk(sh, hosts, walk + [k], t)
  {
    hide Table, MatchedLength, Pow2, ShiftLeft;
    GreedyWalkIsShort(sh, hosts, walk, t);
    if !sh.Owns(walk[|walk| - 1], t) {
      var k := GreedyHopExists(sh, hosts, walk[|walk| - 1], t);
      assert IsGreedyWalk(sh, hosts, walk + [k], t);
    }
  }

  /** From any host, a greedy walk of at most `height` hops ends at the owner of t. */
  lemma {:induction false} GreedyWalkReachesOwner(sh: Shape, hosts: seq<HostAddress>, i: nat, t: nat)
    returns (walk: seq<nat>)
    requires sh.Valid() && i < sh.size == |hosts| && t < Pow2(sh.bits) && sh.bits > sh.height
    ensures IsGreedyWalk(sh, hosts, walk, t) && walk[0] == i
    ensures walk[|walk| - 1] == sh.Owner(t)
    ensures |walk| - 1 <= sh.height
    decreases sh.bits - Common(sh, i, t)
  {
    IntervalsPartition(sh, t);
    if sh.Owns(i, t) {
      walk := [i];
    } else {
      var k := GreedyHopExists(sh, hosts, i, t);
      GreedyHopGetsCloser(sh, hosts, i, k, t);
      var rest := GreedyWalkReachesOwner(sh, hosts, k, t);
      walk := [i] + rest;
    }
    GreedyWalkIsShort(sh, hosts, walk, t);
  }

  // ---------------------------------------------------------------- the tables, bit by bit

  /** x and v differ in exactly the bits lo, lo + 1, ..., hi - 1 of the first k. */
  ghost predicate DifferExactlyIn(v: nat, x: nat, k: nat, lo: nat, hi: nat) {
    forall m :: 0 <= m < k ==> (Bit(x, m) != Bit(v, m) <==> lo <= m < hi)
  }

  /** x is v with prefix bit j flipped and nothing else. */
  ghost predicate IsFlipped(v: nat, x: nat, k: nat, j: nat)
    requires j < k
  {
    DifferExactlyIn(v, x, k, k - 1 - j, k - j)
  }

  /**
   What a host with pattern v and a prefix of p bits links to: an identifier that differs from v in
   one prefix bit, or one that differs in all of them.
   */
  ghost predicate IsLinkTarget(v: nat, x: nat, k: nat, p: nat)
    requires p <= k
  {
    && x < Pow2(k)
    && ((exists j :: 0 <= j < p && IsFlipped(v, x, k, j)) || DifferExactlyIn(v, x, k, k - p, k))
  }

  /** The table has an entry for exactly the hosts that the search names for i's link targets, other than i. */
  ghost predicate LinksToTargets(sh: Shape, hosts: seq<HostAddress>, i: nat, table: LookupTable<HostAddress>)
    requires sh.Valid() && i < sh.size == |hosts|
  {
    && (forall x: nat :: IsLinkTarget(sh.Pattern(i), x, sh.bits, sh.PrefixLength(i)) && Search(sh, x) != i ==>
          sh.Pattern(Search(sh, x)) in table)
    && (forall key :: key in table ==> exists x: nat :: IsEntryFor(sh, hosts, i, key, table[key], x))
  }

  ghost predicate IsEntryFor(sh: Shape, hosts: seq<HostAddress>, i: nat, key: nat, entry: (OverlayId, HostAddress), x: nat)
    requires sh.Valid() && i < sh.size == |hosts|
  {
    && IsLinkTarget(sh.Pattern(i), x, sh.bits, sh.PrefixLength(i))
    && var n := Search(sh, x);
    n != i && key == sh.Pattern(n) && entry == (sh.IdOf(n), hosts[n])
  }

  /** The same in terms of intervals: an entry for exactly the hosts that own i's link targets. */
  ghost predicate LinksToOwners(sh: Shape, hosts: seq<HostAddress>, i: nat, table: LookupTable<HostAddress>)
    requires sh.Valid() && i < sh.size == |hosts|
  {
    && (forall x: nat, n: nat :: IsLinkTarget(sh.Pattern(i), x, sh.bits, sh.PrefixLength(i)) && n < sh.size && sh.Owns(n, x) ==>
          (sh.height == 0 && n == i) || (sh.Pattern(n) in table && table[sh.Pattern(n)] == (sh.IdOf(n), hosts[n])))
    && (forall key :: key in table ==> exists x: nat, n: nat ::
          && IsLinkTarget(sh.Pattern(i), x, sh.bits, sh.PrefixLength(i))
          && n < sh.size && n != i && sh.Owns(n, x) && key == sh.Pattern(n))
  }

  lemma ToggledBits(v: nat, n: nat, m: nat)
    ensures Bit(Toggle(v, n), m) == if m == n then 1 - Bit(v, m) else Bit(v, m)
  {
    if m < n {
      ToggleKeepsLowerBits(v, n, m);
    } else {
      ToggleShifted(v, n);
      if m > n {
        ShiftRightTwice(v, n + 1, m - n - 1);
        ShiftRightTwice(Toggle(v, n), n + 1, m - n - 1);
      }
    }
  }

  lemma {:induction false} ToggledLeadingBits(v: nat, k: nat, j: nat, m: nat)
    requires j <= k && m < k
    ensures Bit(ToggleLeading(v, k, j), m) == if m >= k - j then 1 - Bit(v, m) else Bit(v, m)
  {
    if j > 0 {
      ToggledLeadingBits(v, k, j - 1, m);
      ToggledBits(ToggleLeading(v, k, j - 1), k - j, m);
    }
  }

  /** A number below 2^k is determined by its k bits. */
  lemma BitsDetermine(a: nat, b: nat, k: nat)
    requires a < Pow2(k) && b < Pow2(k)
    requires forall m :: 0 <= m < k ==> Bit(a, m) == Bit(b, m)
    ensures a == b
  {
    SameAbove(a, b, k, 0);
  }

  lemma {:induction false} SameAbove(a: nat, b: nat, k: nat, m: nat)
    requires a < Pow2(k) && b < Pow2(k) && m <= k
    requires forall n :: 0 <= n < k ==> Bit(a, n) == Bit(b, n)
    ensures ShiftRight(a, m) == ShiftRight(b, m)
    decreases k - m
  {
    if m == k {
      ShiftRightToZero(a, k);
      ShiftRightToZero(b, k);
    } else {
      SameAbove(a, b, k, m + 1);
      PrefixStep(a, b, m);
    }
  }

  lemma NeighbourDiffers(sh: Shape, i: nat, j: nat)
    requires sh.Valid() && i < sh.size && j < sh.PrefixLength(i)
    ensures NeighbourPattern(sh, i, j) < Pow2(sh.bits)
    ensures IsFlipped(sh.Pattern(i), NeighbourPattern(sh, i, j), sh.bits, j)
    ensures IsLinkTarget(sh.Pattern(i), NeighbourPattern(sh, i, j), sh.bits, sh.PrefixLength(i))
  {
    NeighbourPatternInRange(sh, i, j);
    var v := sh.Pattern(i);
    forall m | 0 <= m < sh.bits
      ensures Bit(NeighbourPattern(sh, i, j), m) != Bit(v, m) <==> sh.bits - 1 - j <= m < sh.bits - j
    {
      ToggledBits(v, sh.bits - j - 1, m);
    }
    hide Toggle, Bit;
  }

  lemma ReplicaDiffers(sh: Shape, i: nat)
    requires sh.Valid() && i < sh.size
    ensures ReplicaPattern(sh, i) < Pow2(sh.bits)
    ensures DifferExactlyIn(sh.Pattern(i), ReplicaPattern(sh, i), sh.bits, sh.bits - sh.PrefixLength(i), sh.bits)
    ensures IsLinkTarget(sh.Pattern(i), ReplicaPattern(sh, i), sh.bits, sh.PrefixLength(i))
  {
    PatternInRange(sh, i);
    ToggleLeadingComplements(sh.Pattern(i), sh.bits, sh.PrefixLength(i));
    forall m | 0 <= m < sh.bits
      ensures Bit(ReplicaPattern(sh, i), m) != Bit(sh.Pattern(i), m) <==> sh.bits - sh.PrefixLength(i) <= m < sh.bits
    {
      ToggledLeadingBits(sh.Pattern(i), sh.bits, sh.PrefixLength(i), m);
    }
  }

  /** Two numbers that differ from v in the same bits are the same. */
  lemma SameDifference(v: nat, a: nat, b: nat, k: nat, lo: nat, hi: nat)
    requires a < Pow2(k) && b < Pow2(k)
    requires DifferExactlyIn(v, a, k, lo, hi) && DifferExactlyIn(v, b, k, lo, hi)
    ensures a == b
  {
    forall m | 0 <= m < k
      ensures Bit(a, m) == Bit(b, m)
    {
      assert Bit(a, m) != Bit(v, m) <==> Bit(b, m) != Bit(v, m);
    }
    BitsDetermine(a, b, k);
  }

  lemma TargetIsLinked(sh: Shape, i: nat, x: nat)
    requires sh.Valid() && i < sh.size
    requires IsLinkTarget(sh.Pattern(i), x, sh.bits, sh.PrefixLength(i))
    ensures x == ReplicaPattern(sh, i) || exists j :: 0 <= j < sh.PrefixLength(i) && x == NeighbourPattern(sh, i, j)
  {
    var v, k, p := sh.Pattern(i), sh.bits, sh.PrefixLength(i);
    hide DifferExactlyIn, NeighbourPattern, ReplicaPattern;
    if j :| 0 <= j < p && IsFlipped(v, x, k, j) {
      NeighbourDiffers(sh, i, j);
      SameDifference(v, x, NeighbourPattern(sh, i, j), k, k - 1 - j, k - j);
    } else {
      ReplicaDiffers(sh, i);
      SameDifference(v, x, ReplicaPattern(sh, i), k, k - p, k);
    }
  }

  lemma {:induction false} LinksComeFromTargets(sh: Shape, hosts: seq<HostAddress>, i: nat, j: nat, key: nat)
    requires sh.Valid() && i < sh.size == |hosts| && j <= sh.PrefixLength(i)
    requires key in Links(sh, hosts, i, j)
    ensures exists x: nat :: IsEntryFor(sh, hosts, i, key, Links(sh, hosts, i, j)[key], x)
  {
    var x, before := NeighbourPattern(sh, i, j - 1), Links(sh, hosts, i, j - 1);
    NeighbourDiffers(sh, i, j - 1);
    hide IsLinkTarget, Search, NeighbourPattern;
    if key in before {
      LinksComeFromTargets(sh, hosts, i, j - 1, key);
    } else {
      SameIdSameHost(sh, Search(sh, x), i);
      assert IsEntryFor(sh, hosts, i, key, Links(sh, hosts, i, j)[key], x);
    }
  }

  lemma SameIdSameHost(sh: Shape, n: nat, i: nat)
    requires sh.Valid() && n < sh.size && i < sh.size
    ensures sh.IdOf(n).Equals(sh.IdOf(i)) <==> n == i
  {
    if n != i {
      DifferentHostsDifferentPatterns(sh, n, i);
    }
  }

  /**
   What a routing table holds, for every K and without reference to how it is filled: an entry with
   the right address for exactly the hosts that the search names for the identifiers that differ from
   the host's own pattern in one prefix bit or in all of them.
   */
  lemma TableLinksToTargets(sh: Shape, hosts: seq<HostAddress>, i: nat)
    requires sh.Valid() && i < sh.size == |hosts|
    ensures LinksToTargets(sh, hosts, i, Table(sh, hosts, i))
  {
    var table, p := Table(sh, hosts, i), sh.PrefixLength(i);
    forall key | key in table
      ensures exists x: nat :: IsEntryFor(sh, hosts, i, key, table[key], x)
    {
      EntryComesFromTarget(sh, hosts, i, key);
    }
    forall x: nat | IsLinkTarget(sh.Pattern(i), x, sh.bits, p) && Search(sh, x) != i
      ensures sh.Pattern(Search(sh, x)) in table
    {
      TargetIsInTable(sh, hosts, i, x);
    }
    hide Table, Search, IsLinkTarget;
  }

  lemma EntryComesFromTarget(sh: Shape, hosts: seq<HostAddress>, i: nat, key: nat)
    requires sh.Valid() && i < sh.size == |hosts| && key in Table(sh, hosts, i)
    ensures exists x: nat :: IsEntryFor(sh, hosts, i, key, Table(sh, hosts, i)[key], x)
  {
    var y, links := ReplicaPattern(sh, i), Links(sh, hosts, i, sh.PrefixLength(i));
    ReplicaDiffers(sh, i);
    hide IsLinkTarget, Search, ReplicaPattern, Links;
    if key in links {
      LinksComeFromTargets(sh, hosts, i, sh.PrefixLength(i), key);
    } else {
      SameIdSameHost(sh, Search(sh, y), i);
      assert IsEntryFor(sh, hosts, i, key, Table(sh, hosts, i)[key], y);
    }
  }

  lemma TargetIsInTable(sh: Shape, hosts: seq<HostAddress>, i: nat, x: nat)
    requires sh.Valid() && i < sh.size == |hosts|
    requires IsLinkTarget(sh.Pattern(i), x, sh.bits, sh.PrefixLength(i)) && Search(sh, x) != i
    ensures sh.Pattern(Search(sh, x)) in Table(sh, hosts, i)
  {
    TargetIsLinked(sh, i, x);
    hide IsLinkTarget, Search, ReplicaPattern, NeighbourPattern, Links;
    if x == ReplicaPattern(sh, i) {
      SameIdSameHost(sh, Search(sh, x), i);
    } else {
      var j :| 0 <= j < sh.PrefixLength(i) && x == NeighbourPattern(sh, i, j);
      LinkIsInTable(sh, hosts, i, j);
    }
  }

  /** Where there is another host, no link target is the host's own. */
  lemma TargetsAreElsewhere(sh: Shape, i: nat, x: nat)
    requires sh.Valid() && i < sh.size && sh.bits > sh.height > 0
    requires IsLinkTarget(sh.Pattern(i), x, sh.bits, sh.PrefixLength(i))
    ensures sh.Owner(x) != i
  {
    TargetIsLinked(sh, i, x);
    hide IsLinkTarget, Search, ReplicaPattern, NeighbourPattern;
    if x == ReplicaPattern(sh, i) {
      ReplicaSharesNothing(sh, i);
    } else {
      var j :| 0 <= j < sh.PrefixLength(i) && x == NeighbourPattern(sh, i, j);
      NeighbourSharesExactly(sh, i, j);
    }
  }

  /** With K above the height these hosts are the owners of the targets, and none of them is i. */
  lemma TableLinksToOwners(sh: Shape, hosts: seq<HostAddress>, i: nat)
    requires sh.Valid() && i < sh.size == |hosts| && sh.bits > sh.height
    ensures LinksToOwners(sh, hosts, i, Table(sh, hosts, i))
  {
    TableLinksToTargets(sh, hosts, i);
    hide Table, Search;
    var table, v, p := Table(sh, hosts, i), sh.Pattern(i), sh.PrefixLength(i);
    forall x: nat, n: nat | IsLinkTarget(v, x, sh.bits, p) && n < sh.size && sh.Owns(n, x) && !(sh.height == 0 && n == i)
      ensures sh.Pattern(n) in table && table[sh.Pattern(n)] == (sh.IdOf(n), hosts[n])
    {
      SearchFindsOwner(sh, x);
      IntervalsPartition(sh, x);
      if sh.height > 0 {
        TargetsAreElsewhere(sh, i, x);
      }
      assert sh.Pattern(n) in table;
      var y: nat :| IsEntryFor(sh, hosts, i, sh.Pattern(n), table[sh.Pattern(n)], y);
      SameIdSameHost(sh, n, Search(sh, y));
      if Search(sh, y) != n {
        DifferentHostsDifferentPatterns(sh, Search(sh, y), n);
      }
    }
    forall key | key in table
      ensures exists x: nat, n: nat ::
        IsLinkTarget(v, x, sh.bits, p) && n < sh.size && n != i && sh.Owns(n, x) && key == sh.Pattern(n)
    {
      var x: nat :| IsEntryFor(sh, hosts, i, key, table[key], x);
      SearchFindsOwner(sh, x);
      IntervalsPartition(sh, x);
      assert sh.Owns(Search(sh, x), x);
    }
  }

  // ---------------------------------------------------------------- when identifiers are too short

  lemma {:induction false} SiblingsShift(o: nat, m: nat)
    requires o % 2 == 1 && m >= 1
    ensures ShiftRight(o, m) == ShiftRight(o - 1, m)
  {
    if m > 1 {
      SiblingsShift(o, m - 1);
    } else {
      var half := o / 2;
      assert o == 2 * half + 1;
      assert ShiftRight(o, 0) == o && ShiftRight(o - 1, 0) == o - 1;
      assert ShiftRight(o, 1) == o / 2 && ShiftRight(o - 1, 1) == (o - 1) / 2;
    }
  }

  /** A deep pair differs in the bit that is never compared, so the search prefers its first host. */
  lemma SearchNeverNamesOdd(sh: Shape, x: nat, o: nat)
    requires sh.Valid() && x < Pow2(sh.bits) && sh.bits == sh.height
    requires o < sh.DeepCount() && o % 2 == 1
    ensures Search(sh, x) != o
  {
    DeepPatternIsIndex(sh, o - 1);
    DeepPatternIsIndex(sh, o);
    SearchFindsFirstLongest(sh, x);
    var b := MatchWith(sh, x, o);
    SiblingsShift(o, sh.bits - b);
    MatchMeaning(sh, x, o, b);
    MatchMeaning(sh, x, o - 1, b);
  }

  lemma LinkAvoidsOdd(sh: Shape, hosts: seq<HostAddress>, i: nat, x: nat, table: LookupTable<HostAddress>, o: nat)
    requires sh.Valid() && i < sh.size == |hosts| && x < Pow2(sh.bits) && sh.bits == sh.height
    requires o < sh.DeepCount() && o % 2 == 1 && sh.Pattern(o) !in table
    ensures sh.Pattern(o) !in LinkTo(sh, hosts, i, x, table)
  {
    SearchNeverNamesOdd(sh, x, o);
    DifferentHostsDifferentPatterns(sh, o, Search(sh, x));
  }

  lemma NeighbourPatternInRange(sh: Shape, i: nat, j: nat)
    requires sh.Valid() && i < sh.size && j < sh.bits
    ensures NeighbourPattern(sh, i, j) < Pow2(sh.bits)
  {
    PatternInRange(sh, i);
    ToggleFlipsOneBit(sh.Pattern(i), sh.bits - j - 1, sh.bits);
  }

  lemma {:induction false} LinksAvoidOdd(sh: Shape, hosts: seq<HostAddress>, i: nat, j: nat, o: nat)
    requires sh.Valid() && i < sh.size == |hosts| && j <= sh.PrefixLength(i) && sh.bits == sh.height
    requires o < sh.DeepCount() && o % 2 == 1
    ensures sh.Pattern(o) !in Links(sh, hosts, i, j)
  {
    if j > 0 {
      LinksAvoidOdd(sh, hosts, i, j - 1, o);
      NeighbourPatternInRange(sh, i, j - 1);
      hide LinkTo, NeighbourPattern;
      LinkAvoidsOdd(sh, hosts, i, NeighbourPattern(sh, i, j - 1), Links(sh, hosts, i, j - 1), o);
    }
  }

  /** With bits == height the second host of a deep pair stands in no routing table. */
  lemma TableAvoidsOdd(sh: Shape, hosts: seq<HostAddress>, i: nat, o: nat)
    requires sh.Valid() && i < sh.size == |hosts| && sh.bits == sh.height
    requires o < sh.DeepCount() && o % 2 == 1
    ensures sh.Pattern(o) !in Table(sh, hosts, i)
  {
    LinksAvoidOdd(sh, hosts, i, sh.PrefixLength(i), o);
    PatternInRange(sh, i);
    ToggleLeadingComplements(sh.Pattern(i), sh.bits, sh.PrefixLength(i));
    hide LinkTo, Links;
    LinkAvoidsOdd(sh, hosts, i, ReplicaPattern(sh, i), Links(sh, hosts, i, sh.PrefixLength(i)), o);
  }

  /** So a message for such a host never arrives unless it starts there. */
  lemma OddIsLost(sh: Shape, hosts: seq<HostAddress>, i: nat, t: nat)
    requires sh.Valid() && i < sh.size == |hosts| && t < Pow2(sh.bits)
    requires LastBitDecides(sh, t) && i != sh.Owner(t)
    ensures !Delivers(sh, hosts, i, t)
  {
    DeepPatternIsIndex(sh, t);
    IntervalsPartition(sh, t);
    if Delivers(sh, hosts, i, t) {
      var walk :| IsGreedyWalk(sh, hosts, walk, t) && walk[0] == i && sh.Owns(walk[|walk| - 1], t);
      var last := |walk| - 1;
      assert walk[last] == t;
      TableAvoidsOdd(sh, hosts, walk[last - 1], t);
    }
  }

  /** The search always agrees with its target in all bits that it compares. */
  lemma SearchSharesAllButLast(sh: Shape, x: nat)
    requires sh.Valid() && x < Pow2(sh.bits) && sh.bits == sh.height
    ensures SharesPrefix(sh.Pattern(Search(sh, x)), x, sh.bits, sh.bits - 1)
  {
    var o := sh.Owner(x);
    IntervalsPartition(sh, x);
    OwnsIsPrefix(sh, o, x);
    SharesShorterPrefix(sh.Pattern(o), x, sh.bits, sh.PrefixLength(o), sh.bits - 1);
    MatchMeaning(sh, x, o, sh.bits - 1);
    SearchFindsFirstLongest(sh, x);
    MatchMeaning(sh, x, Search(sh, x), sh.bits - 1);
  }

  lemma {:induction false} LinkStays(sh: Shape, hosts: seq<HostAddress>, i: nat, j: nat, m: nat, key: nat)
    requires sh.Valid() && i < sh.size == |hosts| && j <= m <= sh.PrefixLength(i)
    requires key in Links(sh, hosts, i, j)
    ensures key in Links(sh, hosts, i, m)
  {
    if j < m {
      LinkStays(sh, hosts, i, j, m - 1, key);
    }
  }

  /** Every link that does not lead back to host i is in its table. */
  lemma LinkIsInTable(sh: Shape, hosts: seq<HostAddress>, i: nat, j: nat)
    requires sh.Valid() && i < sh.size == |hosts| && j < sh.PrefixLength(i)
    requires Neighbour(sh, i, j) != i
    ensures LinkKey(sh, i, j) in Table(sh, hosts, i)
  {
    DifferentHostsDifferentPatterns(sh, i, Neighbour(sh, i, j));
    assert LinkKey(sh, i, j) in Links(sh, hosts, i, j + 1);
    hide Search;
    LinkStays(sh, hosts, i, j + 1, sh.PrefixLength(i), LinkKey(sh, i, j));
  }

  /** Every key is some host's identifier. */
  ghost predicate KeysAreHosts(sh: Shape, table: LookupTable<HostAddress>)
    requires sh.Valid()
  {
    forall key :: key in table ==> sh.Owner(key) < sh.size && sh.Pattern(sh.Owner(key)) == key
  }

  lemma LinkToHost(sh: Shape, hosts: seq<HostAddress>, i: nat, x: nat, table: LookupTable<HostAddress>)
    requires sh.Valid() && i < sh.size == |hosts| && KeysAreHosts(sh, table)
    ensures KeysAreHosts(sh, LinkTo(sh, hosts, i, x, table))
  {
    var n := Search(sh, x);
    PatternInRange(sh, n);
    IntervalsPartition(sh, sh.Pattern(n));
    hide Search;
  }

  lemma {:induction false} LinksToHosts(sh: Shape, hosts: seq<HostAddress>, i: nat, j: nat)
    requires sh.Valid() && i < sh.size == |hosts| && j <= sh.PrefixLength(i)
    ensures KeysAreHosts(sh, Links(sh, hosts, i, j))
  {
    if j > 0 {
      LinksToHosts(sh, hosts, i, j - 1);
      hide KeysAreHosts, LinkTo;
      LinkToHost(sh, hosts, i, NeighbourPattern(sh, i, j - 1), Links(sh, hosts, i, j - 1));
    }
  }

  /** While a compared bit differs, the link for the first such bit leads closer. */
  lemma ShortLinkIsCloser(sh: Shape, hosts: seq<HostAddress>, i: nat, t: nat)
    requires sh.Valid() && i < sh.size == |hosts| && t < Pow2(sh.bits) && sh.bits == sh.height
    requires Common(sh, i, t) < sh.bits - 1
    ensures LinkKey(sh, i, Common(sh, i, t)) in Table(sh, hosts, i)
    ensures Common(sh, Neighbour(sh, i, Common(sh, i, t)), t) > Common(sh, i, t)
  {
    var c := Common(sh, i, t);
    FlippedBranch(sh, i, c);
    hide Table, Search, NeighbourPattern, MatchedLength, ShiftRight, Pow2;
    FollowsBranch(sh, i, t, NeighbourPattern(sh, i, c), c);
    LinkIsInTable(sh, hosts, i, c);
  }

  /** What the search finds for an identifier that leaves i where t does agrees with t in one bit more. */
  lemma FollowsBranch(sh: Shape, i: nat, t: nat, x: nat, c: nat)
    requires sh.Valid() && i < sh.size && t < Pow2(sh.bits) && x < Pow2(sh.bits) && sh.bits == sh.height
    requires Common(sh, i, t) == c == Common(sh, i, x) && c < sh.bits - 1
    ensures Common(sh, Search(sh, x), t) >= c + 1
  {
    hide Search, MatchedLength;
    var n := Search(sh, x);
    SearchSharesAllButLast(sh, x);
    SameBranchAgrees(sh, i, t, x, c);
    SharesShorterPrefix(sh.Pattern(n), x, sh.bits, sh.bits - 1, c + 1);
    CommonMeaning(sh, n, t, c + 1);
  }

  lemma FlippedBranch(sh: Shape, i: nat, j: nat)
    requires sh.Valid() && i < sh.size && j < sh.bits - 1
    ensures NeighbourPattern(sh, i, j) < Pow2(sh.bits)
    ensures Common(sh, i, NeighbourPattern(sh, i, j)) == j
  {
    PatternInRange(sh, i);
    ToggleFlipsOneBit(sh.Pattern(i), sh.bits - j - 1, sh.bits);
    CommonMeaning(sh, i, NeighbourPattern(sh, i, j), j);
    CommonMeaning(sh, i, NeighbourPattern(sh, i, j), j + 1);
  }

  lemma ShortGreedyHop(sh: Shape, hosts: seq<HostAddress>, i: nat, t: nat) returns (k: nat)
    requires sh.Valid() && i < sh.size == |hosts| && t < Pow2(sh.bits) && sh.bits == sh.height
    requires Common(sh, i, t) < sh.bits - 1
    ensures IsGreedyHop(sh, hosts, i, k, t) && Common(sh, k, t) > Common(sh, i, t)
  {
    ShortLinkIsCloser(sh, hosts, i, t);
    LinksToHosts(sh, hosts, i, sh.PrefixLength(i));
    LinkToHost(sh, hosts, i, ReplicaPattern(sh, i), Links(sh, hosts, i, sh.PrefixLength(i)));
    assert KeysAreHosts(sh, Table(sh, hosts, i));
    hide Table, LinkTo, Search, MatchedLength;
    var key := BestKey(Table(sh, hosts, i).Keys, t, sh.bits);
    k := sh.Owner(key);
  }

  /** Where only the last bit differs, the odd host of a pair has a link to the even one. */
  lemma LastHop(sh: Shape, hosts: seq<HostAddress>, i: nat, t: nat)
    requires sh.Valid() && i < sh.size == |hosts| && t < Pow2(sh.bits) && sh.bits == sh.height
    requires !sh.Owns(i, t) && Common(sh, i, t) == sh.bits - 1 && !LastBitDecides(sh, t)
    ensures t < sh.size && IsGreedyHop(sh, hosts, i, t, t) && sh.Owns(t, t)
  {
    CommonMeaning(sh, i, t, sh.bits - 1);
    OwnsIsPrefix(sh, i, t);
    assert i < sh.DeepCount();
    DeepPatternIsIndex(sh, i);
    LastBitOf(i, t, sh.bits);
    assert t == i - 1;
    DeepPatternIsIndex(sh, t);
    PatternInRange(sh, t);
    DeepPairsTie(sh, t);
    CommonMeaning(sh, t, t, sh.bits - 1);
    assert Toggle(i, 0) == t;
    LinkIsInTable(sh, hosts, i, sh.bits - 1);
    hide Table, Search, MatchedLength;
  }

  lemma LastBitOf(i: nat, t: nat, k: nat)
    requires k >= 1 && SharesPrefix(i, t, k, k - 1)
    ensures i / 2 == t / 2
    ensures ShiftRight(i, 0) == i
  {
    assert ShiftRight(i, 1) == i / 2 && ShiftRight(t, 1) == t / 2;
  }

  /** With bits == height every identifier that does not depend on its last bit is still delivered. */
  lemma {:induction false} ShortWalk(sh: Shape, hosts: seq<HostAddress>, i: nat, t: nat) returns (walk: seq<nat>)
    requires sh.Valid() && i < sh.size == |hosts| && t < Pow2(sh.bits) && sh.bits == sh.height
    requires !LastBitDecides(sh, t)
    ensures IsGreedyWalk(sh, hosts, walk, t) && walk[0] == i && sh.Owns(walk[|walk| - 1], t)
    ensures |walk| - 1 <= sh.bits - Common(sh, i, t)
    decreases sh.bits - Common(sh, i, t)
  {
    hide IsGreedyHop, LastBitDecides, MatchedLength;
    if sh.Owns(i, t) {
      walk := [i];
    } else if Common(sh, i, t) == sh.bits - 1 {
      LastHop(sh, hosts, i, t);
      walk := [i, t];
    } else {
      var k := ShortGreedyHop(sh, hosts, i, t);
      assert k < sh.size by { HopIsHost(sh, hosts, i, k, t); }
      var rest := ShortWalk(sh, hosts, k, t);
      walk := [i] + rest;
    }
  }

  lemma HopIsHost(sh: Shape, hosts: seq<HostAddress>, i: nat, k: nat, t: nat)
    requires sh.Valid() && i < sh.size == |hosts| && IsGreedyHop(sh, hosts, i, k, t)
    ensures k < sh.size
  {
  }

  /**
   Which messages arrive, pair by pair and for every identifier length: all but those for an
   identifier that only bit 0 tells from its sibling's, and these only where they start.
   */
  lemma DeliversExactlyWhen(sh: Shape, hosts: seq<HostAddress>, i: nat, t: nat)
    requires sh.Valid() && i < sh.size == |hosts| && t < Pow2(sh.bits)
    ensures Delivers(sh, hosts, i, t) <==> !LastBitDecides(sh, t) || i == sh.Owner(t)
  {
    hide IsGreedyHop;
    IntervalsPartition(sh, t);
    if LastBitDecides(sh, t) {
      if i == sh.Owner(t) {
        assert IsGreedyWalk(sh, hosts, [i], t);
      } else {
        OddIsLost(sh, hosts, i, t);
      }
    } else if sh.bits > sh.height {
      var walk := GreedyWalkReachesOwner(sh, hosts, i, t);
    } else {
      var walk := ShortWalk(sh, hosts, i, t);
    }
  }

  /**
   Routing works for every pair of host and identifier exactly when identifiers are longer than
   the tree is high.
   */
  lemma RoutingWorksExactlyWhen(sh: Shape, hosts: seq<HostAddress>)
    requires sh.Valid() && |hosts| == sh.size
    ensures (forall i, t :: 0 <= i < sh.size && 0 <= t < Pow2(sh.bits) ==> Delivers(sh, hosts, i, t))
      <==> sh.bits > sh.height
  {
    if sh.bits > sh.height {
      forall i, t | 0 <= i < sh.size && 0 <= t < Pow2(sh.bits)
        ensures Delivers(sh, hosts, i, t)
      {
        DeliversExactlyWhen(sh, hosts, i, t);
      }
    } else {
      DeepPatternIsIndex(sh, 1);
      DeliversExactlyWhen(sh, hosts, 0, 1);
    }
  }
}
