/**
 Building the Plexus tree in place: identifiers, host addresses and routing tables are filled in
 by loops over arrays. The specification functions of PlexusTree and PlexusRouting say what the
 arrays hold afterwards.
 */
module BuildTrees {
  import opened Shared
  import opened Powers
  import opened OverlayIds
  import opened LookupTables
  import opened PlexusTree
  import opened PlexusRouting

  class BuildTree {
    /** K, the message length of the code in use. */
    const k: nat
    var treeSize: nat
    var maxHeight: nat
    var idArray: array<OverlayId>
    var hAddArray: array<HostAddress>
    var rtArray: array<LookupTable<HostAddress>>
    var hosts: LookupTable<HostAddress>

    constructor (k: nat)
      ensures this.k == k
    {
      this.k := k;
      treeSize, maxHeight := 0, 0;
      idArray := new OverlayId[0];
      hAddArray := new HostAddress[0];
      rtArray := new LookupTable<HostAddress>[0];
      hosts := map[];
    }

    ghost function TheShape(): Shape
      reads this
    {
      Shape(treeSize, maxHeight, k)
    }

    ghost predicate IdsAssigned()
      reads this, idArray
    {
      TheShape().Valid() && idArray[..] == Ids(TheShape())
    }

    /** The state after the tree has been built for the given host list. */
    ghost predicate Built(addresses: seq<HostAddress>)
      reads this, idArray, hAddArray, rtArray
    {
      && treeSize == |addresses|
      && IdsAssigned()
      && hAddArray[..] == addresses
      && rtArray[..] == Tables(TheShape(), addresses)
    }

    method GetIndexOfLongestMatchedPrefix(id: OverlayId) returns (maxIndex: nat)
      requires IdsAssigned()
      requires id.Valid() && id.maxLength == k
      ensures IsFirstLongestMatch(TheShape(), id.id, maxIndex)
      ensures maxIndex == Search(TheShape(), id.id)
    {
      hide MatchedLength, StopPosition, ShiftLeft, Pow2;
      ghost var sh := TheShape();
      SearchFindsFirstLongest(sh, id.id);
      var maxLength := 0;
      maxIndex := 0;
      var i := 0;
      while i < treeSize
        invariant 0 <= i <= treeSize && maxIndex < treeSize
        invariant i == 0 ==> maxIndex == 0 && maxLength == 0
        invariant i > 0 ==> maxIndex == Scan(sh, id.id, i) && maxLength == MatchWith(sh, id.id, maxIndex)
      {
        PatternInRange(sh, i);
        assert idArray[i] == idArray[..][i] == sh.IdOf(i);
        var length := id.GetMatchedPrefixLength(idArray[i]);
        if length > maxLength {
          maxLength := length;
          maxIndex := i;
        }
        i := i + 1;
      }
    }

    /** Reads the host list, then assigns identifiers, then fills the routing tables. */
    method Execute(addresses: seq<HostAddress>)
      requires |addresses| >= 1 && k >= 1 && CeilLog2(|addresses|) <= k
      modifies this
      ensures maxHeight == CeilLog2(|addresses|)
      ensures Built(addresses)
      ensures forall i {:trigger rtArray[i]} :: 0 <= i < treeSize ==> LinksToTargets(TheShape(), addresses, i, rtArray[i])
      ensures k > maxHeight ==>
        forall i {:trigger rtArray[i]} :: 0 <= i < treeSize ==> LinksToOwners(TheShape(), addresses, i, rtArray[i])
      ensures fresh(idArray) && fresh(hAddArray) && fresh(rtArray)
    {
      treeSize := |addresses|;
      maxHeight := CeilLog2(treeSize);
      hosts := map[];
      idArray := new OverlayId[treeSize];
      hAddArray := new HostAddress[treeSize];
      rtArray := new LookupTable<HostAddress>[treeSize];
      AssignIds(addresses);
      FillTables(addresses);
      forall i | 0 <= i < treeSize
        ensures LinksToTargets(TheShape(), addresses, i, rtArray[i])
        ensures k > maxHeight ==> LinksToOwners(TheShape(), addresses, i, rtArray[i])
      {
        assert rtArray[i] == rtArray[..][i] == Table(TheShape(), addresses, i);
        TableLinksToTargets(TheShape(), addresses, i);
        if k > maxHeight {
          TableLinksToOwners(TheShape(), addresses, i);
        }
      }
    }

    /** The first loop: deep leaves take their index as pattern, the others continue from `st`. */
    method AssignIds(addresses: seq<HostAddress>)
      requires treeSize == |addresses| && TheShape().Valid()
      requires idArray.Length == hAddArray.Length == treeSize && hosts == map[]
      modifies `hosts, idArray, hAddArray
      ensures IdsAssigned()
      ensures hAddArray[..] == addresses
      ensures hosts == Directory(TheShape(), addresses, treeSize)
    {
      hide ShiftLeft, Pow2;
      ghost var sh := TheShape();
      ghost var ids := Ids(sh);
      var nodesAtMaxHeight := 2 * treeSize - Pow2(maxHeight);
      var nodesAtPrevLevel := treeSize - nodesAtMaxHeight;
      // for a single host pow(2.0, -1) is 0.5, which the conversion to int cuts to 0
      var st := (if maxHeight == 0 then 0 else Pow2(maxHeight - 1)) - nodesAtPrevLevel;
      var i := 0;
      while i < treeSize
        invariant 0 <= i <= treeSize
        invariant st == sh.FirstShallow() + if i <= nodesAtMaxHeight then 0 else i - nodesAtMaxHeight
        invariant idArray[..i] == ids[..i]
        invariant hAddArray[..i] == addresses[..i]
        invariant hosts == Directory(sh, addresses, i)
      {
        hAddArray[i] := addresses[i];
        var depth := if i < nodesAtMaxHeight then maxHeight else maxHeight - 1;
        var rank := i;
        if i >= nodesAtMaxHeight {
          rank := st;
          st := st + 1;
        }
        idArray[i] := OverlayId(ShiftLeft(rank, k - depth), depth, k);
        assert idArray[i] == ids[i];
        hosts := Add(hosts, idArray[i], hAddArray[i]);
        i := i + 1;
      }
    }

    /** The second loop over hosts. */
    method FillTables(addresses: seq<HostAddress>)
      requires treeSize == |addresses| && rtArray.Length == treeSize
      requires IdsAssigned() && hosts == Directory(TheShape(), addresses, treeSize)
      modifies rtArray
      ensures rtArray[..] == Tables(TheShape(), addresses)
    {
      hide Table, ShiftLeft, Pow2;
      ghost var tables := Tables(TheShape(), addresses);
      var i := 0;
      while i < treeSize
        invariant 0 <= i <= treeSize
        invariant rtArray[..i] == tables[..i]
      {
        FillTable(addresses, i);
        assert rtArray[..i] == tables[..i];
        i := i + 1;
      }
    }

    /** The body of that loop: one link per prefix bit, then the link to the replica. */
    method FillTable(addresses: seq<HostAddress>, i: nat)
      requires i < treeSize == |addresses| && rtArray.Length == treeSize
      requires IdsAssigned() && hosts == Directory(TheShape(), addresses, treeSize)
      modifies rtArray
      ensures rtArray[..] == old(rtArray[..])[i := Table(TheShape(), addresses, i)]
    {
      hide Search, Bit, Toggle, ShiftLeft, Pow2;
      ghost var sh := TheShape();
      ghost var v, p := sh.Pattern(i), sh.PrefixLength(i);
      PatternInRange(sh, i);
      assert idArray[i] == idArray[..][i] == sh.IdOf(i) == OverlayId(v, p, k);
      rtArray[i] := map[];
      var replica := idArray[i];
      var j := 0;
      while j < idArray[i].prefixLength
        invariant 0 <= j <= p
        invariant replica == OverlayId(ToggleLeading(v, k, j), p, k)
        invariant rtArray[..] == old(rtArray[..])[i := Links(sh, addresses, i, j)]
      {
        ToggleFlipsOneBit(v, k - j - 1, k);
        var nbrPattern := idArray[i].ToggleBitAtPosition(k - j - 1);
        replica := replica.ToggleBitAtPosition(k - j - 1);
        AddLink(addresses, i, nbrPattern);
        j := j + 1;
      }
      ToggleLeadingComplements(v, k, j);
      AddLink(addresses, i, replica);
    }

    method AddLink(addresses: seq<HostAddress>, i: nat, target: OverlayId)
      requires i < treeSize == |addresses| && rtArray.Length == treeSize
      requires IdsAssigned() && hosts == Directory(TheShape(), addresses, treeSize)
      requires target.Valid() && target.maxLength == k
      modifies rtArray
      ensures rtArray[..] == old(rtArray[..])[i := LinkTo(TheShape(), addresses, i, target.id, old(rtArray[i]))]
    {
      var nbrIndex := GetIndexOfLongestMatchedPrefix(target);
      ghost var ids := idArray[..];
      assert idArray[nbrIndex] == ids[nbrIndex] && idArray[i] == ids[i];
      if !idArray[nbrIndex].Equals(idArray[i]) {
        DirectoryLookup(TheShape(), addresses, treeSize, nbrIndex);
        var found := Lookup(hosts, idArray[nbrIndex]);
        var ha := if found.Some? then found.value else HostAddress("", 0);
        rtArray[i] := Add(rtArray[i], idArray[nbrIndex], ha);
      }
    }
  }
}
