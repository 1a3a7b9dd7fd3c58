/** Tables keyed by overlay identifier, and the host addresses they usually hold. */
module LookupTables {
  import opened Shared
  import opened OverlayIds

  datatype HostAddress = HostAddress(hostName: string, hostPort: int)

  /** Keys are told apart by their identifier alone; each entry remembers the key it was added under. */
  type LookupTable<V> = map<nat, (OverlayId, V)>

  /** Adding never overwrites: a present key keeps its entry. */
  function Add<V>(table: LookupTable<V>, key: OverlayId, value: V): (r: LookupTable<V>) {
    if key.id in table then table else table[key.id := (key, value)]
  }

  function Lookup<V>(table: LookupTable<V>, key: OverlayId): (r: Option<V>) {
    if key.id in table then Some(table[key.id].1) else None
  }

  function Remove<V>(table: LookupTable<V>, key: OverlayId): (r: LookupTable<V>) {
    table - {key.id}
  }

  /** What is found after an add and after a removal: keys differ only by their identifiers. */
  lemma LookupMeaning<V>(table: LookupTable<V>, key: OverlayId, value: V, asked: OverlayId)
    ensures Lookup(Add(table, key, value), asked) ==
      if asked.id == key.id && Lookup(table, key) == None then Some(value) else Lookup(table, asked)
    ensures Lookup(Remove(table, key), asked) == if asked.id == key.id then None else Lookup(table, asked)
  {
  }
}
