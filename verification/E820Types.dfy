/** Entries of the firmware memory map. */
module E820Types {
  const PAGE_SIZE: nat := 4096
  const TYPE_RAM: nat := 1

  datatype Entry = Entry(addr: nat, size: nat, kind: nat) {
    function End(): nat { addr + size }
    predicate Holds(x: int) { addr <= x < End() }
  }

  /** Entries in ascending order that share no address. */
  ghost predicate SortedDisjoint(t: seq<Entry>) {
    forall a, b :: 0 <= a < b < |t| ==> t[a].End() <= t[b].addr
  }
}
