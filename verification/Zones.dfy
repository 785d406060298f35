/** What the server stores, flat: record sets by path. Every structure of the program stands for one of these. */
module Zones {
  import opened Octets
  import opened Records
  import opened Names

  type Zone = map<Path, RRSets>

  function RecordsAt(m: Zone, p: Path): RRSets {
    if p in m then m[p] else []
  }
}
