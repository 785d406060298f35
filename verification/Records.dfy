/** Resource record sets and resolution results (internal/dns/types.go). */
module Records {
  import opened Octets

  const TYPE_NS: U16 := 2
  const TYPE_CNAME: U16 := 5
  const TYPE_SOA: U16 := 6
  const TYPE_OPT: U16 := 41
  const TYPE_DS: U16 := 43
  const TYPE_ANY: U16 := 255

  const CLASS_IN: U16 := 1
  const CLASS_NONE: U16 := 254
  const CLASS_ANY: U16 := 255

  datatype RRSet = RRSet(rtype: U16, cls: U16, ttl: U32, rdata: seq<Bytes>)

  type RRSets = seq<RRSet>

  /** Go's zero value of the struct. */
  const ZERO_SET: RRSet := RRSet(0, 0, 0, [])

  datatype RCode =
    | Success | FormatError | ServerFailure | NameError
    | YXDomain | YXRRSet | NXRRSet | NotAuth | NotZone

  /** The fields of dns.Result that tree resolution fills in. */
  datatype Result = Result(rcode: RCode, answer: RRSet, authority: RRSet, authorityName: Bytes)
  {
    predicate HasAnswer() { answer.rdata != [] }
    predicate HasAuthority() { authority.rdata != [] }
  }

  /** The first set of the wanted type, as searchRRSet and RRSets.Get find it. */
  function Search(sets: RRSets, t: U16): (r: Option<RRSet>)
    ensures r.None? <==> forall i :: 0 <= i < |sets| ==> sets[i].rtype != t
    ensures r.Some? ==> r.value.rtype == t && r.value in sets
  {
    if sets == [] then None
    else if sets[0].rtype == t then Some(sets[0])
    else Search(sets[1..], t)
  }

  predicate Has(sets: RRSets, t: U16) {
    exists i :: 0 <= i < |sets| && sets[i].rtype == t
  }
}
