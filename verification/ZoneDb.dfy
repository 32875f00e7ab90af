/** The signer's database `gdb`: the ordinary nodes and the separate tree of NSEC3 nodes. */
module ZoneDb {
  import opened Names
  import opened Zone

  /** The parameters that name an NSEC3 chain. */
  datatype Params = Params(alg: nat, iterations: nat, salt: Bytes)

  /** An NSEC3 record; its type bit map is not modelled. */
  datatype Nsec3Record = Nsec3Record(params: Params, optOut: bool, next: Bytes)

  class Database {
    const origin: Name
    var nodes: seq<Node>
    /** The NSEC3 records at each NSEC3 node, by the hash in the node's name. */
    var nsec3: map<Bytes, seq<Nsec3Record>>

    constructor (origin: Name, nodes: seq<Node>, nsec3: map<Bytes, seq<Nsec3Record>>)
      ensures this.origin == origin && this.nodes == nodes && this.nsec3 == nsec3
    {
      this.origin, this.nodes, this.nsec3 := origin, nodes, nsec3;
    }
  }
}
