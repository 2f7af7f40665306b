/** The values held by the output store of the playground client and the payloads
    its mutations receive. */
module OutputTypes {
  import opened Wrappers

  /** A submitted code snippet. */
  type Code = string

  /** The rendered Merkle-tree graph, its serialized form, the display mode and the
      value that SET_IMMUDB stores are opaque to the store: it keeps them and never
      looks inside. */
  type Graph
  type Json
  type Mode
  type Immudb

  /** One fragment of the output log; `Divider` is the `{ divider: true }` sentinel
      that closes the fragments of one run. */
  datatype Fragment = Text(content: string) | Divider

  /** `state.merkleTree`: the graph and serialized renderings, each one absent until an
      update supplies it. */
  datatype MerkleSnapshot = MerkleSnapshot(graph: Option<Graph>, json: Option<Json>)

  /** The whole output state as a value. */
  datatype Snapshot = Snapshot(
    codeHistory: seq<Option<Code>>,
    output: seq<Fragment>,
    merkleTree: MerkleSnapshot,
    merkleTreeMode: Option<Mode>,
    immudb: Option<Immudb>)

  /** Payload shapes, one field per property the mutation destructures. */
  datatype CodePayload = CodePayload(code: Option<Code>)
  datatype ImmudbPayload = ImmudbPayload(immudb: Option<Immudb>)
  datatype MerkleTreePayload = MerkleTreePayload(graph: Option<Graph>, json: Option<Json>)
  datatype ModePayload = ModePayload(mode: Option<Mode>)
  datatype OutputPayload = OutputPayload(output: Option<seq<Fragment>>)

  /** The fields of the state, used to say which fields a mutation may write. */
  datatype Field = CodeHistory | Output | MerkleGraph | MerkleJson | MerkleTreeMode | ImmudbField

  /** `s` and `r` hold the same value in field `f`. */
  ghost predicate Agree(s: Snapshot, r: Snapshot, f: Field) {
    match f
    case CodeHistory => r.codeHistory == s.codeHistory
    case Output => r.output == s.output
    case MerkleGraph => r.merkleTree.graph == s.merkleTree.graph
    case MerkleJson => r.merkleTree.json == s.merkleTree.json
    case MerkleTreeMode => r.merkleTreeMode == s.merkleTreeMode
    case ImmudbField => r.immudb == s.immudb
  }
}
