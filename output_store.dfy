/** The output store's state object, updated in place by its six mutations. Each
    method writes the fields its mutation owns, says what every field holds
    afterwards, and is tied to the value-level reducer through `View()`. */
module OutputStore {
  import opened Wrappers
  import opened OutputTypes
  import Reducer
  import Mutations

  /** `state.merkleTree`: a nested object whose two fields are assigned in place. */
  class MerkleTree {
    var graph: Option<Graph>
    var json: Option<Json>

    constructor (graph: Option<Graph>, json: Option<Json>)
      ensures this.graph == graph && this.json == json
    {
      this.graph := graph;
      this.json := json;
    }
  }

  class OutputState {
    var codeHistory: seq<Option<Code>>
    var output: seq<Fragment>
    const merkleTree: MerkleTree
    var merkleTreeMode: Option<Mode>
    var immudb: Option<Immudb>

    /** A store holding the given state. */
    constructor (init: Snapshot)
      ensures fresh(merkleTree)
      ensures View() == init
    {
      codeHistory := init.codeHistory;
      output := init.output;
      merkleTree := new MerkleTree(init.merkleTree.graph, init.merkleTree.json);
      merkleTreeMode := init.merkleTreeMode;
      immudb := init.immudb;
    }

    /** The state as a value. */
    function View(): Snapshot
      reads this, merkleTree
    {
      Snapshot(codeHistory, output, MerkleSnapshot(merkleTree.graph, merkleTree.json), merkleTreeMode, immudb)
    }

    /** APPEND_CODE_HISTORY */
    method AppendCodeHistory(payload: Option<CodePayload>)
      modifies this
      ensures payload.Some? ==> codeHistory == old(codeHistory) + [payload.value.code]
      ensures payload.None? ==> codeHistory == old(codeHistory)
      ensures output == old(output) && merkleTreeMode == old(merkleTreeMode) && immudb == old(immudb)
      ensures View() == Reducer.AppendCodeHistory(old(View()), payload)
    {
      if payload.Some? {
        var code := payload.value.code;
        codeHistory := codeHistory + [code];
      }
    }

    /** SET_IMMUDB */
    method SetImmudb(payload: Option<ImmudbPayload>)
      modifies this
      ensures immudb == if payload.Some? then payload.value.immudb else old(immudb)
      ensures codeHistory == old(codeHistory) && output == old(output) && merkleTreeMode == old(merkleTreeMode)
      ensures View() == Reducer.SetImmudb(old(View()), payload)
    {
      if payload.Some? {
        immudb := payload.value.immudb;
      }
    }

    /** SET_MERKLE_TREE: writes the fields of the nested tree object, not this object. */
    method SetMerkleTree(payload: Option<MerkleTreePayload>)
      modifies merkleTree
      ensures merkleTree.graph == if payload.Some? && payload.value.graph.Some? then payload.value.graph else old(merkleTree.graph)
      ensures merkleTree.json == if payload.Some? && payload.value.json.Some? then payload.value.json else old(merkleTree.json)
      ensures unchanged(this)
      ensures View() == Reducer.SetMerkleTree(old(View()), payload)
    {
      if payload.Some? {
        var graph, json := payload.value.graph, payload.value.json;
        if graph.Some? {
          merkleTree.graph := graph;
        }
        if json.Some? {
          merkleTree.json := json;
        }
      }
    }

    /** SET_MERKLE_TREE_MODE */
    method SetMerkleTreeMode(payload: Option<ModePayload>)
      modifies this
      ensures merkleTreeMode == if payload.Some? then payload.value.mode else old(merkleTreeMode)
      ensures codeHistory == old(codeHistory) && output == old(output) && immudb == old(immudb)
      ensures View() == Reducer.SetMerkleTreeMode(old(View()), payload)
    {
      if payload.Some? {
        merkleTreeMode := payload.value.mode;
      }
    }

    /** SET_CODE_OUTPUT */
    method SetCodeOutput(payload: Option<OutputPayload>)
      modifies this
      ensures output == if payload.Some? && payload.value.output.Some? then payload.value.output.value else old(output)
      ensures codeHistory == old(codeHistory) && merkleTreeMode == old(merkleTreeMode) && immudb == old(immudb)
      ensures View() == Reducer.SetCodeOutput(old(View()), payload)
    {
      if payload.Some? {
        var out := payload.value.output;
        if out.Some? {
          output := out.value;
        }
      }
    }

    /** APPEND_CODE_OUTPUT */
    method AppendCodeOutput(payload: Option<OutputPayload>)
      modifies this
      ensures output == if Reducer.AppendsContent(payload) then old(output) + payload.value.output.value + [Divider] else old(output)
      ensures codeHistory == old(codeHistory) && merkleTreeMode == old(merkleTreeMode) && immudb == old(immudb)
      ensures View() == Reducer.AppendCodeOutput(old(View()), payload)
    {
      if payload.Some? {
        var out := payload.value.output;
        if out.Some? && |out.value| > 0 {
          output := output + out.value + [Divider];
        }
      }
    }

    /** Committing a mutation runs the handler the table holds under its name. */
    method Commit(m: Mutations.Mutation)
      modifies this, merkleTree
      ensures View() == Mutations.Commit(old(View()), m)
    {
      match m
      case AppendCodeHistory(p) => AppendCodeHistory(p);
      case SetImmudb(p) => SetImmudb(p);
      case SetMerkleTree(p) => SetMerkleTree(p);
      case SetMerkleTreeMode(p) => SetMerkleTreeMode(p);
      case SetCodeOutput(p) => SetCodeOutput(p);
      case AppendCodeOutput(p) => AppendCodeOutput(p);
    }
  }
}
