/** The six mutations of the output store as functions from the old state and the
    payload to the new state. Each one either writes the fields it owns or returns
    the state it was given; the guards are the truthiness tests of the source, with
    `None` standing for a falsy value. */
module Reducer {
  import opened Wrappers
  import opened OutputTypes

  /** APPEND_CODE_HISTORY: only the payload is tested; `code` is appended as it is,
      absent or empty included, and nothing is deduplicated. */
  function AppendCodeHistory(s: Snapshot, p: Option<CodePayload>): (r: Snapshot)
    ensures p.None? ==> r == s
    ensures p.Some? ==>
      && |r.codeHistory| == |s.codeHistory| + 1
      && r.codeHistory[..|s.codeHistory|] == s.codeHistory
      && r.codeHistory[|s.codeHistory|] == p.value.code
    ensures forall f :: f != CodeHistory ==> Agree(s, r, f)
  {
    match p
    case None => s
    case Some(payload) => s.(codeHistory := s.codeHistory + [payload.code])
  }

  /** SET_IMMUDB: assigns `immudb` without looking at it. */
  function SetImmudb(s: Snapshot, p: Option<ImmudbPayload>): (r: Snapshot)
    ensures p.None? ==> r == s
    ensures p.Some? ==> r.immudb == p.value.immudb
    ensures forall f :: f != ImmudbField ==> Agree(s, r, f)
  {
    match p
    case None => s
    case Some(payload) => s.(immudb := payload.immudb)
  }

  /** SET_MERKLE_TREE: each of `graph` and `json` is written only when it is truthy;
      the other one keeps its value, and neither is derived from the other. */
  function SetMerkleTree(s: Snapshot, p: Option<MerkleTreePayload>): (r: Snapshot)
    ensures p.Some? && p.value.graph.Some? ==> r.merkleTree.graph == p.value.graph
    ensures !(p.Some? && p.value.graph.Some?) ==> r.merkleTree.graph == s.merkleTree.graph
    ensures p.Some? && p.value.json.Some? ==> r.merkleTree.json == p.value.json
    ensures !(p.Some? && p.value.json.Some?) ==> r.merkleTree.json == s.merkleTree.json
    ensures forall f :: f != MerkleGraph && f != MerkleJson ==> Agree(s, r, f)
  {
    match p
    case None => s
    case Some(payload) =>
      var withGraph := if payload.graph.Some? then s.(merkleTree := s.merkleTree.(graph := payload.graph)) else s;
      if payload.json.Some? then withGraph.(merkleTree := withGraph.merkleTree.(json := payload.json)) else withGraph
  }

  /** SET_MERKLE_TREE_MODE: assigns `mode` without validating it. */
  function SetMerkleTreeMode(s: Snapshot, p: Option<ModePayload>): (r: Snapshot)
    ensures p.None? ==> r == s
    ensures p.Some? ==> r.merkleTreeMode == p.value.mode
    ensures forall f :: f != MerkleTreeMode ==> Agree(s, r, f)
  {
    match p
    case None => s
    case Some(payload) => s.(merkleTreeMode := payload.mode)
  }

  /** SET_CODE_OUTPUT: a truthy `output` replaces the log wholesale; an empty array is
      truthy, so it clears the log. */
  function SetCodeOutput(s: Snapshot, p: Option<OutputPayload>): (r: Snapshot)
    ensures p.Some? && p.value.output.Some? ==> r.output == p.value.output.value
    ensures !(p.Some? && p.value.output.Some?) ==> r == s
    ensures forall f :: f != Output ==> Agree(s, r, f)
  {
    match p
    case None => s
    case Some(payload) => if payload.output.Some? then s.(output := payload.output.value) else s
  }

  /** The guard of APPEND_CODE_OUTPUT: the payload, `output` and `output.length` are
      all truthy. */
  predicate AppendsContent(p: Option<OutputPayload>) {
    p.Some? && p.value.output.Some? && |p.value.output.value| > 0
  }

  /** APPEND_CODE_OUTPUT: content is appended followed by exactly one divider; without
      content nothing is appended, not even a divider. */
  function AppendCodeOutput(s: Snapshot, p: Option<OutputPayload>): (r: Snapshot)
    ensures AppendsContent(p) ==>
      && r.output == s.output + p.value.output.value + [Divider]
      && |r.output| == |s.output| + |p.value.output.value| + 1
      && r.output[|r.output| - 1] == Divider
    ensures !AppendsContent(p) ==> r == s
    ensures forall f :: f != Output ==> Agree(s, r, f)
  {
    match p
    case None => s
    case Some(payload) =>
      if payload.output.Some? && |payload.output.value| > 0 then
        s.(output := s.output + payload.output.value + [Divider])
      else s
  }
}
