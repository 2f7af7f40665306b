/** The mutation table of the output store as a tagged variant, the dispatch that a
    commit performs, and what a sequence of commits, applied in order, does to the
    state. */
module Mutations {
  import opened Wrappers
  import opened OutputTypes
  import Reducer

  /** One committed mutation with its (possibly absent) payload. */
  datatype Mutation =
    | AppendCodeHistory(codePayload: Option<CodePayload>)
    | SetImmudb(immudbPayload: Option<ImmudbPayload>)
    | SetMerkleTree(merklePayload: Option<MerkleTreePayload>)
    | SetMerkleTreeMode(modePayload: Option<ModePayload>)
    | SetCodeOutput(setPayload: Option<OutputPayload>)
    | AppendCodeOutput(appendPayload: Option<OutputPayload>)

  /** The mutation was committed with a falsy payload. */
  predicate FalsyPayload(m: Mutation) {
    match m
    case AppendCodeHistory(p) => p.None?
    case SetImmudb(p) => p.None?
    case SetMerkleTree(p) => p.None?
    case SetMerkleTreeMode(p) => p.None?
    case SetCodeOutput(p) => p.None?
    case AppendCodeOutput(p) => p.None?
  }

  /** The fields a mutation owns for this payload: the ones its guards let it write. */
  function Writes(m: Mutation): set<Field> {
    match m
    case AppendCodeHistory(p) => if p.Some? then {CodeHistory} else {}
    case SetImmudb(p) => if p.Some? then {ImmudbField} else {}
    case SetMerkleTree(p) =>
      (if p.Some? && p.value.graph.Some? then {MerkleGraph} else {}) +
      (if p.Some? && p.value.json.Some? then {MerkleJson} else {})
    case SetMerkleTreeMode(p) => if p.Some? then {MerkleTreeMode} else {}
    case SetCodeOutput(p) => if p.Some? && p.value.output.Some? then {Output} else {}
    case AppendCodeOutput(p) => if Reducer.AppendsContent(p) then {Output} else {}
  }

  /** Committing `m`: the handler that the table associates with its name, applied to
      the state and the payload. Only owned fields can change. */
  function Commit(s: Snapshot, m: Mutation): (r: Snapshot)
    ensures forall f :: f !in Writes(m) ==> Agree(s, r, f)
  {
    match m
    case AppendCodeHistory(p) => Reducer.AppendCodeHistory(s, p)
    case SetImmudb(p) => Reducer.SetImmudb(s, p)
    case SetMerkleTree(p) => Reducer.SetMerkleTree(s, p)
    case SetMerkleTreeMode(p) => Reducer.SetMerkleTreeMode(s, p)
    case SetCodeOutput(p) => Reducer.SetCodeOutput(s, p)
    case AppendCodeOutput(p) => Reducer.AppendCodeOutput(s, p)
  }

  /** Two states that agree on every field are the same state. */
  lemma AgreeEverywhere(s: Snapshot, r: Snapshot)
    requires forall f :: Agree(s, r, f)
    ensures s == r
  {
    assert Agree(s, r, CodeHistory) && Agree(s, r, Output);
    assert Agree(s, r, MerkleGraph) && Agree(s, r, MerkleJson);
    assert Agree(s, r, MerkleTreeMode) && Agree(s, r, ImmudbField);
  }

  /** A mutation whose guards let it write nothing leaves the whole state unchanged. */
  lemma NothingOwnedNothingChanged(s: Snapshot, m: Mutation)
    requires Writes(m) == {}
    ensures Commit(s, m) == s
  {
    AgreeEverywhere(s, Commit(s, m));
  }

  /** Every mutation committed with a falsy payload is a no-op. */
  lemma FalsyPayloadIsNoOp(s: Snapshot, m: Mutation)
    requires FalsyPayload(m)
    ensures Writes(m) == {}
    ensures Commit(s, m) == s
  {
    NothingOwnedNothingChanged(s, m);
  }

  /** What a commit leaves in a field depends on nothing but that field of the old
      state (and the payload). */
  lemma CommitIsLocal(s1: Snapshot, s2: Snapshot, m: Mutation, f: Field)
    requires Agree(s1, s2, f)
    ensures Agree(Commit(s1, m), Commit(s2, m), f)
  {
  }

  /** Mutations that own disjoint fields commute. */
  lemma DisjointCommitsCommute(s: Snapshot, m1: Mutation, m2: Mutation)
    requires Writes(m1) !! Writes(m2)
    ensures Commit(Commit(s, m1), m2) == Commit(Commit(s, m2), m1)
  {
    var s1, s2 := Commit(s, m1), Commit(s, m2);
    forall f ensures Agree(Commit(s1, m2), Commit(s2, m1), f) {
      if f in Writes(m1) {
        CommitIsLocal(s, s2, m1, f);
      } else if f in Writes(m2) {
        CommitIsLocal(s, s1, m2, f);
      } else {
        CommitIsLocal(s, s2, m1, f);
      }
    }
    AgreeEverywhere(Commit(s1, m2), Commit(s2, m1));
  }

  /** The state after committing `ms` one after the other, in order. */
  function Replay(s: Snapshot, ms: seq<Mutation>): Snapshot
    decreases |ms|
  {
    if ms == [] then s else Replay(Commit(s, ms[0]), ms[1..])
  }

  lemma {:induction false} ReplayConcat(s: Snapshot, a: seq<Mutation>, b: seq<Mutation>)
    ensures Replay(s, a + b) == Replay(Replay(s, a), b)
    decreases |a|
  {
    if a == [] {
      assert a + b == b;
    } else {
      assert (a + b)[1..] == a[1..] + b;
      ReplayConcat(Commit(s, a[0]), a[1..], b);
    }
  }

  /** Replaying a non-empty sequence is replaying all but its last mutation, then
      committing the last one. */
  lemma ReplaySnoc(s: Snapshot, ms: seq<Mutation>)
    requires ms != []
    ensures Replay(s, ms) == Commit(Replay(s, ms[..|ms| - 1]), ms[|ms| - 1])
  {
    var init, last := ms[..|ms| - 1], ms[|ms| - 1];
    assert ms == init + [last];
    ReplayConcat(s, init, [last]);
  }

  // ---- code history ----

  /** The codes that the APPEND_CODE_HISTORY commits of `ms` carry, in commit order. */
  function Submitted(ms: seq<Mutation>): seq<Option<Code>>
    decreases |ms|
  {
    if ms == [] then []
    else
      (match ms[0]
       case AppendCodeHistory(Some(p)) => [p.code]
       case _ => []) + Submitted(ms[1..])
  }

  /** The history is append-only: after any commits it is the old history followed by
      every submitted code, in order, duplicates included. */
  lemma {:induction false} ReplayHistory(s: Snapshot, ms: seq<Mutation>)
    ensures Replay(s, ms).codeHistory == s.codeHistory + Submitted(ms)
    decreases |ms|
  {
    if ms != [] {
      var t := Commit(s, ms[0]);
      ReplayHistory(t, ms[1..]);
      match ms[0]
      case AppendCodeHistory(Some(p)) =>
        assert t.codeHistory == s.codeHistory + [p.code];
      case _ =>
        assert CodeHistory !in Writes(ms[0]);
        assert t.codeHistory == s.codeHistory;
    }
  }

  // ---- output log ----

  /** What one commit appends to the output log. */
  function Emitted(m: Mutation): seq<Fragment> {
    match m
    case AppendCodeOutput(p) =>
      if Reducer.AppendsContent(p) then p.value.output.value + [Divider] else []
    case _ => []
  }

  /** Everything a sequence of commits appends to the output log. */
  function Transcript(ms: seq<Mutation>): seq<Fragment>
    decreases |ms|
  {
    if ms == [] then [] else Emitted(ms[0]) + Transcript(ms[1..])
  }

  /** Total number of content fragments the appending commits of `ms` carry. */
  function ContentLength(ms: seq<Mutation>): nat
    decreases |ms|
  {
    if ms == [] then 0
    else
      (match ms[0]
       case AppendCodeOutput(p) => if Reducer.AppendsContent(p) then |p.value.output.value| else 0
       case _ => 0) + ContentLength(ms[1..])
  }

  /** Number of commits of `ms` that append content. */
  function Runs(ms: seq<Mutation>): nat
    decreases |ms|
  {
    if ms == [] then 0
    else (if ms[0].AppendCodeOutput? && Reducer.AppendsContent(ms[0].appendPayload) then 1 else 0) + Runs(ms[1..])
  }

  /** A commit other than SET_CODE_OUTPUT appends what it emits to the log. */
  lemma CommitOutput(s: Snapshot, m: Mutation)
    requires !m.SetCodeOutput?
    ensures Commit(s, m).output == s.output + Emitted(m)
  {
    if Output !in Writes(m) {
      assert Agree(s, Commit(s, m), Output);
    }
  }

  /** As long as nothing replaces it, the log only grows at its end, by the transcript
      of the commits. */
  lemma {:induction false} ReplayOutput(s: Snapshot, ms: seq<Mutation>)
    requires forall i :: 0 <= i < |ms| ==> !ms[i].SetCodeOutput?
    ensures Replay(s, ms).output == s.output + Transcript(ms)
    decreases |ms|
  {
    if ms != [] {
      var t, rest := Commit(s, ms[0]), ms[1..];
      CommitOutput(s, ms[0]);
      assert forall i :: 0 <= i < |rest| ==> !rest[i].SetCodeOutput? by {
        forall i | 0 <= i < |rest| ensures !rest[i].SetCodeOutput? {
          assert rest[i] == ms[i + 1];
        }
      }
      ReplayOutput(t, rest);
      assert Replay(s, ms) == Replay(t, rest);
      assert Transcript(ms) == Emitted(ms[0]) + Transcript(rest);
      assert s.output + Emitted(ms[0]) + Transcript(rest) == s.output + (Emitted(ms[0]) + Transcript(rest));
    }
  }

  /** The log grows by the appended fragments plus one divider per appending commit. */
  lemma {:induction false} TranscriptLength(ms: seq<Mutation>)
    ensures |Transcript(ms)| == ContentLength(ms) + Runs(ms)
    decreases |ms|
  {
    if ms != [] {
      TranscriptLength(ms[1..]);
    }
  }

  /** As long as nothing replaces it, the log's length grows by the appended content
      plus one divider per appending commit. */
  lemma LogLength(s: Snapshot, ms: seq<Mutation>)
    requires forall i :: 0 <= i < |ms| ==> !ms[i].SetCodeOutput?
    ensures |Replay(s, ms).output| == |s.output| + ContentLength(ms) + Runs(ms)
  {
    ReplayOutput(s, ms);
    TranscriptLength(ms);
  }

  /** No divider stands at the front of the log or right after another divider:
      every divider closes some content. */
  ghost predicate Separated(log: seq<Fragment>) {
    forall i :: 0 <= i < |log| && log[i].Divider? ==> i > 0 && !log[i - 1].Divider?
  }

  /** The fragments carried by the payload of `m`, if it has any. */
  function Carried(m: Mutation): seq<Fragment> {
    match m
    case SetCodeOutput(Some(OutputPayload(Some(o)))) => o
    case AppendCodeOutput(Some(OutputPayload(Some(o)))) => o
    case _ => []
  }

  ghost predicate DividerFree(frags: seq<Fragment>) {
    forall i :: 0 <= i < |frags| ==> !frags[i].Divider?
  }

  lemma SeparatedAppend(log: seq<Fragment>, o: seq<Fragment>)
    requires Separated(log) && DividerFree(o) && o != []
    ensures Separated(log + o + [Divider])
  {
    var r := log + o + [Divider];
    assert forall k :: |log| <= k < |log| + |o| ==> r[k] == o[k - |log|];
    forall i | 0 <= i < |r| && r[i].Divider?
      ensures i > 0 && !r[i - 1].Divider?
    {
      if i < |log| {
        assert r[i] == log[i];
        if i > 0 { assert r[i - 1] == log[i - 1]; }
      } else {
        assert r[i - 1] == o[|o| - 1];
      }
    }
  }

  /** One commit whose payload carries no divider keeps the log separated. */
  lemma CommitKeepsSeparated(s: Snapshot, m: Mutation)
    requires Separated(s.output) && DividerFree(Carried(m))
    ensures Separated(Commit(s, m).output)
  {
    var t := Commit(s, m);
    if Output !in Writes(m) {
      assert Agree(s, t, Output);
    } else if m.AppendCodeOutput? {
      SeparatedAppend(s.output, m.appendPayload.value.output.value);
    }
  }

  /** Starting from a separated log, commits whose payloads carry no dividers keep it
      separated: a divider is only ever emitted after content. */
  lemma {:induction false} ReplayKeepsSeparated(s: Snapshot, ms: seq<Mutation>)
    requires Separated(s.output)
    requires forall i :: 0 <= i < |ms| ==> DividerFree(Carried(ms[i]))
    ensures Separated(Replay(s, ms).output)
    decreases |ms|
  {
    if ms != [] {
      CommitKeepsSeparated(s, ms[0]);
      ReplayKeepsSeparated(Commit(s, ms[0]), ms[1..]);
    }
  }

  // ---- Merkle tree ----

  function SuppliedGraph(m: Mutation): Option<Graph> {
    match m
    case SetMerkleTree(Some(p)) => p.graph
    case _ => None
  }

  function SuppliedJson(m: Mutation): Option<Json> {
    match m
    case SetMerkleTree(Some(p)) => p.json
    case _ => None
  }

  /** The graph supplied by the latest commit of `ms` that supplies one, else `g`. */
  function LatestGraph(ms: seq<Mutation>, g: Option<Graph>): Option<Graph>
    decreases |ms|
  {
    if ms == [] then g
    else if SuppliedGraph(ms[|ms| - 1]).Some? then SuppliedGraph(ms[|ms| - 1])
    else LatestGraph(ms[..|ms| - 1], g)
  }

  /** The serialized tree supplied by the latest commit of `ms` that supplies one, else `j`. */
  function LatestJson(ms: seq<Mutation>, j: Option<Json>): Option<Json>
    decreases |ms|
  {
    if ms == [] then j
    else if SuppliedJson(ms[|ms| - 1]).Some? then SuppliedJson(ms[|ms| - 1])
    else LatestJson(ms[..|ms| - 1], j)
  }

  /** Each rendering of the tree is the one from the latest update that supplied it,
      independently of the other rendering. */
  lemma {:induction false} ReplayMerkleTree(s: Snapshot, ms: seq<Mutation>)
    ensures Replay(s, ms).merkleTree.graph == LatestGraph(ms, s.merkleTree.graph)
    ensures Replay(s, ms).merkleTree.json == LatestJson(ms, s.merkleTree.json)
    decreases |ms|
  {
    if ms != [] {
      var init, last := ms[..|ms| - 1], ms[|ms| - 1];
      ReplaySnoc(s, ms);
      ReplayMerkleTree(s, init);
      var before := Replay(s, init);
      var after := Commit(before, last);
      if SuppliedGraph(last).None? {
        assert MerkleGraph !in Writes(last);
        assert Agree(before, after, MerkleGraph);
      }
      if SuppliedJson(last).None? {
        assert MerkleJson !in Writes(last);
        assert Agree(before, after, MerkleJson);
      }
    }
  }

  /** Setting only the graph and then only the serialized form keeps both. */
  lemma GraphThenJson(s: Snapshot, g: Graph, j: Json)
    ensures Replay(s, [SetMerkleTree(Some(MerkleTreePayload(Some(g), None))),
                       SetMerkleTree(Some(MerkleTreePayload(None, Some(j))))]).merkleTree
            == MerkleSnapshot(Some(g), Some(j))
  {
    var a := SetMerkleTree(Some(MerkleTreePayload(Some(g), None)));
    var b := SetMerkleTree(Some(MerkleTreePayload(None, Some(j))));
    assert [a, b][1..] == [b] && [b][1..] == [];
    assert Replay(s, [a, b]) == Replay(Commit(s, a), [b]);
    assert Replay(Commit(s, a), [b]) == Commit(Commit(s, a), b);
  }
}
