# Output store of the immudb web console, in Dafny

The playground client keeps one output store per session. It holds the code
snippets the user submitted (`codeHistory`), the output log of their runs
(`output`, with `{ divider: true }` fragments closing each run), the Merkle tree
received from the server (`merkleTree.graph` and `merkleTree.json`), the tree's
display mode (`merkleTreeMode`) and an opaque value that `SET_IMMUDB` stores
(`immudb`). Six mutations change it: `APPEND_CODE_HISTORY`, `SET_IMMUDB`,
`SET_MERKLE_TREE`, `SET_MERKLE_TREE_MODE`, `SET_CODE_OUTPUT` and
`APPEND_CODE_OUTPUT`. Each takes the state and a payload, tests the payload (and
some of its fields) for JavaScript truthiness, and either writes the fields it
owns or does nothing.

The project has two layers:

- `OutputStore.OutputState` is the state object. It is a class with one field per
  state member. `merkleTree` is a separate `MerkleTree` object whose fields are
  assigned in place, as the source does. Each mutation is a method with a
  `modifies` clause. Its postconditions say what every field holds afterwards, and
  they tie the new `View()` to the value-level reducer applied to the old one.
- `Reducer` gives the six mutations as functions on a `Snapshot` value, each with
  its guard written out. `Mutations` turns the string-keyed mutation table into a
  tagged variant with a `Commit` dispatch. It replays a sequence of commits in
  order and proves what such sequences do: the history is append-only, the log
  grows by content plus one divider per run, dividers only follow content, each
  Merkle rendering is the latest one supplied, and commits that own disjoint
  fields commute.

Truthiness is explicit. A payload or field is an `Option`. For a payload and for
the fields the store tests before writing (`graph`, `json`, `output`), `None` is
an absent or falsy value and `Some(v)` is a truthy one. For the fields stored
without a test (`code`, `mode`, `immudb`), `None` is `undefined` or `null` and
`Some(v)` is any other value, so an empty `code` is `Some("")`. An array is
truthy even when empty.
So `SET_CODE_OUTPUT` with `Some([])` clears the log, while `APPEND_CODE_OUTPUT`
also tests `output.length` (`Reducer.AppendsContent`), so an empty array appends
nothing, not even a divider.

In these places the model follows the code, whatever the names might suggest:

- `APPEND_CODE_HISTORY` tests only the payload. It appends `code` even when it
  is absent (`None`) or empty (`Some("")`).
- `SET_MERKLE_TREE_MODE` and `SET_IMMUDB` assign whatever value they are given.
  The mode is not checked against a list of known modes.
- An append without content emits no divider.

## Model

| member | source | states |
|---|---|---|
| Reducer.AppendCodeHistory | client/src/store/output/mutations.js:11-16 | falsy payload: state unchanged; otherwise history grows by exactly one, keeps its earlier entries in order and ends with `code` as given (absent included); every other field agrees |
| Reducer.SetImmudb | client/src/store/output/mutations.js:17-22 | falsy payload: unchanged; otherwise `immudb` becomes the payload's value, unvalidated; every other field agrees |
| Reducer.SetMerkleTree | client/src/store/output/mutations.js:23-29 | `graph` becomes the payload's graph exactly when payload and graph are truthy, else keeps its value; the same, independently, for `json`; every other field agrees |
| Reducer.SetMerkleTreeMode | client/src/store/output/mutations.js:30-35 | falsy payload: unchanged; otherwise the mode becomes the payload's mode, unvalidated; every other field agrees |
| Reducer.SetCodeOutput | client/src/store/output/mutations.js:36-41 | truthy `output` (an empty array included) replaces the log wholesale; otherwise the state is unchanged; every other field agrees |
| Reducer.AppendCodeOutput | client/src/store/output/mutations.js:42-53 | with content: new log is old log, then the content, then one divider; its length is old + content + 1 and its last element a divider; without payload, output or length: state unchanged; every other field agrees |
| Mutations.Commit | client/src/store/output/mutations.js:10-54 | dispatching a mutation to its handler changes no field outside the ones its guards let it write (`Writes`) |
| Mutations.NothingOwnedNothingChanged | client/src/store/output/mutations.js:11-53 | a commit that may write no field returns the same state |
| Mutations.FalsyPayloadIsNoOp | client/src/store/output/mutations.js:11-53 | every one of the six mutations with a falsy payload owns no field and leaves the whole state unchanged |
| Mutations.CommitIsLocal | client/src/store/output/mutations.js:11-53 | what a commit leaves in a field depends only on that field of the old state |
| Mutations.DisjointCommitsCommute | client/src/store/output/mutations.js:11-53 | two commits that own disjoint fields give the same state in either order |
| Mutations.ReplayHistory | client/src/store/output/mutations.js:11-16 | after any sequence of commits the history is the old history followed by every submitted code in commit order, duplicates kept |
| Mutations.CommitOutput | client/src/store/output/mutations.js:42-53 | a commit other than `SET_CODE_OUTPUT` only appends to the log, namely what it emits |
| Mutations.ReplayOutput | client/src/store/output/mutations.js:42-53 | with no `SET_CODE_OUTPUT` among the commits, the final log is the old log followed by the transcript of all appends, in order |
| Mutations.TranscriptLength | client/src/store/output/mutations.js:45-50 | the transcript's length is the sum of the appended contents' lengths plus one divider per appending commit |
| Mutations.LogLength | client/src/store/output/mutations.js:45-50 | with no `SET_CODE_OUTPUT` among the commits, the final log's length is the old length plus the total appended content plus one divider per appending commit |
| Mutations.SeparatedAppend | client/src/store/output/mutations.js:45-50 | appending divider-free content and a divider to a log in which every divider follows content keeps that property |
| Mutations.CommitKeepsSeparated | client/src/store/output/mutations.js:36-53 | one commit whose payload carries no divider keeps "every divider follows content" |
| Mutations.ReplayKeepsSeparated | client/src/store/output/mutations.js:36-53 | any sequence of such commits keeps it: no divider is ever emitted without content |
| Mutations.ReplayMerkleTree | client/src/store/output/mutations.js:23-29 | after any commits, `graph` is the one from the latest commit that supplied a graph (else the old one), and likewise and independently for `json` |
| Mutations.GraphThenJson | client/src/store/output/mutations.js:25-27 | setting `{graph: G}` and then `{json: J}` leaves `graph = G` and `json = J` |
| OutputStore.OutputState.AppendCodeHistory | client/src/store/output/mutations.js:11-16 | in place: history becomes old history plus `code` when the payload is truthy; output, mode, immudb and the tree object unchanged; matches the reducer |
| OutputStore.OutputState.SetImmudb | client/src/store/output/mutations.js:17-22 | in place: `immudb` assigned from a truthy payload, other fields unchanged; matches the reducer |
| OutputStore.OutputState.SetMerkleTree | client/src/store/output/mutations.js:23-29 | writes only the nested tree object's `graph` and `json`, each only when truthy; the state object itself unchanged; matches the reducer |
| OutputStore.OutputState.SetMerkleTreeMode | client/src/store/output/mutations.js:30-35 | in place: mode assigned from a truthy payload, other fields unchanged; matches the reducer |
| OutputStore.OutputState.SetCodeOutput | client/src/store/output/mutations.js:36-41 | in place: log replaced by a truthy `output`, other fields unchanged; matches the reducer |
| OutputStore.OutputState.AppendCodeOutput | client/src/store/output/mutations.js:42-53 | in place: log extended by content and one divider only when payload, output and length are truthy; other fields unchanged; matches the reducer |
| OutputStore.OutputState.Commit | client/src/store/output/mutations.js:10-54 | running the handler for a mutation changes the state exactly as `Mutations.Commit` says |

## Left out

- Payload values of other JavaScript types are not modelled. A tested field is either absent or falsy (`None`) or a truthy value of its expected type, and an untested one is either `undefined`/`null` (`None`) or a value of its expected type. So `null` and `undefined` are one value, and a present but falsy `graph` or `json` (`""`, `0`) is the same as an absent one. An `output` that is a string or an object with a `length` property, whose spread would split it or throw, is outside the model.
- Aliasing: `SET_CODE_OUTPUT` stores the caller's array object itself, so later changes to that array would show in the state. The model stores a sequence value.
- The store's initial state and its registration with Vuex are not part of this model. The constructors take an arbitrary initial state.
- Vue's reactivity, which re-renders views when these fields change, is not modelled.
- The websocket event channel, message classification and backup-status tracking are not modelled. `client/src/store/websocket/constants.js` only names their events, and their behaviour is not part of this model.
- The backend runner (`backend/runner.go`) is concurrency and container plumbing. The view getters, the HTTP client configuration, the localisation strings, the toast plugin and the Python example snippet are presentation or I/O. None of them is modelled.
