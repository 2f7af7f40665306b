/** The optional value used for every payload and payload field. For a payload and
    for the fields the store tests before writing (`graph`, `json`, `output`), `None`
    stands for an absent or falsy JavaScript value and `Some(v)` for a truthy `v`.
    For the fields stored without a test (`code`, `mode`, `immudb`), `None` stands
    for `undefined` or `null` and `Some(v)` for any other value, falsy ones such as
    `""` included. */
module Wrappers {
  datatype Option<+T> = None | Some(value: T)
}
