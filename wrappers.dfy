/** The optional value returned where the Python code returns `None`, the
    `dict.get` lookup, and the step lemma of loops over a table's keys. */
module Wrappers {

  datatype Option<+T> = None | Some(value: T)

  /** Looks a key up in a map, as Python's `dict.get(key)` does. */
  function Lookup<K, V>(m: map<K, V>, k: K): (r: Option<V>)
    ensures r.Some? <==> k in m
    ensures r.Some? ==> r.value == m[k]
  {
    if k in m then Some(m[k]) else None
  }

  /** One step of a loop that moves the keys of a map from `remaining` to
      `done` one at a time. */
  lemma MoveOne<K>(remaining: set<K>, done: set<K>, all: set<K>, x: K)
    requires remaining + done == all && remaining !! done && x in remaining
    ensures (remaining - {x}) + (done + {x}) == all && (remaining - {x}) !! (done + {x})
  {
  }
}
