# Write reconciliation of a Firebase Realtime Database client

This project models the core of `FirebaseTools`, a small Python client for a
Firebase Realtime Database: the write path `setValue`, which reads a node's
current value and decides whether the write creates the node, merges a key
into it, overwrites it, wipes it or amends it; the local mirror (`localDB`)
that every write updates; the status-code dispatch of `getValue`; and the
existence guards `createNode`, `removeValue`, `removeNode`, `overwriteNode`
and `getNode` built on those two.

- `values.dfy` (`Values`): the decoded JSON value (`Null`, `Bool`, `Int`,
  `Str`, `Dict`, `List`), Python truthiness, Python's `in` on containers,
  `v or d` and dict unpacking `{**a, **b}`.
- `wire.dfy` (`Wire`): the errors the client raises, the write request
  (verb, node, JSON body), the read response, and `Env` — the remote's
  answers to reads and writes and Python's `str()`, which the model takes as
  inputs.
- `reconcile.dfy` (`Reconcile`): which of the five paths a write takes
  (`Classify`) and what that path sends and records (`Plan`).
- `client.dfy` (`Client`): `getValue`'s dispatch, `setValue` over the
  mirror, and the guards.
- `session.dfy` (`Session`): a client instance making a sequence of calls,
  each paired with the `Env` it meets, and what that sequence can and cannot
  do to the mirror.

A client instance is reduced to its mirror, a `map<string, Value>`. Each
operation is a pure function from the mirror, its arguments and an `Env` to
either an `Effect` (new mirror, the write request sent if any, the boolean
returned) or the `Failure` the Python code raises. Each raise the model
covers (the read at `FirebaseTools.py:48` and the TypeError at
`FirebaseTools.py:64`) happens before the mirror is assigned, so such a raise
leaves the mirror as it was.

Three behaviours of the code are easy to misread, and the model keeps them
as written:
- The merge path sends a PUT of the whole merged dict, not a partial update.
- The amend path is also taken by a container that lacks the key, and not
  only by a scalar. For such a node the PATCH body and the new mirror entry
  are both `{key: value}`. So writing key `b` into a node holding `{"a": 1}`
  leaves `{"b": 2}` in the mirror, not `{"a": 1, "b": 2}`.
- A merge into a list-valued node raises a TypeError, because Python cannot
  unpack a list into a dict.

## Model

| member | source | states |
|---|---|---|
| Reconcile.Classify | FirebaseTools.py:53-77 | A write creates exactly when the node is falsy, the key non-empty and the value truthy. It merges exactly when the node is a truthy container holding the key. Overwrite and wipe need the empty key, with a truthy value and with None respectively. The amend path is reached with the empty key only for a falsy non-None value, and on a falsy node only with a falsy value. |
| Reconcile.FalsyNodeIsTreatedAsAbsent | FirebaseTools.py:53-77 | A node holding 0, "", False, {} or [] takes the same path as a missing one. |
| Reconcile.Plan | FirebaseTools.py:53-99 | Create records and sends exactly `{key: value}`. Merge keeps the dict's keys and replaces only `key`. Overwrite replaces the node with the value. Wipe sends DELETE and records None. Amend on a scalar gives `{node: old, key: value}`, the new value winning when `key == node`. Amend on a container gives `{key: value}`, dropping every old key. Values are stringified under `stringFormat`. The verb is PATCH exactly for amend and DELETE exactly for wipe. The recorded entry equals the body sent, or is None for a DELETE. Only a merge into a list fails. |
| Client.GetValue | FirebaseTools.py:106-131 | A 200 answer yields its body. Any other status raises, naming the node and key. The error is the authentication error exactly when the status is 401. |
| Client.SetValue | FirebaseTools.py:44-104 | An empty node name returns False with no request and an unchanged mirror. A named write raises exactly when its read is not answered 200 or the merge path meets a list, and raises before anything is written. A failed read raises getValue's error for the node and the empty key, and a list merge raises the TypeError. Otherwise it sends exactly one request, the one of the path `Plan` chooses, addressed to the node, and records that path's entry as the node's mirror entry. The result is True iff that request is answered 200. No other mirror entry changes, and the node keeps an entry even after a wipe. |
| Client.MirrorIsWrittenWhateverTheStatus | FirebaseTools.py:92-104 | The mirror update and the request sent do not depend on the status the write gets. |
| Client.CreateNode | FirebaseTools.py:140-145 | A truthy node is refused. A falsy node is written through `setValue` with `value or 'Value'` and no formatting. For a named node with a key this is always a PUT creating `{key: value or 'Value'}`; without a key it is a PUT of `value or 'Value'`. |
| Client.RemoveValue | FirebaseTools.py:133-138 | Only a truthy value at `node/key` is removed, by `setValue(node, key, None, False)`. Any write it makes records `key: None` in the node's entry, or wipes the node when the key is empty. |
| Client.RemoveNode | FirebaseTools.py:166-171 | Only a truthy node is removed, through `removeValue(node, '')` and so `setValue(node, '', None, False)`. That takes the wipe path unless the node holds the key `''`, in which case it takes the merge path. A truthy node named, read with 200 and not holding the key `''` is deleted by one DELETE. Its mirror entry becomes None but stays in the mirror. |
| Client.OverwriteNode | FirebaseTools.py:154-158 | Only a truthy node is overwritten, by `setValue(node, '', value, stringFormat)`. A truthy value replaces the node by PUT, unless the node holds the key `''`, in which case it takes the merge path. Overwriting with None a truthy node that does not hold the key `''` deletes it. |
| Client.GetNode | FirebaseTools.py:147-152 | A truthy node's value is returned. A missing or falsy node comes back as False. A failed read raises getValue's error for the node and the empty key. |
| Session.Replay | FirebaseTools.py:44-175 | Over a sequence of calls, each call returns or raises and the sequence stops at the first raise. The call after the returning ones raised exactly the recorded error against the mirror it found. At most one write request is sent per call. |
| Session.ReplayStopsAtFirstRaise | FirebaseTools.py:173-175 | A sequence stops at its first raise: when the first `i` calls return and call `i` raises against the mirror they left, exactly `i` results are recorded and the recorded error is that call's. |
| Session.ReplayResultsAreTheCallsResults | FirebaseTools.py:173-175 | For every recorded result `i`, the calls before it raised nothing, and result `i` is the boolean call `i` returned on the mirror those calls left. |
| Session.ReplayTouchesOnlyNamedNodes | FirebaseTools.py:58-92 | Over any sequence of calls no mirror entry is ever removed. Only nodes the calls name gain or change an entry. |
| Session.ReplaySendsOnlyToNamedNodes | FirebaseTools.py:94-99 | Every write request of a sequence addresses a named node, and that node has an entry in the final mirror. |
| Session.RemovingNodesWipesEach | FirebaseTools.py:173-175 | Removing nodes one after another, where each `removeNode` finds its node named, read with 200, truthy and not holding the key `''`, sends one DELETE per call, in order, and raises nothing. Every removed node is left in the mirror with None. |

## Left out

- HTTP requests: a read is answered by `Env.read` and a write's status by `Env.status`. Errors raised by the HTTP library itself, timeouts and server-side PUT/PATCH semantics are not modelled. Such a raise from the PUT, PATCH or DELETE at `FirebaseTools.py:95-99` would come after the mirror is assigned, so it would leave the node's new entry in the mirror; the model has no such raise.
- Remote state: within one call every read sees the same `Env`, since the call writes only after its last read. In a sequence each call carries its own `Env`, and nothing relates one call's `Env` to the writes of the calls before it. So the model does not derive what a later call reads from earlier writes; the sequence lemmas hold for whatever each call reads.
- Python's `str()` under `stringFormat` is the uninterpreted `Env.show`.
- URL building (`getPath`, `setPath`, `quote`) and the auth suffix: string plumbing over a foreign encoder. Requests carry the node name instead of a URL.
- Client.GetValue: the body is taken as already decoded. The second-level decode of string bodies (`json.loads`, then `ast.literal_eval`, which can itself raise) and the `stringFormat=True` text form (`json.dumps`) are foreign parsers.
- Client.GetNode: models `getNode(node, False)` only, because its `stringFormat` text form is the foreign `json.dumps`/raw-string rendering left out above.
- Floating-point JSON numbers are not in `Value`.
- Dict key order: `Dict` is an unordered map, so the key order of a JSON body is not modelled.
- `backupData`, `wipeData`, `getNodeNames`, `getData`, the constructor, `dprint` and `__main__`: file-system I/O, timestamps, logging and network initialisation.
