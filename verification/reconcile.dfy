/** The decision at the heart of `setValue`: given the node's current value,
    the key and the new value, which of the five write paths is taken, and
    what that path puts in the local mirror and on the wire. */
module Reconcile {
  import opened Values
  import opened Wire

  /** The five paths of `setValue`, in the order their guards are tried. */
  datatype Branch = Create | MergeKey | Overwrite | Wipe | Amend

  /** The path a write takes. The guards are tried in source order, so a
      later path applies only when every earlier guard failed. */
  function Classify(current: Value, key: string, value: Value): (b: Branch)
    // a falsy node counts as absent: create needs a non-empty key and a truthy value
    ensures b == Create <==> !Truthy(current) && key != "" && Truthy(value)
    // only a truthy container that already holds the key is merged into
    ensures b == MergeKey <==> Truthy(current) && IsContainer(current) && Contains(current, key)
    ensures b == Overwrite ==> key == "" && Truthy(value)
    ensures b == Wipe ==> key == "" && value == Null
    // the amend path is reached with the empty key exactly when the value is falsy but not None
    ensures b == Amend && key == "" ==> !Truthy(value) && value != Null
    // on an absent (falsy) node the amend path is reached only with a falsy value
    ensures b == Amend && !Truthy(current) ==> !Truthy(value)
    ensures b == Amend && Truthy(current) ==> !Contains(current, key)
  {
    if !Truthy(current) && key != "" && Truthy(value) then Create
    else if Truthy(current) && IsContainer(current) && Contains(current, key) then MergeKey
    else if key == "" && Truthy(value) then Overwrite
    else if key == "" && value == Null then Wipe
    else Amend
  }

  /** A falsy node -- 0, "", False, {}, [] -- is classified exactly as if it
      were missing. */
  lemma FalsyNodeIsTreatedAsAbsent(current: Value, key: string, value: Value)
    requires !Truthy(current)
    ensures Classify(current, key, value) == Classify(Null, key, value)
  {
  }

  /** The value as written: `str(value)` when string formatting is asked for. */
  function Formatted(value: Value, stringFormat: bool, show: Value -> string): (v: Value)
  {
    if stringFormat then Str(show(value)) else value
  }

  /** What one write does: the request verb, the JSON body and the new
      mirror entry for the node. */
  datatype Write = Write(verb: Verb, payload: Option<Value>, entry: Value)

  /** The mirror entry agrees with what is sent: the payload itself for a
      PUT or PATCH, and `None` (with no body) for a DELETE. */
  predicate EntryMatchesPayload(w: Write)
  {
    if w.verb == Delete then w.payload == None && w.entry == Null
    else w.payload == Some(w.entry)
  }

  /** The write `setValue(node, key, value, stringFormat)` performs on a
      node whose current value is `current`, or the TypeError raised when the
      merge path meets a list. */
  function Plan(node: string, key: string, value: Value, stringFormat: bool,
                show: Value -> string, current: Value): (r: Result<Write, Failure>)
    // only dict-unpacking a list fails
    ensures r.Err? <==> Truthy(current) && current.List? && Str(key) in current.items
    ensures r.Err? ==> r.error == NotAMapping
    ensures r.Ok? ==> EntryMatchesPayload(r.value)
    // PATCH for the amend path, DELETE for the wipe path, PUT otherwise
    ensures r.Ok? ==> (r.value.verb == Patch <==> Classify(current, key, value) == Amend)
    ensures r.Ok? ==> (r.value.verb == Delete <==> Classify(current, key, value) == Wipe)
    // create: exactly {key: value}
    ensures Classify(current, key, value) == Create ==>
              r.Ok? && r.value.entry.Dict?
              && r.value.entry.entries.Keys == {key}
              && r.value.entry.entries[key] == Formatted(value, stringFormat, show)
    // merge into a dict: same keys, only `key` replaced
    ensures Classify(current, key, value) == MergeKey && current.Dict? ==>
              r.Ok? && r.value.entry.Dict?
              && r.value.entry.entries.Keys == current.entries.Keys
              && r.value.entry.entries[key] == Formatted(value, stringFormat, show)
              && (forall k :: k in current.entries && k != key ==>
                                r.value.entry.entries[k] == current.entries[k])
    // overwrite: the whole node becomes the value
    ensures Classify(current, key, value) == Overwrite ==>
              r.Ok? && r.value.entry == Formatted(value, stringFormat, show)
    // wipe: the mirror keeps the node, with None
    ensures Classify(current, key, value) == Wipe ==> r.Ok? && r.value.entry == Null
    // amend on a scalar: {node: old, key: value}, the new value winning when key == node
    ensures Classify(current, key, value) == Amend && !IsContainer(current) ==>
              r.Ok? && r.value.entry.Dict?
              && r.value.entry.entries.Keys == {node, key}
              && r.value.entry.entries[key] == Formatted(value, stringFormat, show)
              && (node != key ==> r.value.entry.entries[node] == current)
    // amend on a container without the key: exactly {key: value}, so every old key is dropped
    ensures Classify(current, key, value) == Amend && IsContainer(current) ==>
              r.Ok? && r.value.entry.Dict?
              && r.value.entry.entries.Keys == {key}
              && r.value.entry.entries[key] == Formatted(value, stringFormat, show)
              && (current.Dict? ==> current.entries.Keys !! r.value.entry.entries.Keys)
  {
    match Classify(current, key, value)
    case Create =>
      var created := Dict(map[key := Formatted(value, stringFormat, show)]);
      Ok(Write(Put, Some(created), created))
    case MergeKey =>
      if current.List? then Err(NotAMapping)
      else
        var merged := Dict(Unpack(current.entries, map[key := Formatted(value, stringFormat, show)]));
        Ok(Write(Put, Some(merged), merged))
    case Overwrite =>
      var replaced := Formatted(value, stringFormat, show);
      Ok(Write(Put, Some(replaced), replaced))
    case Wipe =>
      Ok(Write(Delete, None, Null))
    case Amend =>
      var newInfo := map[key := Formatted(value, stringFormat, show)];
      if !IsContainer(current) then
        var amended := Dict(Unpack(map[node := current], newInfo));
        Ok(Write(Patch, Some(amended), amended))
      else
        // the payload is the new pair alone and the mirror gets it merged with itself
        assert Unpack(newInfo, newInfo) == newInfo;
        Ok(Write(Patch, Some(Dict(newInfo)), Dict(Unpack(newInfo, newInfo))))
  }
}
