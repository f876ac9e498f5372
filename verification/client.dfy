/** The client operations: the status dispatch of `getValue`, the write
    path `setValue` over the local mirror, and the existence guards built on
    them. A client instance is reduced to its local mirror; the remote store
    is consulted through an `Env`. */
module Client {
  import opened Values
  import opened Wire
  import opened Reconcile

  /** The local mirror: node name to the value last written through this client. */
  type Mirror = map<string, Value>

  /** The effect of a call that returned: the new mirror, the write request
      sent (if any) and the boolean the call returned. */
  datatype Effect = Effect(mirror: Mirror, sent: Option<Request>, ok: bool)

  /** A call that returns False without touching anything. */
  function Refused(mirror: Mirror): (e: Effect)
  {
    Effect(mirror, None, false)
  }

  /** `getValue(node, key, False)`: a 200 answer yields its decoded body, a
      401 raises the authentication error and any other status a generic
      read error, both naming the node and key. */
  function GetValue(node: string, key: string, response: Response): (r: Result<Value, Failure>)
    ensures r.Ok? <==> response.status == 200
    ensures r.Ok? ==> r.value == response.body
    ensures r.Err? ==> r.error.Unauthorized? || r.error.ReadFailed?
    ensures r.Err? ==> r.error.node == node && r.error.key == key
    // an authentication failure is distinguishable from every other failure
    ensures r.Err? ==> (r.error.Unauthorized? <==> response.status == 401)
    ensures r.Err? && r.error.ReadFailed? ==> r.error.status == response.status
  {
    if response.status == 200 then Ok(response.body)
    else if response.status == 401 then Err(Unauthorized(node, key))
    else Err(ReadFailed(node, key, response.status))
  }

  /** The node's current value, read as `setValue` and the guards read it. */
  function ReadNode(node: string, env: Env): (r: Result<Value, Failure>)
  {
    GetValue(node, "", env.read(node, ""))
  }

  /** `setValue(node, key, value, stringFormat)`. */
  function SetValue(mirror: Mirror, node: string, key: string, value: Value,
                    stringFormat: bool, env: Env): (r: Result<Effect, Failure>)
    // no node name: False, no request, mirror untouched
    ensures node == "" ==> r == Ok(Refused(mirror))
    // a failed read propagates before anything is written
    ensures node != "" && env.read(node, "").status != 200 ==>
              r.Err? && (r.error.Unauthorized? <==> env.read(node, "").status == 401)
    // and it is getValue's error for the node and the empty key
    ensures node != "" && env.read(node, "").status != 200 ==> r == Err(ReadNode(node, env).error)
    // a merge into a list raises the TypeError
    ensures node != "" && env.read(node, "").status == 200
            && Plan(node, key, value, stringFormat, env.show, env.read(node, "").body).Err? ==>
              r == Err(NotAMapping)
    // a named write raises exactly when the read fails or the merge path meets a list
    ensures r.Err? <==> node != "" && (env.read(node, "").status != 200
                                       || Plan(node, key, value, stringFormat, env.show, env.read(node, "").body).Err?)
    // a named write sends the request of the path `Plan` chooses and records that path's entry
    ensures r.Ok? && node != "" ==>
              var p := Plan(node, key, value, stringFormat, env.show, env.read(node, "").body);
              p.Ok? && r.value.sent == Some(Request(p.value.verb, node, p.value.payload))
              && node in r.value.mirror && r.value.mirror[node] == p.value.entry
    // exactly one request per call that gets past the name check
    ensures r.Ok? ==> (r.value.sent.Some? <==> node != "")
    ensures r.Ok? && r.value.sent.Some? ==> r.value.sent.value.node == node
    // True iff the write was answered 200
    ensures r.Ok? ==> (r.value.ok <==> r.value.sent.Some? && env.status(r.value.sent.value) == 200)
    // only the node's entry changes, and it is kept even after a wipe
    ensures r.Ok? ==> r.value.mirror.Keys == mirror.Keys + (if node == "" then {} else {node})
    ensures r.Ok? ==> forall n :: n in mirror && n != node ==> r.value.mirror[n] == mirror[n]
    // the new entry is what was sent, or None after a DELETE
    ensures r.Ok? && r.value.sent.Some? ==>
              if r.value.sent.value.verb == Delete
              then r.value.sent.value.payload == None && r.value.mirror[node] == Null
              else r.value.sent.value.payload == Some(r.value.mirror[node])
  {
    if node == "" then Ok(Refused(mirror))
    else
      match ReadNode(node, env)
      case Err(e) => Err(e)
      case Ok(current) =>
        match Plan(node, key, value, stringFormat, env.show, current)
        case Err(e) => Err(e)
        case Ok(w) =>
          var request := Request(w.verb, node, w.payload);
          Ok(Effect(mirror[node := w.entry], Some(request), env.status(request) == 200))
  }

  /** The mirror entry is written before the request is sent: what the
      remote answers the write changes only the returned boolean. */
  lemma MirrorIsWrittenWhateverTheStatus(mirror: Mirror, node: string, key: string, value: Value,
                                         stringFormat: bool, env: Env, env': Env)
    requires env'.read == env.read && env'.show == env.show
    ensures var r := SetValue(mirror, node, key, value, stringFormat, env);
            var r' := SetValue(mirror, node, key, value, stringFormat, env');
            r.Ok? <==> r'.Ok?
    ensures var r := SetValue(mirror, node, key, value, stringFormat, env);
            var r' := SetValue(mirror, node, key, value, stringFormat, env');
            r.Ok? ==> r.value.mirror == r'.value.mirror && r.value.sent == r'.value.sent
  {
  }

  /** `createNode(node, key, value)`: only a falsy node is created, with
      `value or 'Value'` and no string formatting. */
  function CreateNode(mirror: Mirror, node: string, key: string, value: Value, env: Env): (r: Result<Effect, Failure>)
    ensures ReadNode(node, env).Err? ==> r == Err(ReadNode(node, env).error)
    ensures ReadNode(node, env).Ok? && Truthy(ReadNode(node, env).value) ==> r == Ok(Refused(mirror))
    ensures ReadNode(node, env).Ok? && !Truthy(ReadNode(node, env).value) ==>
              r == SetValue(mirror, node, key, Or(value, Str("Value")), false, env)
    // with a key, a missing node always takes the create path: a PUT of {key: value or 'Value'}
    ensures ReadNode(node, env).Ok? && !Truthy(ReadNode(node, env).value) && node != "" && key != "" ==>
              var created := Dict(map[key := Or(value, Str("Value"))]);
              r.Ok? && r.value.sent == Some(Request(Put, node, Some(created)))
              && r.value.mirror[node] == created
    // without a key, the missing node is overwritten by `value or 'Value'`
    ensures ReadNode(node, env).Ok? && !Truthy(ReadNode(node, env).value) && node != "" && key == "" ==>
              r.Ok? && r.value.sent == Some(Request(Put, node, Some(Or(value, Str("Value")))))
  {
    match ReadNode(node, env)
    case Err(e) => Err(e)
    case Ok(current) =>
      if !Truthy(current) then SetValue(mirror, node, key, Or(value, Str("Value")), false, env)
      else Ok(Refused(mirror))
  }

  /** `removeValue(node, key)`: only a truthy value at `node/key` is removed,
      by writing None under the key. */
  function RemoveValue(mirror: Mirror, node: string, key: string, env: Env): (r: Result<Effect, Failure>)
    ensures GetValue(node, key, env.read(node, key)).Err? ==>
              r == Err(GetValue(node, key, env.read(node, key)).error)
    ensures GetValue(node, key, env.read(node, key)).Ok? && !Truthy(env.read(node, key).body) ==>
              r == Ok(Refused(mirror))
    ensures GetValue(node, key, env.read(node, key)).Ok? && Truthy(env.read(node, key).body) ==>
              r == SetValue(mirror, node, key, Null, false, env)
    // what is recorded is `key: None`, or the whole node wiped when there is no key
    ensures r.Ok? && r.value.sent.Some? ==>
              (r.value.sent.value.verb == Delete && key == "" && r.value.mirror[node] == Null)
              || (r.value.mirror[node].Dict? && key in r.value.mirror[node].entries
                  && r.value.mirror[node].entries[key] == Null)
  {
    match GetValue(node, key, env.read(node, key))
    case Err(e) => Err(e)
    case Ok(current) =>
      if Truthy(current) then SetValue(mirror, node, key, Null, false, env)
      else Ok(Refused(mirror))
  }

  /** A node `removeNode` deletes outright: named, readable, truthy, and not
      a container that holds the empty key (which would be merged into instead). */
  predicate Wipeable(node: string, env: Env)
  {
    var response := env.read(node, "");
    node != "" && response.status == 200 && Truthy(response.body)
    && !(IsContainer(response.body) && Contains(response.body, ""))
  }

  /** `removeNode(node)`: only a truthy node is removed, through
      `removeValue(node, '')`. */
  function RemoveNode(mirror: Mirror, node: string, env: Env): (r: Result<Effect, Failure>)
    ensures ReadNode(node, env).Err? ==> r == Err(ReadNode(node, env).error)
    ensures ReadNode(node, env).Ok? && !Truthy(ReadNode(node, env).value) ==> r == Ok(Refused(mirror))
    ensures ReadNode(node, env).Ok? && Truthy(ReadNode(node, env).value) ==>
              r == SetValue(mirror, node, "", Null, false, env)
    // a wipeable node is deleted, and the mirror keeps its name with None
    ensures Wipeable(node, env) ==>
              r.Ok? && r.value.sent == Some(Request(Delete, node, None))
              && node in r.value.mirror && r.value.mirror[node] == Null
              && (r.value.ok <==> env.status(Request(Delete, node, None)) == 200)
  {
    match ReadNode(node, env)
    case Err(e) => Err(e)
    case Ok(current) =>
      if Truthy(current) then RemoveValue(mirror, node, "", env)
      else Ok(Refused(mirror))
  }

  /** `overwriteNode(node, value, stringFormat)`: only a truthy node is
      overwritten, through `setValue(node, '', value, stringFormat)`. */
  function OverwriteNode(mirror: Mirror, node: string, value: Value, stringFormat: bool, env: Env): (r: Result<Effect, Failure>)
    ensures ReadNode(node, env).Err? ==> r == Err(ReadNode(node, env).error)
    ensures ReadNode(node, env).Ok? && !Truthy(ReadNode(node, env).value) ==> r == Ok(Refused(mirror))
    ensures ReadNode(node, env).Ok? && Truthy(ReadNode(node, env).value) ==>
              r == SetValue(mirror, node, "", value, stringFormat, env)
    // a truthy value replaces the node wholesale, unless the node holds the empty key
    ensures node != "" && ReadNode(node, env).Ok? && Truthy(ReadNode(node, env).value) && Truthy(value)
            && !Contains(ReadNode(node, env).value, "") ==>
              var replaced := Formatted(value, stringFormat, env.show);
              r.Ok? && r.value.sent == Some(Request(Put, node, Some(replaced)))
              && r.value.mirror[node] == replaced
    // overwriting with None deletes the node
    ensures Wipeable(node, env) && value == Null ==>
              r.Ok? && r.value.sent == Some(Request(Delete, node, None))
  {
    match ReadNode(node, env)
    case Err(e) => Err(e)
    case Ok(current) =>
      if Truthy(current) then SetValue(mirror, node, "", value, stringFormat, env)
      else Ok(Refused(mirror))
  }

  /** `getNode(node, False)`: the node's value when it is truthy, and False
      otherwise. */
  function GetNode(node: string, env: Env): (r: Result<Value, Failure>)
    ensures r.Err? <==> env.read(node, "").status != 200
    ensures r.Err? ==> (r.error.Unauthorized? <==> env.read(node, "").status == 401)
    // a failed read raises getValue's error for the node and the empty key
    ensures r.Err? ==> r == Err(ReadNode(node, env).error)
    ensures r.Ok? && Truthy(env.read(node, "").body) ==> r.value == env.read(node, "").body
    // an absent node and a node holding a falsy value both come back as False
    ensures r.Ok? && !Truthy(env.read(node, "").body) ==> r.value == Bool(false)
  {
    match ReadNode(node, env)
    case Err(e) => Err(e)
    case Ok(current) =>
      if Truthy(current) then ReadNode(node, env)
      else Ok(Bool(false))
  }
}
