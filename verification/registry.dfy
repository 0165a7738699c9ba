/** The node directory of registry.ts: an in-memory list of node records with
    a validated append (`/registerNode`), a full listing (`/getNodeRegistry`)
    and a first-match lookup (`/getPrivateKey/:nodeId`). Each handler is a
    pure transition on the registry value. */
module Registry {
  import opened Common
  import opened JsText

  /** A directory record. `privateKey` is the base64 text of 32 random bytes
      drawn when the node registers; here it is an opaque string supplied by
      the caller of `RegisterNode`. */
  datatype Node = Node(nodeId: int, pubKey: string, privateKey: string)

  /** The fields of a `/registerNode` body; a field the JSON omits is `None`. */
  datatype RegisterNodeBody = RegisterNodeBody(nodeId: Option<int>, pubKey: Option<string>)

  datatype Registry = Registry(nodes: seq<Node>)

  /** The directory at startup: no records. */
  const Empty := Registry([])

  /** JavaScript truthiness of the two fields: a missing field, the number 0
      and the empty string are falsy. */
  predicate IsTruthyId(id: Option<int>)
  {
    id.Some? && id.value != 0
  }

  predicate IsTruthyText(s: Option<string>)
  {
    s.Some? && s.value != ""
  }

  predicate ValidRegistration(body: RegisterNodeBody)
  {
    IsTruthyId(body.nodeId) && IsTruthyText(body.pubKey)
  }

  datatype Registered = Registered(registry: Registry, status: int)

  /** `/registerNode`: a body with a truthy `nodeId` and `pubKey` appends one
      record and answers 201; anything else answers 400 and changes nothing.
      There is no check for an id that is already registered. */
  function RegisterNode(reg: Registry, body: RegisterNodeBody, privateKey: string): (r: Registered)
    ensures r.status == CREATED <==> ValidRegistration(body)
    ensures r.status == CREATED || r.status == BAD_REQUEST
    ensures r.status == CREATED ==>
      && |r.registry.nodes| == |reg.nodes| + 1
      && r.registry.nodes[..|reg.nodes|] == reg.nodes
      && r.registry.nodes[|reg.nodes|] == Node(body.nodeId.value, body.pubKey.value, privateKey)
    ensures r.status == BAD_REQUEST ==> r.registry == reg
  {
    if ValidRegistration(body) then
      Registered(Registry(reg.nodes + [Node(body.nodeId.value, body.pubKey.value, privateKey)]), CREATED)
    else
      Registered(reg, BAD_REQUEST)
  }

  /** `/getNodeRegistry`: every record, in registration order. */
  function GetNodeRegistry(reg: Registry): seq<Node>
  {
    reg.nodes
  }

  /** `Array.prototype.find` on `nodeId === id`: the index of the first
      record with that id. A NaN id (`None`) matches nothing. */
  function FindIndex(nodes: seq<Node>, id: Option<int>): (r: Option<nat>)
    ensures r.Some? ==> r.value < |nodes| && id.Some? && nodes[r.value].nodeId == id.value
    ensures r.Some? ==> forall j :: 0 <= j < r.value ==> nodes[j].nodeId != id.value
    ensures r.None? ==> forall j :: 0 <= j < |nodes| ==> id.None? || nodes[j].nodeId != id.value
  {
    if id.None? || |nodes| == 0 then None
    else if nodes[0].nodeId == id.value then Some(0)
    else match FindIndex(nodes[1..], id)
      case None => None
      case Some(k) => Some(k + 1)
  }

  predicate HasId(nodes: seq<Node>, id: int)
  {
    exists j :: 0 <= j < |nodes| && nodes[j].nodeId == id
  }

  datatype KeyReply = KeyReply(status: int, privateKey: Option<string>)

  /** `/getPrivateKey/:nodeId`: the path segment goes through `parseInt`; the
      first record with that id yields its private key with 200, otherwise
      404. */
  function GetPrivateKey(reg: Registry, param: string): (r: KeyReply)
    ensures r.status == OK <==> ParseInt(param).Some? && HasId(reg.nodes, ParseInt(param).value)
    ensures r.status == OK || r.status == NOT_FOUND
    ensures r.status == OK ==>
      exists j :: 0 <= j < |reg.nodes|
        && reg.nodes[j].nodeId == ParseInt(param).value
        && (forall i :: 0 <= i < j ==> reg.nodes[i].nodeId != reg.nodes[j].nodeId)
        && r.privateKey == Some(reg.nodes[j].privateKey)
    ensures r.status == NOT_FOUND ==> r.privateKey.None?
  {
    match FindIndex(reg.nodes, ParseInt(param))
    case Some(j) => KeyReply(OK, Some(reg.nodes[j].privateKey))
    case None => KeyReply(NOT_FOUND, None)
  }

  // ---------------------------------------------------------------------------
  // Sequences of registrations
  // ---------------------------------------------------------------------------

  /** One `/registerNode` request together with the random key drawn for it. */
  datatype Registration = Registration(body: RegisterNodeBody, privateKey: string)

  function RegisterAll(reg: Registry, reqs: seq<Registration>): Registry
    decreases |reqs|
  {
    if |reqs| == 0 then reg
    else RegisterAll(RegisterNode(reg, reqs[0].body, reqs[0].privateKey).registry, reqs[1..])
  }

  /** The records the accepted requests describe, in request order. */
  function AcceptedNodes(reqs: seq<Registration>): seq<Node>
    decreases |reqs|
  {
    if |reqs| == 0 then []
    else
      var rest := AcceptedNodes(reqs[1..]);
      var b := reqs[0].body;
      if ValidRegistration(b) then [Node(b.nodeId.value, b.pubKey.value, reqs[0].privateKey)] + rest
      else rest
  }

  /** After any sequence of requests the listing is the earlier records
      followed by exactly the accepted ones, in the order they arrived. */
  lemma {:induction false} ListingIsAcceptedInOrder(reg: Registry, reqs: seq<Registration>)
    ensures GetNodeRegistry(RegisterAll(reg, reqs)) == reg.nodes + AcceptedNodes(reqs)
    decreases |reqs|
  {
    if |reqs| > 0 {
      var next := RegisterNode(reg, reqs[0].body, reqs[0].privateKey).registry;
      ListingIsAcceptedInOrder(next, reqs[1..]);
      assert RegisterAll(reg, reqs) == RegisterAll(next, reqs[1..]);
      if ValidRegistration(reqs[0].body) {
        var n := Node(reqs[0].body.nodeId.value, reqs[0].body.pubKey.value, reqs[0].privateKey);
        assert next.nodes == reg.nodes + [n];
        assert AcceptedNodes(reqs) == [n] + AcceptedNodes(reqs[1..]);
        assert reg.nodes + AcceptedNodes(reqs) == (reg.nodes + [n]) + AcceptedNodes(reqs[1..]);
      } else {
        assert next == reg;
      }
    }
  }

  /** From the startup state the listing is exactly the accepted requests'
      records, in arrival order. */
  lemma ListingFromStartup(reqs: seq<Registration>)
    ensures GetNodeRegistry(RegisterAll(Empty, reqs)) == AcceptedNodes(reqs)
  {
    ListingIsAcceptedInOrder(Empty, reqs);
  }

  /** Registering an id that is already present is accepted, and the
      directory then holds two records with that id. */
  lemma DuplicateIdAccepted(reg: Registry, pubKey: string, privateKey: string, j: nat)
    requires j < |reg.nodes| && reg.nodes[j].nodeId != 0 && pubKey != ""
    ensures
      var r := RegisterNode(reg, RegisterNodeBody(Some(reg.nodes[j].nodeId), Some(pubKey)), privateKey);
      && r.status == CREATED
      && |r.registry.nodes| == |reg.nodes| + 1
      && r.registry.nodes[j].nodeId == r.registry.nodes[|reg.nodes|].nodeId
  {
  }

  /** A duplicate registration is never served: the lookup by that id
      answers exactly as it did before, with the earlier record's key. */
  lemma DuplicateIdShadowed(reg: Registry, pubKey: string, privateKey: string, j: nat)
    requires j < |reg.nodes| && reg.nodes[j].nodeId != 0 && pubKey != ""
    ensures
      var after := RegisterNode(reg, RegisterNodeBody(Some(reg.nodes[j].nodeId), Some(pubKey)), privateKey).registry;
      GetPrivateKey(after, IntToString(reg.nodes[j].nodeId)) == GetPrivateKey(reg, IntToString(reg.nodes[j].nodeId))
  {
    var id := reg.nodes[j].nodeId;
    var extra := Node(id, pubKey, privateKey);
    ParseIntRoundTrip(id);
    assert FindIndex(reg.nodes, Some(id)).Some?;
    FindIndexExtend(reg.nodes, extra, Some(id));
    assert RegisterNode(reg, RegisterNodeBody(Some(id), Some(pubKey)), privateKey).registry.nodes == reg.nodes + [extra];
  }

  /** Appending a record does not change a lookup that already succeeds. */
  lemma {:induction false} FindIndexExtend(nodes: seq<Node>, extra: Node, id: Option<int>)
    requires FindIndex(nodes, id).Some?
    ensures FindIndex(nodes + [extra], id) == FindIndex(nodes, id)
  {
    if nodes[0].nodeId != id.value {
      assert (nodes + [extra])[1..] == nodes[1..] + [extra];
      FindIndexExtend(nodes[1..], extra, id);
    }
  }

  /** A node that registers under a fresh id can then fetch its key by the
      decimal text of its id. */
  lemma RegisterThenLookup(reg: Registry, body: RegisterNodeBody, privateKey: string)
    requires ValidRegistration(body)
    requires !HasId(reg.nodes, body.nodeId.value)
    ensures GetPrivateKey(RegisterNode(reg, body, privateKey).registry, IntToString(body.nodeId.value))
            == KeyReply(OK, Some(privateKey))
  {
    var r := RegisterNode(reg, body, privateKey).registry;
    ParseIntRoundTrip(body.nodeId.value);
    assert r.nodes[|reg.nodes|].nodeId == body.nodeId.value;
    var k := FindIndex(r.nodes, Some(body.nodeId.value));
    assert k.Some?;
  }
}
