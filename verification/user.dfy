/** The user process of users/user.ts: the inbound `/message` handler and the
    `/sendMessage` handler, as transitions on the user's own state (the two
    "last message" fields). Network outcomes are parameters: the directory
    reply (`None` when the GET fails) and whether the POST to the entry node
    succeeds. */
module User {
  import opened Common
  import opened Registry
  import opened CircuitSelection
  import opened Onion

  datatype UserState = UserState(lastReceivedMessage: Option<string>, lastSentMessage: Option<string>)

  /** Both fields start out null. */
  const Initial := UserState(None, None)

  /** Number of relays `/sendMessage` asks `getRandomDistinctNodes` for. */
  const PATH_LENGTH := 3
  /** The entry node is reached at port `nodeId + 4000`. */
  const ENTRY_PORT_OFFSET := 4000

  datatype Reply = Reply(state: UserState, status: int)

  predicate IsTruthyMessage(message: Option<string>)
  {
    message.Some? && message.value != ""
  }

  /** `/message`: a truthy `message` becomes the last received message and is
      answered with 200; a missing or empty one is answered with 400 and
      leaves the state as it was. */
  function ReceiveMessage(s: UserState, message: Option<string>): (r: Reply)
    ensures r.status == OK <==> IsTruthyMessage(message)
    ensures r.status == OK || r.status == BAD_REQUEST
    ensures r.status == OK ==> r.state == UserState(message, s.lastSentMessage)
    ensures r.status == BAD_REQUEST ==> r.state == s
  {
    if IsTruthyMessage(message) then Reply(s.(lastReceivedMessage := message), OK)
    else Reply(s, BAD_REQUEST)
  }

  function ReceiveAll(s: UserState, messages: seq<Option<string>>): UserState
    decreases |messages|
  {
    if |messages| == 0 then s
    else ReceiveAll(ReceiveMessage(s, messages[0]).state, messages[1..])
  }

  /** The last truthy message of a sequence, if there is one. */
  function LastTruthy(messages: seq<Option<string>>): (r: Option<string>)
    ensures r.Some? ==>
      exists i :: 0 <= i < |messages| && messages[i] == r && IsTruthyMessage(messages[i])
                  && forall j :: i < j < |messages| ==> !IsTruthyMessage(messages[j])
    ensures r.None? ==> forall j :: 0 <= j < |messages| ==> !IsTruthyMessage(messages[j])
    decreases |messages|
  {
    if |messages| == 0 then None
    else if IsTruthyMessage(messages[|messages| - 1]) then messages[|messages| - 1]
    else LastTruthy(messages[..|messages| - 1])
  }

  /** After a run of inbound requests the user reports the last truthy
      message among them, or what it held before when there was none; the
      sent-message field is never touched. */
  lemma {:induction false} ReceiveAllKeepsLastTruthy(s: UserState, messages: seq<Option<string>>)
    ensures ReceiveAll(s, messages).lastReceivedMessage
            == (if LastTruthy(messages).Some? then LastTruthy(messages) else s.lastReceivedMessage)
    ensures ReceiveAll(s, messages).lastSentMessage == s.lastSentMessage
    decreases |messages|
  {
    if |messages| > 0 {
      var s' := ReceiveMessage(s, messages[0]).state;
      ReceiveAllKeepsLastTruthy(s', messages[1..]);
      LastTruthyOfCons(messages);
    }
  }

  /** From the startup state, the last received message is the last truthy
      inbound message, and nothing is received until one arrives. */
  lemma ReceivedFromStartup(messages: seq<Option<string>>)
    ensures ReceiveAll(Initial, messages).lastReceivedMessage == LastTruthy(messages)
    ensures ReceiveAll(Initial, messages).lastSentMessage.None?
  {
    ReceiveAllKeepsLastTruthy(Initial, messages);
  }

  lemma LastTruthyOfCons(messages: seq<Option<string>>)
    requires |messages| > 0
    ensures LastTruthy(messages)
            == if LastTruthy(messages[1..]).Some? then LastTruthy(messages[1..])
               else if IsTruthyMessage(messages[0]) then messages[0] else None
  {
  }

  // ---------------------------------------------------------------------------
  // /sendMessage
  // ---------------------------------------------------------------------------

  /** The POST to the entry node: its port and the onion it carries. */
  datatype Post = Post(port: int, message: string)

  datatype SendOutcome = SendOutcome(state: UserState, status: int, post: Option<Post>)

  /** The circuit `/sendMessage` builds from a directory listing. */
  function Circuit(nodes: seq<Node>, draws: seq<real>): seq<Node>
    requires ValidDraws(draws)
  {
    SelectedNodes(nodes, PATH_LENGTH, draws)
  }

  /** `/sendMessage`: fetch the directory, pick up to three distinct nodes,
      build the onion, POST it to the first node's port, and only then record
      the message as sent. Any failure is answered with 500 and leaves the
      state as it was; an empty directory fails when the code reads the
      `nodeId` of an entry node that does not exist. */
  function SendMessage(s: UserState, message: string, destinationUserId: int,
                       directory: Option<seq<Node>>, draws: seq<real>,
                       sym: SymmetricEncryptor, pub: PublicKeyEncryptor,
                       entryAccepts: bool): (r: SendOutcome)
    requires ValidDraws(draws)
    requires directory.Some? ==> OracleSuffices(|directory.value|, PATH_LENGTH, draws)
    ensures r.post.Some? <==> directory.Some? && |directory.value| > 0
    ensures r.status == OK <==> directory.Some? && |directory.value| > 0 && entryAccepts
    ensures r.status == OK || r.status == SERVER_ERROR
    ensures r.status == OK ==> r.state == UserState(s.lastReceivedMessage, Some(message))
    ensures r.status == SERVER_ERROR ==> r.state == s
    ensures r.post.Some? ==>
      var circuit := Circuit(directory.value, draws);
      && |circuit| == (if |directory.value| < PATH_LENGTH then |directory.value| else PATH_LENGTH)
      && r.post.value.port == circuit[0].nodeId + ENTRY_PORT_OFFSET
      && r.post.value.message == Render(BuildOnion(message, destinationUserId, circuit), sym, pub)
  {
    match directory
    case None => SendOutcome(s, SERVER_ERROR, None)
    case Some(nodes) =>
      var circuit := Circuit(nodes, draws);
      SelectedNodesShape(nodes, PATH_LENGTH, draws);
      if |circuit| == 0 then SendOutcome(s, SERVER_ERROR, None)
      else
        var post := Post(circuit[0].nodeId + ENTRY_PORT_OFFSET,
                         Render(BuildOnion(message, destinationUserId, circuit), sym, pub));
        if entryAccepts then SendOutcome(s.(lastSentMessage := Some(message)), OK, Some(post))
        else SendOutcome(s, SERVER_ERROR, Some(post))
  }

  /** The entry node is a node of the directory, and the circuit uses each
      directory position at most once. */
  lemma EntryNodeFromDirectory(nodes: seq<Node>, draws: seq<real>)
    requires ValidDraws(draws) && |Circuit(nodes, draws)| > 0
    ensures exists j :: 0 <= j < |nodes| && Circuit(nodes, draws)[0] == nodes[j]
    ensures Distinct(SelectedIndices(|nodes|, PATH_LENGTH, draws))
  {
    SelectedNodesShape(nodes, PATH_LENGTH, draws);
    var p := SelectedIndices(|nodes|, PATH_LENGTH, draws);
    assert Circuit(nodes, draws)[0] == nodes[p[0]];
  }

  /** Distinctness is by directory position, not by node id: two records
      registered under the same id can both join one circuit, so the same
      relay appears twice on the path. */
  lemma CircuitMayRepeatRelay()
    ensures
      var nodes := [Node(5, "a", "x"), Node(5, "b", "y")];
      var circuit := Circuit(nodes, [0.0, 0.75]);
      && |circuit| == 2
      && circuit[0] == nodes[0] && circuit[1] == nodes[1]
      && circuit[0].nodeId == circuit[1].nodeId
  {
    var nodes := [Node(5, "a", "x"), Node(5, "b", "y")];
    var draws := [0.0, 0.75];
    var ix := Indices(draws, 2);
    assert ix[0] == 0 && ix[1] == 1;
    assert ix == [0, 1];
    assert ix[..1] == [0];
    assert FirstOccurrences([0]) == [0];
    assert FirstOccurrences(ix) == [0, 1];
    assert SelectedIndices(2, PATH_LENGTH, draws) == [0, 1];
  }

  /** With the placeholder encryptors every send that reaches the entry node
      posts the same constant, whatever the message and destination. */
  lemma PlaceholderSendIsConstant(s: UserState, message: string, destinationUserId: int,
                                  nodes: seq<Node>, draws: seq<real>, entryAccepts: bool)
    requires ValidDraws(draws) && OracleSuffices(|nodes|, PATH_LENGTH, draws)
    requires |nodes| > 0
    ensures SendMessage(s, message, destinationUserId, Some(nodes), draws,
                        EncryptWithSymmetricKey, EncryptWithPublicKey, entryAccepts).post
            == Some(Post(Circuit(nodes, draws)[0].nodeId + ENTRY_PORT_OFFSET,
                         SYMMETRIC_PLACEHOLDER + PUBLIC_KEY_PLACEHOLDER))
  {
    var circuit := Circuit(nodes, draws);
    SelectedNodesShape(nodes, PATH_LENGTH, draws);
    PlaceholderOnionIsConstant(message, destinationUserId, circuit);
  }
}
