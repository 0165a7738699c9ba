/** Onion construction (`encryptAndForwardMessage` in users/user.ts): a
    right-to-left fold over the circuit that wraps the running message once
    per node. The two encryptors are parameters, so the fold's structure is
    stated for every choice of them; the onion is first built as a symbolic
    term and `Render` turns it into the string the code computes. */
module Onion {
  import opened Common
  import opened JsText
  import opened Registry

  /** `encryptWithSymmetricKey(message, key)`. */
  type SymmetricEncryptor = (string, string) -> string
  /** `encryptWithPublicKey(publicKey, message)`. */
  type PublicKeyEncryptor = (string, string) -> string

  /** A symbolic ciphertext: which encryptor was applied to what, and how the
      parts were concatenated. The key of a symmetric part is always a node
      address, so the term records the id whose address it is. */
  datatype Ciphertext =
    | Plain(text: string)
    | SymmetricPart(payload: Ciphertext, keyAddressId: int)
    | PublicKeyPart(publicKey: string, payload: Ciphertext)
    | Concat(left: Ciphertext, right: Ciphertext)

  function Render(c: Ciphertext, sym: SymmetricEncryptor, pub: PublicKeyEncryptor): string
  {
    match c
    case Plain(t) => t
    case SymmetricPart(p, id) => sym(Render(p, sym, pub), EncodeAddress(id))
    case PublicKeyPart(pk, p) => pub(pk, Render(p, sym, pub))
    case Concat(l, r) => Render(l, sym, pub) + Render(r, sym, pub)
  }

  /** The id whose address the code hands to layer `i`: the destination's
      for `i = 0`, otherwise that of the node before `i` in the circuit. */
  function LayerAddressId(destination: int, circuit: seq<Node>, i: nat): int
    requires i < |circuit|
  {
    if i == 0 then destination else circuit[i - 1].nodeId
  }

  /** The running value once nodes `i..` have been processed by the loop. */
  function OnionFrom(message: string, destination: int, circuit: seq<Node>, i: nat): Ciphertext
    requires i <= |circuit|
    decreases |circuit| - i
  {
    if i == |circuit| then Plain(message)
    else
      var inner := OnionFrom(message, destination, circuit, i + 1);
      Concat(SymmetricPart(inner, LayerAddressId(destination, circuit, i)),
             PublicKeyPart(circuit[i].pubKey, inner))
  }

  function BuildOnion(message: string, destination: int, circuit: seq<Node>): Ciphertext
  {
    OnionFrom(message, destination, circuit, 0)
  }

  /** One step of the fold, rendered: symmetric part first, then public-key
      part, both over the rendering of the inner value. */
  lemma RenderLayer(message: string, destination: int, circuit: seq<Node>, i: nat,
                    sym: SymmetricEncryptor, pub: PublicKeyEncryptor)
    requires i < |circuit|
    ensures Render(OnionFrom(message, destination, circuit, i), sym, pub)
            == var inner := Render(OnionFrom(message, destination, circuit, i + 1), sym, pub);
               sym(inner, EncodeAddress(LayerAddressId(destination, circuit, i)))
               + pub(circuit[i].pubKey, inner)
  {
  }

  /** The loop of `encryptAndForwardMessage`, from the last node down to the
      first; each step sets the message to symmetric part followed by
      public-key part, both computed from the previous message. */
  method EncryptAndForwardMessage(message: string, destination: int, circuit: seq<Node>,
                                  sym: SymmetricEncryptor, pub: PublicKeyEncryptor)
    returns (encrypted: string)
    ensures encrypted == Render(BuildOnion(message, destination, circuit), sym, pub)
    ensures |circuit| == 0 ==> encrypted == message
  {
    encrypted := message;
    var i := |circuit| - 1;
    while i >= 0
      invariant -1 <= i < |circuit|
      invariant encrypted == Render(OnionFrom(message, destination, circuit, i + 1), sym, pub)
    {
      var currentNode := circuit[i];
      var nextId := if i == 0 then destination else circuit[i - 1].nodeId;
      var nextNode := EncodeAddress(nextId);
      RenderLayer(message, destination, circuit, i, sym, pub);
      encrypted := sym(encrypted, nextNode) + pub(currentNode.pubKey, encrypted);
      i := i - 1;
    }
  }

  // ---------------------------------------------------------------------------
  // Peeling: the inverse of one layer
  // ---------------------------------------------------------------------------

  /** What a layer exposes: the address id keying the symmetric part, the
      public key of the public-key part, and the value both parts wrap. */
  datatype Layer = Layer(addressId: int, publicKey: string, inner: Ciphertext)

  /** Recognises one layer: a symmetric part followed by a public-key part
      that wrap the same value. */
  function Peel(c: Ciphertext): (r: Option<Layer>)
    ensures r.Some? <==> c.Concat? && c.left.SymmetricPart? && c.right.PublicKeyPart?
                         && c.left.payload == c.right.payload
    ensures r.Some? ==> c == Concat(SymmetricPart(r.value.inner, r.value.addressId),
                                    PublicKeyPart(r.value.publicKey, r.value.inner))
  {
    match c
    case Concat(SymmetricPart(p, a), PublicKeyPart(pk, q)) =>
      if p == q then Some(Layer(a, pk, p)) else None
    case _ => None
  }

  datatype Peeled = Peeled(addressIds: seq<int>, publicKeys: seq<string>, core: Ciphertext)

  /** Peels layers off until none is left, collecting each layer's address
      id and public key from the outside in. */
  function PeelAll(c: Ciphertext): (r: Peeled)
    ensures |r.addressIds| == |r.publicKeys|
    ensures Peel(r.core).None?
  {
    match Peel(c)
    case Some(l) =>
      var rest := PeelAll(l.inner);
      Peeled([l.addressId] + rest.addressIds, [l.publicKey] + rest.publicKeys, rest.core)
    case None => Peeled([], [], c)
  }

  /** The address ids of a circuit's layers, entry layer first: the
      destination, then the ids of every node but the last. */
  function CircuitAddressIds(destination: int, circuit: seq<Node>): (a: seq<int>)
    ensures |a| == |circuit|
  {
    if |circuit| == 0 then []
    else [destination] + seq(|circuit| - 1, j requires 0 <= j < |circuit| - 1 => circuit[j].nodeId)
  }

  function PublicKeys(circuit: seq<Node>): (k: seq<string>)
    ensures |k| == |circuit|
  {
    seq(|circuit|, j requires 0 <= j < |circuit| => circuit[j].pubKey)
  }

  lemma {:induction false} PeelFrom(message: string, destination: int, circuit: seq<Node>, i: nat)
    requires i <= |circuit|
    ensures PeelAll(OnionFrom(message, destination, circuit, i))
            == Peeled(CircuitAddressIds(destination, circuit)[i..], PublicKeys(circuit)[i..], Plain(message))
    decreases |circuit| - i
  {
    var a := CircuitAddressIds(destination, circuit);
    var k := PublicKeys(circuit);
    if i < |circuit| {
      PeelFrom(message, destination, circuit, i + 1);
      assert a[i] == LayerAddressId(destination, circuit, i);
      assert a[i..] == [a[i]] + a[i + 1..];
      assert k[i..] == [k[i]] + k[i + 1..];
    } else {
      assert a[i..] == [] && k[i..] == [];
    }
  }

  /** Peeling the onion layer by layer meets exactly one layer per node, in
      circuit order: layer `i` is under `circuit[i].pubKey`, and its
      symmetric key is the address of the destination for `i = 0` and of
      `circuit[i-1]` otherwise; what is left at the centre is the message. */
  lemma PeelOnion(message: string, destination: int, circuit: seq<Node>)
    ensures PeelAll(BuildOnion(message, destination, circuit))
            == Peeled(CircuitAddressIds(destination, circuit), PublicKeys(circuit), Plain(message))
  {
    PeelFrom(message, destination, circuit, 0);
  }

  /** The destination is bound to the entry layer, and every later layer
      (the exit layer included) names the node just before it: a layer other
      than the entry is keyed with the destination's address only if its
      predecessor node has the destination's id. */
  lemma DestinationOnlyAtEntry(message: string, destination: int, circuit: seq<Node>, i: nat)
    requires 0 < i < |circuit|
    ensures
      var p := PeelAll(BuildOnion(message, destination, circuit));
      && |p.addressIds| == |circuit|
      && p.addressIds[0] == destination
      && p.addressIds[i] == circuit[i - 1].nodeId
      && (EncodeAddress(p.addressIds[i]) == EncodeAddress(destination) <==> circuit[i - 1].nodeId == destination)
  {
    PeelOnion(message, destination, circuit);
    EncodeAddressInjective(circuit[i - 1].nodeId, destination);
  }

  // ---------------------------------------------------------------------------
  // The placeholder encryptors of the source
  // ---------------------------------------------------------------------------

  const SYMMETRIC_PLACEHOLDER := "Encrypted with symmetric key"
  const PUBLIC_KEY_PLACEHOLDER := "Encrypted with RSA public key"

  function EncryptWithSymmetricKey(message: string, key: string): string
  {
    SYMMETRIC_PLACEHOLDER
  }

  function EncryptWithPublicKey(publicKey: string, message: string): string
  {
    PUBLIC_KEY_PLACEHOLDER
  }

  /** With the placeholders in place every non-empty circuit yields the same
      constant, whatever the message and destination; the empty circuit
      yields the message. */
  lemma PlaceholderOnionIsConstant(message: string, destination: int, circuit: seq<Node>)
    ensures |circuit| > 0 ==>
      Render(BuildOnion(message, destination, circuit), EncryptWithSymmetricKey, EncryptWithPublicKey)
      == SYMMETRIC_PLACEHOLDER + PUBLIC_KEY_PLACEHOLDER
    ensures |circuit| == 0 ==>
      Render(BuildOnion(message, destination, circuit), EncryptWithSymmetricKey, EncryptWithPublicKey) == message
  {
  }
}
