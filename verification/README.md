# Onion-routing sender and node directory, modelled in Dafny

This project models the logic core of a small onion-routing exercise written
in TypeScript: the node directory (`src/registry/registry.ts`) and the
sending user (`src/users/user.ts`). The directory keeps a list of node
records, appends validated registrations, lists them, and looks a node's key
up by id. The user picks up to three directory records at random, at distinct
positions in the listing (two records may still share a node id). It wraps
the message in one layer per picked record with a right-to-left fold. Each
layer is keyed with a decimal address zero-padded to at least ten characters.
The user posts the result to the entry relay, and separately stores inbound
messages.

Files and modules:

- `common.dfy` — `Common`: the HTTP status codes the handlers answer with
  (200, 201, 400, 404, 500), and `Option`, for JSON fields that may be missing, NaN and
  "not found".
- `js_text.dfy` — `JsText`: the JavaScript built-ins the core leans on:
  integer `toString`, `padStart`, `parseInt` with no radix, and
  `EncodeAddress(id) = id.toString().padStart(10, "0")`.
- `registry.dfy` — `Registry`: `/registerNode`, `/getNodeRegistry`,
  `/getPrivateKey/:nodeId` as pure transitions on a `seq<Node>`.
- `selection.dfy` — `CircuitSelection`: `getRandomDistinctNodes` as a method
  with loop invariants, checked against a reference selection.
- `onion.dfy` — `Onion`: `encryptAndForwardMessage` as a fold producing a
  symbolic `Ciphertext`; `Render` turns it into the string the code computes
  for any pair of encryptors; `Peel`/`PeelAll` take layers off again.
- `user.dfy` — `User`: the `/message` and `/sendMessage` handlers as
  transitions on the user's two "last message" fields.

Environment inputs become parameters:

- `Math.random` is a finite sequence of draws in [0, 1). Each index is
  `Floor(draw * nodes.length)`, as in the code.
- `crypto.randomBytes` for the directory's private key is a string argument
  of `RegisterNode`.
- The directory GET in `/sendMessage` is an `Option<seq<Node>>`, where `None`
  means the request failed.
- The outcome of the POST to the entry node is a `bool`.
- The two encryptors are function parameters. The source's placeholder
  bodies are given as `EncryptWithSymmetricKey` and `EncryptWithPublicKey`.

## Where the code departs from usual onion routing

The model follows the code. An onion-routing directory and sender are
normally expected to keep node ids unique and to refuse a circuit when fewer
than three relays are registered. Each layer is expected to carry the next
hop's address in front of its payload, the exit layer to name the
destination, and every layer to use a fresh symmetric key. The code does
otherwise in these places:

- **No duplicate check.** Registration rejects only falsy `nodeId` or
  `pubKey`. A second record with an existing id is appended, and the lookup
  keeps returning the first one (`Registry.DuplicateIdShadowed`). The id `0`
  can never register, because `0` is falsy.
- **A circuit can repeat a relay.** Selection keeps directory positions
  distinct, not node ids. Two records registered under one id can both be
  picked, so the same relay appears twice on the path
  (`User.CircuitMayRepeatRelay`).
- **No error for a small directory.** With fewer than three nodes, selection
  does not fail: it returns a shorter list, the onion gets one layer per
  picked node, and the send answers 200 if the entry node accepts the POST.
  Only an empty directory fails, and it fails with 500 because the
  code reads `nodeId` of an entry node that does not exist (`User.SendMessage`).
- **The addresses are shifted by one layer.** Layer 0 (the entry) gets the
  destination's address. Layer `i > 0` gets the address of node `i - 1`. So
  the exit layer names its predecessor rather than the destination
  (`Onion.PeelOnion`, `Onion.DestinationOnlyAtEntry`).
- **The address is the key.** The address is passed as the symmetric key
  argument; it is not prefixed to the payload. Each layer is the symmetric
  part followed by the public-key part. Both parts wrap the same previous
  value, and no fresh symmetric key is generated.
- **The placeholders make the onion constant.** With the source's
  encryptors, every non-empty circuit yields the constant
  `"Encrypted with symmetric key" + "Encrypted with RSA public key"`
  (`Onion.PlaceholderOnionIsConstant`, `User.PlaceholderSendIsConstant`).
- **The directory holds private keys.** It generates and serves them. The
  model keeps `privateKey` as an opaque field.

## Model

| member | source | states |
|---|---|---|
| JsText.EncodeAddressWidth | src/users/user.ts:99 | The padded address of an id is exactly 10 characters iff -10^9 < id < 10^10 (that is, -999999999 <= id <= 9999999999); it is never shorter. |
| JsText.EncodeAddressStrips | src/users/user.ts:99 | Dropping the leading zeros of an address gives back the id's decimal text. |
| JsText.EncodeAddressInjective | src/users/user.ts:99 | Two ids have the same address iff they are equal. |
| JsText.ParseAddress | src/users/user.ts:99 | `parseInt` reads the address of a non-negative id back to that id, so the padding loses nothing. |
| JsText.ParseIntRoundTrip | src/registry/registry.ts:51 | `parseInt(id.toString())` is `id` for every integer id. This is what lets a node look itself up by the decimal text of its id. |
| Registry.RegisterNode | src/registry/registry.ts:30-43 | A registration is accepted (201) iff `nodeId` and `pubKey` are both truthy. An accepted one appends exactly one record with the given fields and keeps all earlier records. A rejected one (400) leaves the directory unchanged. |
| Registry.FindIndex | src/registry/registry.ts:53 | Finds the first record whose id equals the parsed id. "Not found" means no record has it; a NaN id finds nothing. |
| Registry.GetPrivateKey | src/registry/registry.ts:50-59 | The reply is 200 iff the parsed path id belongs to some record, and it carries the key of the first such record. Otherwise the reply is 404 with no key. |
| Registry.ListingIsAcceptedInOrder | src/registry/registry.ts:37-47 | After any run of registrations, the listing is the earlier records followed by exactly the accepted requests' records, in arrival order. |
| Registry.ListingFromStartup | src/registry/registry.ts:20-47 | Starting from the empty directory, the listing after any run of registrations is exactly the accepted requests' records, in arrival order. |
| Registry.DuplicateIdAccepted | src/registry/registry.ts:33-38 | Registering an id that is already present is accepted, and the directory then holds two records with that id. |
| Registry.DuplicateIdShadowed | src/registry/registry.ts:38-56 | After a duplicate registration, looking up that id answers exactly as before, with the earlier record's key. |
| Registry.RegisterThenLookup | src/registry/registry.ts:37-56 | After registering a fresh id, looking up the decimal text of that id returns the key just stored. |
| CircuitSelection.FirstOccurrences | src/users/user.ts:84-88 | The kept indices are the drawn ones without repeats: none appears twice, an index is kept iff it was drawn, and of two kept indices the one first drawn earlier comes first. |
| CircuitSelection.FirstOccurrencesPrefix | src/users/user.ts:82-88 | Drawing more only appends: the indices kept from a prefix of the draws are a prefix of those kept from all of them. |
| CircuitSelection.GetRandomDistinctNodes | src/users/user.ts:78-91 | The method returns the reference selection: no index is used twice, and each result is the node at its index. The length is at most min(count, nodes.length), and equals it iff the draws contain that many distinct indices. |
| CircuitSelection.SelectedNodesShape | src/users/user.ts:82-90 | When the draws suffice there are exactly min(count, nodes.length) entries, so a directory smaller than `count` gives a shorter list instead of an error. The entries are directory nodes at distinct positions. |
| Onion.EncryptAndForwardMessage | src/users/user.ts:94-108 | The last-to-first loop computes the rendering of the symbolic onion for any pair of encryptors. An empty circuit returns the message unchanged. |
| Onion.Peel | src/users/user.ts:104 | A layer is recognised exactly when a symmetric part is followed by a public-key part over the same value, and peeling gives back those components. |
| Onion.PeelOnion | src/users/user.ts:95-107 | Peeling the onion meets exactly one layer per node, entry first. Layer i is under node i's public key and is keyed with the destination's address for i = 0 and node i-1's address otherwise. The message is left at the centre. |
| Onion.DestinationOnlyAtEntry | src/users/user.ts:99 | The destination's address keys the entry layer. A later layer, the exit included, carries it only if its predecessor node has the destination's id. |
| Onion.PlaceholderOnionIsConstant | src/users/user.ts:104-119 | With the placeholder encryptors, a non-empty circuit yields the fixed two-string constant whatever the message and destination. An empty circuit yields the message. |
| User.ReceiveMessage | src/users/user.ts:31-40 | The reply is 200 iff `message` is truthy, and then it becomes the last received message. Otherwise the reply is 400 and the state is unchanged. |
| User.ReceiveAllKeepsLastTruthy | src/users/user.ts:31-40 | After any run of inbound messages, the last received message is the last truthy one (or the earlier value if none was truthy), and the sent message is untouched. |
| User.ReceivedFromStartup | src/users/user.ts:11-40 | From the initial null state, the last received message after any run of inbound messages is the last truthy one (null if none was), and no message is recorded as sent. |
| User.SendMessage | src/users/user.ts:42-68 | The send succeeds (200) iff the directory answered with a non-empty list and the POST to the entry node succeeded. Only then is the message recorded as sent; any failure gives 500 with the state unchanged. The POST goes to port `circuit[0].nodeId + 4000` and carries the onion. The circuit has min(3, directory size) nodes. |
| User.EntryNodeFromDirectory | src/users/user.ts:51-54 | The entry node is a node of the directory, and the circuit uses each directory position at most once. |
| User.CircuitMayRepeatRelay | src/users/user.ts:82-88 | A directory holding two records with id 5 can yield a circuit through both, so the path passes the same relay id twice. |
| User.PlaceholderSendIsConstant | src/users/user.ts:55-58 | With the placeholder encryptors, every send to a non-empty directory posts the same constant to the entry node's port. |

## Left out

- CircuitSelection.GetRandomDistinctNodes: the draws are a finite sequence, so the loop also stops when they run out. The source keeps calling `Math.random` until its own exit test holds. The contract says exactly when the result falls short because of this.
- User.SendMessage: requires the draws to contain enough distinct indices for selection to reach its own exit test. This stands in for the source's unbounded `Math.random` loop.
- JsText.ParseIntRoundTrip: integers only. Ids above 2^53 (where a JavaScript number loses precision) and non-integer numbers are not modelled.
- JsText.EncodeAddressWidth: integer ids only. JavaScript writes numbers of 10^21 or more in exponent notation, and that notation is not modelled.
- Request bodies: only missing fields and values of the declared type are modelled. A `nodeId` that is a string or a fraction, a non-string `message`, and a missing `message` or `destinationUserId` in `/sendMessage` are not.
- Module-level state: the source keeps `lastReceivedMessage` and `lastSentMessage` in process-wide variables. They are modelled as one value per user. Interleaving of concurrent requests around `await` points is not modelled.
- User.SendMessage: `entryAccepts`, the outcome of the POST to the entry node's `/message`, is an unconstrained argument. The only relay in the repository (`src/onionRouters/simpleOnionRouter.ts`) registers no `/message` route, so against it that POST would fail; the model does not tie the argument to any relay.
- Encryptor failures: the encryptors are total functions. A rejected promise from a real encryptor would give the same 500 path as any other error.
- `src/crypto.ts` (RSA-OAEP and AES-CBC wrappers over webcrypto, with a 16-byte IV prefix): these are foreign cryptographic primitives, so they appear only as the abstract encryptor parameters.
- `src/onionRouters/simpleOnionRouter.ts`: it has status getters and a registration POST, but no handler that peels or forwards a layer. The relay side of the protocol is therefore not modelled, and neither is a peel round trip at a relay.
- The `/status` routes, the `getLast…` getters, `listen`, logging, and port arithmetic other than `nodeId + 4000`: these are transport plumbing. The getters only read the modelled state fields.
- The random private key is generated with `crypto.randomBytes`, a random foreign call. It is passed in as a parameter.
