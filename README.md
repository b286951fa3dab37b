# n2p signed notes and local reconciliation, in Dafny

n2p lets peers write short notes in named topics, sign them, and gossip them
to each other. Each peer folds the notes it sees into a local model, one
time-ordered log per topic. This project models the three core files:

- `src/note.rs` (module `Note`, `note.dfy`): the `Note` record and the `Signed<T>`
  envelope. It covers how `encode_to_vec`, `digest_hash`, `sign` and `verify` are
  wired, and how `PubKey` converts to and from bytes.
- `src/model.rs` (module `Model`, `model.dfy`): `Topic`, a map from creation time
  to signed note that `add_note` updates in place. `Model` is a map from topic
  name to `Topic`.
- `src/controller.rs` (module `Controller`, `controller.dfy`): the controller that
  owns the model and the network handle. It covers `send_note`, and `poll` for
  a single event. `wrappers.dfy` holds `Result`.

The code relies on three foreign libraries: bincode, Keccak-256 and libp2p
identity keys. None of them is modelled from the inside. Each one is a value
passed to the functions that use it:

- a `Codec<T>` is a serialize/deserialize pair;
- the hash is a function `Bytes -> Digest`;
- an `Identity` holds the key-pair primitives.

What the code assumes about them is written as predicates. The lemmas that need
these predicates take them as preconditions:

- `Codec.LeftInverse`: decoding undoes encoding;
- `Identity.SignaturesVerify`: a signature made with a key pair verifies under
  that key pair's public key;
- `Identity.Unforgeable`: a signature over one digest does not verify for
  another;
- `Identity.ProtobufRoundTrip`: decoding a key's protobuf form gives the key back;
- `NoDigestCollision`: Keccak-256 does not collide on the encodings of the two
  values at hand.

`IdentityAssumptionsConsistent` builds a toy identity that meets all three
identity predicates at once, so they do not contradict each other. Timestamps
are integers.

The envelope is encoded in its serde form: the inner value, the public key as
its protobuf `Vec<u8>`, then the signature (`#[serde(into, try_from)]`,
src/note.rs:59-60). The `Signed<T>` codec is therefore built from bincode over
that form plus the `PubKey` conversions. Its round trip is proved from the two
round trips it relies on.

`encode_to_vec` writes into a `VecWriter`, and `digest_hash` feeds a `Keccak256`
hasher. Both are methods, proved equal to what `sign` and `verify` use: the
codec's `serialize` and `DigestOf`.

`Topic` and `Model` are classes. `Model.Valid()` says that no two topic names
share one `Topic` object, which is how Rust's ownership shows up here. The
merge that `send_note` and `poll` both perform
(`entry(topic).or_default().add_note(note)`) is the single method
`Model.Merge`. `Controller::model` is the controller's `const model` field.

`Swarm` stands in for the libp2p swarm. It records the payloads gossipsub
accepted for publication and the set of explicit peers. A call that panics in
an `expect` returns `Panicked(message)`, carrying the `expect` message, and
leaves the state as it was when the panic happened.

The model follows what the code does:

- the code merges received notes without checking their signature;
- two notes for one topic with the same timestamp share one key, so the one
  that arrives last overwrites the other;
- a payload that fails to decode panics in `expect`, which ends the controller;
- a failed publish panics before the local copy is merged, so the sender does
  not keep its own note.

## Model

| member | source | states |
|---|---|---|
| `Note.Sign` | src/note.rs:35-47 | Succeeds exactly when `digest_hash(inner)` succeeds and the key pair signs that digest. On success, the envelope's `inner` is the input unchanged, its `pub_key` is `PubKey(key_pair.public())`, and its signature is what the key pair produced over `digest_hash(inner)`. A digest failure gives `DigestError`. A failure of the signing primitive gives `SigningError`. |
| `Note.Verify` | src/note.rs:20-28 | Returns `false`, and never an error, when `digest_hash(inner)` fails. Otherwise it returns exactly the public key's verdict on (digest, signature). |
| `Note.SignThenVerify` | src/note.rs:145-147 | If signatures verify under their own key pair, every envelope `sign` produces passes `verify`. |
| `Note.TamperedInnerRejected` | src/note.rs:149-151 | Replace the signed value with any different value and `verify` fails. This holds when encoding is injective (decode is its left inverse), signatures do not transfer to other digests, and Keccak does not collide on the two encodings. |
| `Note.AppendToMessageRejected` | src/note.rs:143-151 | The tamper test: appending a non-empty suffix to a signed note's `msg` makes `verify` return `false`. |
| `Note.Encode` | src/note.rs:92-97 | On success, bincode appends the value's serialisation to the writer. Otherwise it returns bincode's error. |
| `Note.VecWriter.constructor` | src/note.rs:81 | The buffer starts empty. |
| `Note.EncodeToVec` | src/note.rs:80-84 | Returns exactly the bytes `encode` writes into a fresh empty buffer, or `encode`'s error. |
| `Note.SignedRoundTrip` | src/note.rs:164-172 | Given the codec and key round trips, decoding `encode_to_vec(signed)` yields `signed`. |
| `Note.SignedDecodeRejectsMalformedKey` | src/note.rs:69-74 | A payload whose public-key bytes fail protobuf decoding does not decode. It fails with a codec error carrying the decoding error's message. |
| `Note.PubKeyToVec` | src/note.rs:63-67 | The bytes are the key's protobuf form: decoding them gives the key back whenever protobuf decoding round-trips. |
| `Note.PubKeyTryFrom` | src/note.rs:69-74 | Succeeds exactly when protobuf decoding succeeds, wrapping the decoded key; otherwise it returns the decoder's error unchanged. |
| `Note.ToRepr` | src/note.rs:59-67 | The serde form keeps `inner` and `signature` and carries the key as bytes from which `try_from` recovers the same key. |
| `Note.FromRepr` | src/note.rs:60-74 | Succeeds exactly when the key bytes decode; it then rebuilds the envelope with the same `inner` and `signature`, and it undoes `ToRepr`. A failure carries the decoding error's message. |
| `Note.SignedCodec` | src/note.rs:11-18 | The derived `Signed<T>` codec round-trips whenever bincode on the serde form and the protobuf key codec do. |
| `Note.Decode` | src/note.rs:99-104 | When bincode round-trips, decoding the bytes any value encodes to gives that value back. |
| `Note.PubKeyRoundTrip` | src/note.rs:63-74 | `try_from(Vec::from(pub_key))` gives the same `PubKey` back. |
| `Note.PubKeyEqualIffBytesEqual` | src/note.rs:61-67 | Two `PubKey`s are equal exactly when their protobuf encodings are. |
| `Note.PubKeyRejectsMalformed` | src/note.rs:69-73 | Bytes the protobuf decoder refuses give `DecodingError`, never a key. |
| `Note.Keccak256.constructor` | src/note.rs:115 | A fresh hasher has absorbed nothing, and its hash function is fixed from creation. |
| `Note.Keccak256.Update` | src/note.rs:117 | Absorbs the given bytes after those already absorbed. |
| `Note.Keccak256.Finalize` | src/note.rs:119 | The digest is the hasher's own Keccak-256 of everything absorbed, in the order absorbed. |
| `Note.DigestHash` | src/note.rs:111-120 | Succeeds exactly when encoding succeeds. It then returns the Keccak-256 of the encoded bytes; otherwise the encoding error becomes the digest error. |
| `Note.EqualEncodingsEqualDigests` | src/note.rs:114-120 | Values with the same encoding have the same digest result. |
| `Model.Topic.constructor` | src/model.rs:17-20 | A new topic has no notes. |
| `Model.Topic.AddNote` | src/model.rs:22-24 | The new map is the old one with the note inserted at its `created_at`. This preserves the invariant that every key is its note's `created_at`. |
| `Model.WithNote` | src/model.rs:22-24 | After the insert, the entry at `note.inner.created_at` is exactly `note`. Every other key is present exactly as before, with the same entry. The count stays the same on overwrite and grows by one otherwise. Keying by creation time is preserved. |
| `Model.WithNoteIdempotent` | src/model.rs:22-24 | Adding the same note twice gives the same topic as adding it once. |
| `Model.WithNoteCommutes` | src/model.rs:22-24 | Two notes with different `created_at` can be added in either order with the same result. |
| `Model.WithNoteLastArrivalWins` | src/model.rs:23 | For two notes with the same `created_at`, the one added last is kept. When the notes differ, the two orders give different topics. |
| `Model.Values` | src/model.rs:14 | `notes.values()` yields one note per key, and each is a stored note. |
| `Model.AscendingKeys` | src/model.rs:14 | The timestamps of a topic, each once, in strictly ascending order: the order in which a `BTreeMap` iterates its keys. |
| `Model.ValuesAscendByCreation` | src/model.rs:12-15 | `notes.values()` yields every stored note exactly once, in strictly ascending `created_at`. |
| `Model.Merged` | src/controller.rs:87-91 | After `entry(topic).or_default().add_note(note)`, the note's topic exists and holds the note under its `created_at`. |
| `Model.Model.constructor` | src/model.rs:6-9 | A new model has no topics: its topic map is empty. |
| `Model.Model.Merge` | src/controller.rs:87-91 | The topic named by the note is created empty if absent, and the note is added to it. Other topics are unchanged. Each name keeps its own `Topic` object. |
| `Model.MergedChangesOnlyItsTopic` | src/controller.rs:132-136 | After a merge, the note's topic exists and holds the old entries plus the note. Every other topic is unchanged. |
| `Model.MergedIdempotent` | src/controller.rs:87-91 | Merging the same signed note twice equals merging it once. |
| `Model.MergedCommutes` | src/controller.rs:132-136 | Notes for different topics, or for one topic at different times, merge in either order with the same result. |
| `Model.MergedLastArrivalWins` | src/controller.rs:130-136 | Two notes for the same topic and time do not commute: the later arrival wins. |
| `Model.DuplicateDeliveryStoredOnce` | src/controller.rs:122-137 | The same note delivered twice leaves one topic holding one entry. |
| `Model.TwoNotesIterateInTimeOrder` | src/model.rs:12-15 | Notes at t0 < t1 in one topic iterate as [t0-note, t1-note], in whichever order they were merged. |
| `Controller.Swarm.Publish` | src/controller.rs:82-86 | If gossipsub accepts, (channel, payload) is appended to what was published. Otherwise nothing is published. Explicit peers are unchanged either way. |
| `Controller.Swarm.AddExplicitPeer` | src/controller.rs:103-106 | Adds the peer to the explicit-peer set. |
| `Controller.Swarm.RemoveExplicitPeer` | src/controller.rs:115-118 | Removes the peer from the explicit-peer set. |
| `Controller.Controller.constructor` | src/controller.rs:73-76 | A fresh controller has an empty model (no `Topic` objects), has published nothing and has no explicit peers. |
| `Controller.Controller.SendNote` | src/controller.rs:79-92 | Publishes exactly one payload, `encode_to_vec(note)`, on channel `"n2p-test"` whatever the note's topic, then merges the note under its own topic. An encoding failure aborts before anything is published. A publish failure aborts before the model is touched. Any `Topic` it creates is newly allocated, so the controller alone owns its model, as `&mut self` gives in Rust. |
| `Controller.Controller.Poll` | src/controller.rs:94-141 | Discovered adds every listed peer to the explicit peers. Expired removes them. Neither touches the model. A gossip message is decoded and merged under its own topic with no signature check, and a decode failure aborts with the model unchanged. Any other event changes nothing. Nothing is published. Any `Topic` it creates is newly allocated. |
| `Controller.Swarm.AddExplicitPeers` | src/controller.rs:98-108 | The discovery loop: the explicit peers become the old ones plus every listed peer id. Nothing is published. |
| `Controller.Swarm.RemoveExplicitPeers` | src/controller.rs:110-120 | The expiry loop: the explicit peers become the old ones minus every listed peer id. Nothing is published. |
| `Controller.SendTwo` | src/controller.rs:79-92 | A fresh controller sends two notes in a row. When both publishes go through, its model is the two notes merged in send order. |
| `Controller.ReceiveTwo` | src/controller.rs:122-137 | A fresh controller polls two gossip messages in a row. When both decode, its model is the two decoded notes merged in arrival order. |
| `Controller.SignedHelloReceivedIntact` | src/controller.rs:130-136 | Sign {"general", "hello", t0}, encode it, then decode and merge it into an empty model. The result is that one note, under "general" at t0, with message "hello". |

## Left out

- bincode, Keccak-256 and the libp2p identity keys (Ed25519 under RFC 8032, and the protobuf key format) are foreign libraries. They are parameters here, and their behaviour is stated as predicates, not modelled.
- Hash collision-freedom cannot hold for every pair of inputs to a 32-byte hash. `TamperedInnerRejected` therefore assumes only that the two encodings at hand do not collide.
- `Identity.Unforgeable` is a deterministic stand-in for unforgeability. It says a signature over one digest never verifies for another. Probabilistic security is not expressible here.
- The tamper lemmas cover a changed `inner`. A changed `pub_key` or `signature` would need further assumptions about the signature scheme, and the code's test does not exercise them.
- `Controller::new` swarm construction (src/controller.rs:13-71) is reduced to an empty model and an empty `Swarm`. This drops the TCP/QUIC transports, noise, yamux, the gossipsub configuration and its message-id hash, mDNS, subscribing and listening. It is network setup with nothing to prove.
- `Controller.Controller.Poll`: waiting for the next swarm event (`select_next_some().await`) is left out. `Poll` takes the event as a parameter. The async runtime and the `tokio::select!` loop in src/app.rs are left out too.
- `Controller.Swarm.Publish`: whether gossipsub accepts a message is decided by the network, so the model chooses it freely. Gossipsub's own rules are not modelled: duplicate suppression by message id, the "insufficient peers" case, mesh and fanout. Neither is the dialing that `add_explicit_peer` starts.
- `Note.Encode`: when bincode fails part-way, the bytes it had already written are not modelled. `encode_to_vec` drops that buffer anyway.
- The `println!` logging in `poll` and the clock read that fills `created_at` (src/app.rs:75-76) are left out.
- The terminal UI (src/app.rs, src/components.rs, src/components/*, src/tui.rs, src/main.rs) is not part of this model.
- src/lib.rs holds an older variant of the items in src/note.rs (`TryFrom<&[u8]>` for `PubKey`, `Encode for &T`). The controller and the app use `crate::note` instead (src/controller.rs:148-157, src/app.rs:170-171), so those items are not part of this model.
