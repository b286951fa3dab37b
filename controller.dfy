/**
 * The controller (src/controller.rs): it owns the model and the network
 * handle, publishes the notes the user sends and folds in what the network
 * delivers, one event per `poll`.
 *
 * The libp2p swarm is reduced to what the controller does with it: the
 * payloads it published on gossipsub and the set of explicit peers.
 */
module Controller {
  import opened Wrappers
  import N = Note
  import M = Model

  /** The one gossipsub topic every note goes out on, whatever the note's own topic. */
  const Channel: string := "n2p-test"

  /** The messages of the `expect` calls that abort the controller. */
  const EncodeFailed: string := "failed to encode to vec"
  const PublishFailed: string := "publish note failed"
  const DecodeFailed: string := "decode failed"

  datatype PeerId = PeerId(multihash: N.Bytes)
  type Multiaddr = string
  datatype MessageId = MessageId(id: string)
  datatype PublishError = PublishError(detail: string)

  /** The swarm events `poll` distinguishes; every other event is `Other`. */
  datatype Event =
    | MdnsDiscovered(discovered: seq<(PeerId, Multiaddr)>)
    | MdnsExpired(expired: seq<(PeerId, Multiaddr)>)
    | GossipMessage(propagationSource: PeerId, messageId: MessageId, data: N.Bytes)
    | Other

  /** How a call ended: it ran to completion, or it panicked in an `expect` with this message. */
  datatype Outcome = Completed | Panicked(message: string)

  /** The peer ids listed in an mDNS event. */
  function PeerIds(peers: seq<(PeerId, Multiaddr)>): (ids: set<PeerId>) {
    set entry | entry in peers :: entry.0
  }

  /** The part of the libp2p swarm the controller drives. */
  class Swarm {
    /** What gossipsub accepted for publication, as (topic, payload), oldest first. */
    var published: seq<(string, N.Bytes)>
    /** The gossipsub explicit peers. */
    var explicitPeers: set<PeerId>

    constructor ()
      ensures published == [] && explicitPeers == {}
    {
      published := [];
      explicitPeers := {};
    }

    /** `gossipsub.publish`: the network layer either takes the payload or refuses it. */
    method Publish(channel: string, data: N.Bytes) returns (r: Result<(), PublishError>)
      modifies this
      ensures explicitPeers == old(explicitPeers)
      ensures r.Ok? ==> published == old(published) + [(channel, data)]
      ensures r.Err? ==> published == old(published)
    {
      var accepted: bool :| true;
      if accepted {
        published := published + [(channel, data)];
        r := Ok(());
      } else {
        r := Err(PublishError("publish refused"));
      }
    }

    /** `gossipsub.add_explicit_peer`. */
    method AddExplicitPeer(peer: PeerId)
      modifies this
      ensures explicitPeers == old(explicitPeers) + {peer}
      ensures published == old(published)
    {
      explicitPeers := explicitPeers + {peer};
    }

    /** `gossipsub.remove_explicit_peer`. */
    method RemoveExplicitPeer(peer: PeerId)
      modifies this
      ensures explicitPeers == old(explicitPeers) - {peer}
      ensures published == old(published)
    {
      explicitPeers := explicitPeers - {peer};
    }

    /** The mDNS discovery loop: every listed peer becomes an explicit peer. */
    method AddExplicitPeers(peers: seq<(PeerId, Multiaddr)>)
      modifies this
      ensures explicitPeers == old(explicitPeers) + PeerIds(peers)
      ensures published == old(published)
    {
      for i := 0 to |peers|
        invariant explicitPeers == old(explicitPeers) + PeerIds(peers[..i])
        invariant published == old(published)
      {
        AddExplicitPeer(peers[i].0);
        assert peers[..i + 1] == peers[..i] + [peers[i]];
      }
      assert peers[..|peers|] == peers;
    }

    /** The mDNS expiry loop: every listed peer stops being an explicit peer. */
    method RemoveExplicitPeers(peers: seq<(PeerId, Multiaddr)>)
      modifies this
      ensures explicitPeers == old(explicitPeers) - PeerIds(peers)
      ensures published == old(published)
    {
      for i := 0 to |peers|
        invariant explicitPeers == old(explicitPeers) - PeerIds(peers[..i])
        invariant published == old(published)
      {
        RemoveExplicitPeer(peers[i].0);
        assert peers[..i + 1] == peers[..i] + [peers[i]];
      }
      assert peers[..|peers|] == peers;
    }
  }

  class Controller {
    /** The local model; `Controller::model` hands out exactly this. */
    const model: M.Model
    const swarm: Swarm
    /** bincode for `Signed<Note>`. */
    const codec: N.Codec<N.Signed<N.Note>>

    ghost predicate Valid()
      reads this, model, model.topics.Values
    {
      model.Valid()
    }

    /** A new controller: an empty model, nothing published, no explicit peers. */
    constructor (codec: N.Codec<N.Signed<N.Note>>)
      ensures Valid() && fresh(model) && fresh(swarm)
      ensures model.topics == map[] && model.Contents() == map[]
      ensures swarm.published == [] && swarm.explicitPeers == {}
      ensures this.codec == codec
    {
      model := new M.Model();
      swarm := new Swarm();
      this.codec := codec;
    }

    /**
     * `send_note`: publish the encoded note on the fixed channel, then merge it
     * into the model under its own topic. An encoding or publishing failure
     * aborts before the model is touched.
     */
    method SendNote(note: N.Signed<N.Note>) returns (outcome: Outcome)
      requires Valid()
      modifies model, model.topics.Values, swarm
      ensures Valid()
      ensures fresh(model.topics.Values - old(model.topics.Values))
      ensures swarm.explicitPeers == old(swarm.explicitPeers)
      ensures codec.serialize(note).Err? ==>
                && outcome == Panicked(EncodeFailed)
                && swarm.published == old(swarm.published)
                && model.Contents() == old(model.Contents())
      ensures codec.serialize(note).Ok? ==>
                || (&& outcome == Completed
                    && swarm.published == old(swarm.published) + [(Channel, codec.serialize(note).value)]
                    && model.Contents() == M.Merged(old(model.Contents()), note))
                || (&& outcome == Panicked(PublishFailed)
                    && swarm.published == old(swarm.published)
                    && model.Contents() == old(model.Contents()))
    {
      var encoded := N.EncodeToVec(codec, note);
      if encoded.Err? {
        return Panicked(EncodeFailed);
      }
      var sent := swarm.Publish(Channel, encoded.value);
      if sent.Err? {
        assert model.topics == old(model.topics);
        return Panicked(PublishFailed);
      }
      ghost var published := swarm.published;
      model.Merge(note);
      assert swarm.published == published;
      return Completed;
    }

    /**
     * `poll`, given the event the swarm produced: mDNS discoveries and
     * expiries add or remove explicit peers, a gossip message is decoded and
     * merged under its own topic without checking its signature, anything
     * else is ignored.
     */
    method Poll(event: Event) returns (outcome: Outcome)
      requires Valid()
      modifies model, model.topics.Values, swarm
      ensures Valid()
      ensures fresh(model.topics.Values - old(model.topics.Values))
      ensures swarm.published == old(swarm.published)
      ensures event.MdnsDiscovered? ==>
                && outcome == Completed
                && swarm.explicitPeers == old(swarm.explicitPeers) + PeerIds(event.discovered)
                && model.Contents() == old(model.Contents())
      ensures event.MdnsExpired? ==>
                && outcome == Completed
                && swarm.explicitPeers == old(swarm.explicitPeers) - PeerIds(event.expired)
                && model.Contents() == old(model.Contents())
      ensures event.GossipMessage? && N.Decode(codec, event.data).Err? ==>
                && outcome == Panicked(DecodeFailed)
                && swarm.explicitPeers == old(swarm.explicitPeers)
                && model.Contents() == old(model.Contents())
      ensures event.GossipMessage? && N.Decode(codec, event.data).Ok? ==>
                && outcome == Completed
                && swarm.explicitPeers == old(swarm.explicitPeers)
                && model.Contents() == M.Merged(old(model.Contents()), N.Decode(codec, event.data).value)
      ensures event.Other? ==>
                && outcome == Completed
                && swarm.explicitPeers == old(swarm.explicitPeers)
                && model.Contents() == old(model.Contents())
    {
      match event {
        case MdnsDiscovered(peers) =>
          swarm.AddExplicitPeers(peers);
          outcome := Completed;
        case MdnsExpired(peers) =>
          swarm.RemoveExplicitPeers(peers);
          outcome := Completed;
        case GossipMessage(_, _, data) =>
          var decoded := N.Decode(codec, data);
          if decoded.Err? {
            return Panicked(DecodeFailed);
          }
          model.Merge(decoded.value);
          outcome := Completed;
        case Other =>
          outcome := Completed;
      }
    }
  }

  /**
   * Two notes sent in a row by a fresh controller: when both publishes go
   * through, the model holds both, merged in the order they were sent.
   */
  method SendTwo(codec: N.Codec<N.Signed<N.Note>>, first: N.Signed<N.Note>, second: N.Signed<N.Note>)
    returns (c: Controller, sent: Outcome)
    ensures sent == Completed ==> c.model.Contents() == M.Merged(M.Merged(map[], first), second)
  {
    c := new Controller(codec);
    sent := c.SendNote(first);
    if sent == Completed {
      sent := c.SendNote(second);
    }
  }

  /**
   * A fresh controller receiving two gossip messages in a row: when both
   * decode, the model holds both notes, merged in the order they arrived.
   */
  method ReceiveTwo(codec: N.Codec<N.Signed<N.Note>>, first: N.Bytes, second: N.Bytes)
    returns (c: Controller, received: Outcome)
    ensures received == Completed
            ==> && N.Decode(codec, first).Ok? && N.Decode(codec, second).Ok?
                && c.model.Contents()
                   == M.Merged(M.Merged(map[], N.Decode(codec, first).value), N.Decode(codec, second).value)
  {
    c := new Controller(codec);
    received := c.Poll(GossipMessage(PeerId([]), MessageId("1"), first));
    if received == Completed {
      received := c.Poll(GossipMessage(PeerId([]), MessageId("2"), second));
    }
  }

  /**
   * The end-to-end case of one note: signed as {"general", "hello", t0},
   * encoded, decoded by the receiver and merged into its empty model, it is
   * the only entry, under "general" at t0, with message "hello".
   */
  lemma SignedHelloReceivedIntact(noteCodec: N.Codec<N.Note>, hash: N.Bytes -> N.Digest, id: N.Identity,
                                  repr: N.Codec<N.SignedRepr<N.Note>>, keyPair: N.Keypair, t0: N.Timestamp)
    requires repr.LeftInverse() && id.ProtobufRoundTrip()
    requires N.Sign(noteCodec, hash, id, N.Note("general", "hello", t0), keyPair).Ok?
    requires N.SignedCodec(repr, id).serialize(N.Sign(noteCodec, hash, id, N.Note("general", "hello", t0), keyPair).value).Ok?
    ensures var signed := N.Sign(noteCodec, hash, id, N.Note("general", "hello", t0), keyPair).value;
            var wire := N.SignedCodec(repr, id);
            var received := N.Decode(wire, wire.serialize(signed).value);
            && received == Ok(signed)
            && M.Merged(map[], received.value) == map["general" := map[t0 := signed]]
            && received.value.inner.msg == "hello"
  {
    var signed := N.Sign(noteCodec, hash, id, N.Note("general", "hello", t0), keyPair).value;
    N.SignedRoundTrip(repr, id, signed);
  }
}
