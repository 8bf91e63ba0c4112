/** A node: the peer registry, the socket and the `message` events, behind the
    operations `send`, `connect` and `disconnect` and the handler `listener` that the
    socket calls for every datagram it receives. */
module Node {
  import opened Formats
  import opened Wrappers
  import opened Registry
  import opened Codec
  import opened Endpoint

  /** A datagram handed to the socket: its bytes and the endpoint they go to. */
  datatype Datagram = Datagram(bytes: seq<byte>, to: Peer)

  /** A `message` event: the decoded payload and the sender's info. */
  datatype Message = Message(payload: Value, from: Peer)

  /** The same bytes sent once to each endpoint, in order. */
  function Fanout(m: seq<byte>, eps: seq<Peer>): (r: seq<Datagram>)
    ensures |r| == |eps|
    ensures forall i :: 0 <= i < |eps| ==> r[i] == Datagram(m, eps[i])
    decreases |eps|
  {
    if eps == [] then [] else Fanout(m, eps[..|eps| - 1]) + [Datagram(m, eps[|eps| - 1])]
  }

  /** One more endpoint is one more datagram at the end. */
  lemma FanoutStep(m: seq<byte>, eps: seq<Peer>, i: nat)
    requires i < |eps|
    ensures Fanout(m, eps[..i + 1]) == Fanout(m, eps[..i]) + [Datagram(m, eps[i])]
  {
    assert eps[..i + 1][..i] == eps[..i];
  }

  /** A fan-out reaches every endpoint in the list and no other. */
  lemma FanoutReaches(m: seq<byte>, eps: seq<Peer>, q: Peer)
    ensures Datagram(m, q) in Fanout(m, eps) <==> q in eps
  {
    var r := Fanout(m, eps);
    if q in eps {
      var i :| 0 <= i < |eps| && eps[i] == q;
      assert r[i] == Datagram(m, q);
    }
  }

  class Client {
    /** The endpoint the socket is bound to. */
    const address: Peer
    /** `JSON.stringify` and `JSON.parse`. */
    const json: JsonCodec
    /** The registry: the peers a broadcast goes to, in the order they were added. */
    var peers: seq<Peer>
    /** Every datagram handed to the socket, oldest first. */
    ghost var sent: seq<Datagram>
    /** Every `message` event emitted, oldest first. */
    ghost var emitted: seq<Message>

    /** The registry never holds two records with equal address and port. */
    ghost predicate Valid()
      reads this
    {
      NoDuplicates(peers)
    }

    /** A fresh node, bound to its address, knows no peers and has sent and emitted nothing. */
    constructor (address: Descriptor, json: JsonCodec)
      ensures Valid()
      ensures this.address == Resolve(address) && this.json == json
      ensures peers == [] && sent == [] && emitted == []
    {
      this.address := Resolve(address);
      this.json := json;
      peers := [];
      sent := [];
      emitted := [];
    }

    /** `manage(this.peers, format, info)`: scan for the first record matching info;
        splice it out unless the format is CONNECT and stop; append info when none matched.
        It is deliberately free of `Valid()`: `manage` itself never looks at duplicates,
        and its callers keep the invariant with `ManagePreservesNoDuplicates`. */
    method Manage(format: byte, info: Peer)
      modifies this
      ensures peers == Managed(old(peers), format, info)
      ensures sent == old(sent) && emitted == old(emitted)
    {
      var i, len := 0, |peers|;
      var connect := format == ByteOf(Format.Connect);
      while i < len
        invariant 0 <= i <= len == |peers|
        invariant peers == old(peers)
        invariant info !in peers[..i]
      {
        if peers[i].address == info.address && peers[i].port == info.port {
          ManagedAt(peers, format, info, i);
          if !connect {
            peers := peers[..i] + peers[i + 1..];
          } else {
            assert peers[..i] + peers[i..] == peers;
          }
          return;
        }
        assert peers[..i + 1] == peers[..i] + [peers[i]];
        i := i + 1;
      }
      assert peers[..i] == peers;
      ManagedAbsent(peers, format, info);
      peers := peers + [Peer(info.address, info.port)];
    }

    /** `send(message, peer)`: frame the message once; send the frame to the target when
        there is one, otherwise to every registered peer in registry order. */
    method Send(message: Value, target: Option<Peer>)
      requires Valid()
      modifies this
      ensures Valid()
      ensures peers == old(peers) && emitted == old(emitted)
      ensures target.Some? ==> sent == old(sent) + [Datagram(Zip(json, message), target.value)]
      ensures target.None? ==> sent == old(sent) + Fanout(Zip(json, message), peers)
    {
      var m := Zip(json, message);
      if target.Some? {
        sent := sent + [Datagram(m, target.value)];
      } else {
        var i, len := 0, |peers|;
        while i < len
          invariant 0 <= i <= len == |peers|
          invariant peers == old(peers) && emitted == old(emitted)
          invariant sent == old(sent) + Fanout(m, peers[..i])
        {
          FanoutStep(m, peers, i);
          sent := sent + [Datagram(m, peers[i])];
          i := i + 1;
        }
        assert peers[..i] == peers;
      }
    }

    /** The loop `connect` and `disconnect` share: for each descriptor in argument order,
        send the one-byte control frame to it, then `manage` it into the registry. */
    method Announce(format: Format, args: seq<Descriptor>)
      requires Valid()
      modifies this
      ensures Valid()
      ensures peers == ManagedAll(old(peers), ByteOf(format), ResolveAll(args))
      ensures sent == old(sent) + Fanout([ByteOf(format)], ResolveAll(args))
      ensures emitted == old(emitted)
    {
      var m := [ByteOf(format)];
      var eps := ResolveAll(args);
      ghost var peers0, sent0 := peers, sent;
      var i, len := 0, |args|;
      while i < len
        invariant 0 <= i <= len == |eps|
        invariant peers == ManagedAll(peers0, ByteOf(format), eps[..i])
        invariant sent == sent0 + Fanout(m, eps[..i])
        invariant emitted == old(emitted)
      {
        var peer := Resolve(args[i]);
        FanoutStep(m, eps, i);
        ManagedAllStep(peers0, ByteOf(format), eps, i);
        sent := sent + [Datagram(m, peer)];
        Manage(ByteOf(format), peer);
        i := i + 1;
      }
      assert eps[..i] == eps;
      ManagedAllNoDuplicates(peers0, ByteOf(format), eps);
    }

    /** `connect(...)`: announce this node to each descriptor and register it as a peer. */
    method Connect(args: seq<Descriptor>)
      requires Valid()
      modifies this
      ensures Valid()
      ensures peers == ManagedAll(old(peers), ByteOf(Format.Connect), ResolveAll(args))
      ensures sent == old(sent) + Fanout([ByteOf(Format.Connect)], ResolveAll(args))
      ensures emitted == old(emitted)
    {
      Announce(Format.Connect, args);
    }

    /** `disconnect(...)`: tell each descriptor this node leaves and `manage` it with
        DISCONNECT (which, for a descriptor not registered, appends it). */
    method Disconnect(args: seq<Descriptor>)
      requires Valid()
      modifies this
      ensures Valid()
      ensures peers == ManagedAll(old(peers), ByteOf(Format.Disconnect), ResolveAll(args))
      ensures sent == old(sent) + Fanout([ByteOf(Format.Disconnect)], ResolveAll(args))
      ensures emitted == old(emitted)
    {
      Announce(Format.Disconnect, args);
    }

    /** `listener(message, info)`: a CONNECT or DISCONNECT datagram updates the registry
        from the sender's info and emits nothing; any other datagram leaves the registry
        alone and emits its decoded payload. Reading the format of an empty datagram and
        parsing a malformed JSON payload throw, and then nothing changes. */
    method Listener(message: seq<byte>, info: Peer) returns (r: Outcome)
      requires Valid()
      modifies this
      ensures Valid()
      ensures sent == old(sent)
      ensures |message| == 0 ==> r == Fail(RangeError) && peers == old(peers) && emitted == old(emitted)
      ensures |message| > 0 && IsControl(message[0]) ==>
        r == Pass && peers == Managed(old(peers), message[0], info) && emitted == old(emitted)
      ensures |message| > 0 && !IsControl(message[0]) ==> peers == old(peers)
      ensures |message| > 0 && !IsControl(message[0]) ==>
        match Unzip(json, message[0], message)
        case Ok(v) => r == Pass && emitted == old(emitted) + [Message(v, info)]
        case Err(e) => r == Fail(e) && emitted == old(emitted)
    {
      var f := ReadFormat(message);
      if f.Err? {
        return Fail(f.error);
      }
      if f.value == ByteOf(Format.Connect) || f.value == ByteOf(Format.Disconnect) {
        ManagePreservesNoDuplicates(peers, f.value, info);
        Manage(f.value, info);
        r := Pass;
      } else {
        var u := Unzip(json, f.value, message);
        if u.Err? {
          return Fail(u.error);
        }
        emitted := emitted + [Message(u.value, info)];
        r := Pass;
      }
    }
  }

  /** CONNECT to two distinct peers from an empty registry registers both, in order. */
  lemma ConnectPair(p1: Peer, p2: Peer)
    requires p1 != p2
    ensures ManagedAll([], ByteOf(Format.Connect), [p1, p2]) == [p1, p2]
  {
    var eps := [p1, p2];
    ManagedAllStep([], ByteOf(Format.Connect), eps, 0);
    ManagedAllStep([], ByteOf(Format.Connect), eps, 1);
    assert eps[..2] == eps;
    ManageConnect([], p1);
    ManageConnect([p1], p2);
  }

  /** The broadcast scenario of the integration test, sending side: a node connects to
      two other ports and sends a string; it sends one CONNECT datagram to each, then the
      same frame to each. */
  method BroadcastScenario(json: JsonCodec, text: string, here: UdpPort, there: UdpPort, yonder: UdpPort)
    requires there != yonder
  {
    var luke := new Client(PortNumber(here), json);
    var args := [PortNumber(there), PortNumber(yonder)];
    var eps := ResolveAll(args);
    var p1, p2 := eps[0], eps[1];
    ResolvePortNumber(there, yonder);
    assert eps == [p1, p2];
    ConnectPair(p1, p2);
    luke.Connect(args);
    assert luke.peers == [p1, p2];
    ghost var announced := luke.sent;

    var frame := Zip(json, StringValue(text));
    luke.Send(StringValue(text), None);
    assert luke.sent == announced + [Datagram(frame, p1), Datagram(frame, p2)];
  }

  /** The broadcast scenario of the integration test, receiving side: a node that receives
      the frame of a string emits that string with the sender's info. */
  method DeliveryScenario(json: JsonCodec, text: string, here: UdpPort, from: Peer)
  {
    var darth := new Client(PortNumber(here), json);
    var frame := Zip(json, StringValue(text));
    UnzipZipString(json, text);
    var r := darth.Listener(frame, from);
    assert r == Pass && darth.emitted == [Message(StringValue(text), from)];
  }
}
