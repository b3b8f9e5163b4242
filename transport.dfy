/** The publish/subscribe side of redis_bot/lib.py: the connection object
    that opens each broker connection once and then reuses it, the
    router's reply path (`RedisToChan.send` and `answer`), and the
    adapter's inbound loop (`ChanToRedis.listen`), which keeps only the
    messages of one channel. Opening a connection, publishing and
    subscribing are the broker library's business; here a connection is an
    object with an endpoint, and publishing appends to a log. */
module Transport {
  import opened Wrappers
  import opened Messages
  import Codec

  const DefaultHost := "localhost"
  const DefaultPort := 6379
  const DefaultChannelFrom := "bot:comm:from"
  const DefaultChannelTo := "bot:comm:to"
  const DefaultChannelControl := "bot:comm:control"

  /** An open broker connection; only its identity and endpoint matter. */
  class Connection {
    const host: string
    const port: int

    constructor (host: string, port: int)
      ensures this.host == host && this.port == port
    {
      this.host := host;
      this.port := port;
    }
  }

  class RedisConnection {
    const host: string
    const port: int
    const channelControl: string
    const channelTo: string
    const channelFrom: string
    var incoming: Option<Connection>
    var outgoing: Option<Connection>

    constructor (host: string := DefaultHost, port: int := DefaultPort,
                 channelFrom: string := DefaultChannelFrom, channelTo: string := DefaultChannelTo,
                 channelControl: string := DefaultChannelControl)
      ensures this.host == host && this.port == port
      ensures this.channelFrom == channelFrom && this.channelTo == channelTo
      ensures this.channelControl == channelControl
      ensures incoming == None && outgoing == None
    {
      this.host := host;
      this.port := port;
      this.channelControl := channelControl;
      this.channelTo := channelTo;
      this.channelFrom := channelFrom;
      incoming := None;
      outgoing := None;
    }

    /** The `incoming_connection` property: opened on first use, the same
        object on every later use. */
    method IncomingConnection() returns (c: Connection)
      modifies this`incoming
      ensures incoming == Some(c)
      ensures old(incoming).Some? ==> c == old(incoming).value
      ensures old(incoming).None? ==> fresh(c) && c.host == host && c.port == port
    {
      if incoming.None? {
        var created := new Connection(host, port);
        incoming := Some(created);
      }
      c := incoming.value;
    }

    /** The `outgoing_connection` property, the same for the other direction. */
    method OutgoingConnection() returns (c: Connection)
      modifies this`outgoing
      ensures outgoing == Some(c)
      ensures old(outgoing).Some? ==> c == old(outgoing).value
      ensures old(outgoing).None? ==> fresh(c) && c.host == host && c.port == port
    {
      if outgoing.None? {
        var created := new Connection(host, port);
        outgoing := Some(created);
      }
      c := outgoing.value;
    }
  }

  /** A Python dict that the router and its caller share. */
  class MessageDict {
    var fields: Message

    constructor (fields: Message)
      ensures this.fields == fields
    {
      this.fields := fields;
    }
  }

  /** One `publish` call: the connection it went through, the channel and
      the encoded message. */
  datatype Publication = Publication(via: Connection, channel: string, payload: Codec.Wire)

  /** The router's end of the transport. */
  class RedisToChan {
    const link: RedisConnection
    var sent: seq<Publication>

    constructor (link: RedisConnection)
      ensures this.link == link && sent == []
    {
      this.link := link;
      sent := [];
    }

    /** `send`: encode, then publish on the inbound-to-adapter channel over
        the outgoing connection. */
    method Send(mess: Message)
      modifies this`sent, link`outgoing
      ensures link.outgoing.Some?
      ensures old(link.outgoing).Some? ==> link.outgoing == old(link.outgoing)
      ensures sent == old(sent) + [Publication(link.outgoing.value, link.channelTo, Codec.MessEncode(mess))]
    {
      var c := link.OutgoingConnection();
      sent := sent + [Publication(c, link.channelTo, Codec.MessEncode(mess))];
    }

    /** `answer`: store the reply under `text` in the caller's dict, leaving
        every other field as it was, then send the whole message. */
    method Answer(mess: MessageDict, content: string)
      modifies mess, this`sent, link`outgoing
      ensures mess.fields == old(mess.fields)[TextKey := content]
      ensures link.outgoing.Some?
      ensures old(link.outgoing).Some? ==> link.outgoing == old(link.outgoing)
      ensures sent == old(sent) + [Publication(link.outgoing.value, link.channelTo, Codec.MessEncode(mess.fields))]
    {
      mess.fields := mess.fields[TextKey := content];
      Send(mess.fields);
    }
  }

  /** The reply published by `answer` decodes to the original message with
      only `text` added or replaced. */
  lemma AnswerPayload(m: Message, content: string)
    ensures Codec.MessDecode(Codec.MessEncode(m[TextKey := content])).Some?
    ensures var r := Codec.MessDecode(Codec.MessEncode(m[TextKey := content])).value;
      && r.Keys == m.Keys + {TextKey} && r[TextKey] == content
      && forall k :: k in m && k != TextKey ==> r[k] == m[k]
  {
    Codec.DecodeEncode(m[TextKey := content]);
  }

  /** What `subscriber.next_published()` delivers. */
  datatype Delivery = Delivery(channel: string, value: Codec.Wire)

  /** The exceptions that end the inbound generator. */
  datatype ListenError = UndecodableMessage | MissingBody

  /** The messages the generator has yielded and, if it has ended, why. */
  datatype Listened = Listened(yielded: seq<Message>, stopped: Option<ListenError>)

  function Prefixed(out: seq<Message>, l: Listened): Listened {
    Listened(out + l.yielded, l.stopped)
  }

  /** `ChanToRedis.listen` over a finite prefix of the deliveries: messages
      on `to` are decoded and yielded; messages on `control` are decoded and
      their `body` read (the debugger it may start is not modelled); any
      other channel is skipped. */
  function Route(to: string, control: string, events: seq<Delivery>): (r: Listened)
    ensures |r.yielded| <= |events|
    decreases |events|
  {
    if events == [] then Listened([], None)
    else
      var e := events[0];
      if e.channel == to then
        match Codec.MessDecode(e.value)
        case None => Listened([], Some(UndecodableMessage))
        case Some(m) => Prefixed([m], Route(to, control, events[1..]))
      else if e.channel == control then
        match Codec.MessDecode(e.value)
        case None => Listened([], Some(UndecodableMessage))
        case Some(m) =>
          if BodyKey !in m then Listened([], Some(MissingBody))
          else Route(to, control, events[1..])
      else Route(to, control, events[1..])
  }

  /** The deliveries on one channel, in order. */
  function OnChannel(ch: string, events: seq<Delivery>): (r: seq<Delivery>)
    ensures forall j :: 0 <= j < |r| ==> r[j].channel == ch
    decreases |events|
  {
    if events == [] then []
    else (if events[0].channel == ch then [events[0]] else []) + OnChannel(ch, events[1..])
  }

  /** `y` is the decoding of some delivery on channel `ch`. */
  ghost predicate DeliveredOn(events: seq<Delivery>, ch: string, y: Message) {
    exists i :: 0 <= i < |events| && events[i].channel == ch && Codec.MessDecode(events[i].value) == Some(y)
  }

  lemma DeliveredOnTail(events: seq<Delivery>, ch: string, y: Message)
    requires events != [] && DeliveredOn(events[1..], ch, y)
    ensures DeliveredOn(events, ch, y)
  {
    var i :| 0 <= i < |events[1..]| && events[1..][i].channel == ch && Codec.MessDecode(events[1..][i].value) == Some(y);
    assert events[i + 1] == events[1..][i];
  }

  /** One step of the generator: it stops, skips the first delivery, or
      yields the decoding of a first delivery on `to`. */
  lemma RouteStep(to: string, control: string, events: seq<Delivery>)
    requires events != []
    ensures var ys := Route(to, control, events).yielded;
      ys == [] || ys == Route(to, control, events[1..]).yielded
      || (events[0].channel == to && Codec.MessDecode(events[0].value) == Some(ys[0])
          && ys[1..] == Route(to, control, events[1..]).yielded)
  {
    var ys := Route(to, control, events).yielded;
    var rest := Route(to, control, events[1..]).yielded;
    if events[0].channel == to && Codec.MessDecode(events[0].value).Some? {
      assert ys == [Codec.MessDecode(events[0].value).value] + rest;
    }
  }

  /** Every yielded message is the decoding of a delivery on `to`. */
  lemma {:induction false} RouteYieldsOnlyTo(to: string, control: string, events: seq<Delivery>)
    ensures forall j :: 0 <= j < |Route(to, control, events).yielded| ==>
      DeliveredOn(events, to, Route(to, control, events).yielded[j])
    decreases |events|
  {
    if events != [] {
      RouteYieldsOnlyTo(to, control, events[1..]);
      RouteStep(to, control, events);
      var ys := Route(to, control, events).yielded;
      var rest := Route(to, control, events[1..]).yielded;
      forall j | 0 <= j < |ys| ensures DeliveredOn(events, to, ys[j]) {
        if ys == rest {
          DeliveredOnTail(events, to, rest[j]);
        } else if j == 0 {
          assert events[0].channel == to && Codec.MessDecode(events[0].value) == Some(ys[0]);
        } else {
          assert ys[j] == ys[1..][j - 1] == rest[j - 1];
          DeliveredOnTail(events, to, rest[j - 1]);
        }
      }
    } else {
      assert Route(to, control, events).yielded == [];
    }
  }

  /** A well-formed control message is never yielded and changes nothing
      in what the generator yields, wherever it arrives. */
  lemma {:induction false} RouteSkipsControl(to: string, control: string, pre: seq<Delivery>, e: Delivery, post: seq<Delivery>)
    requires to != control && e.channel == control
    requires Codec.MessDecode(e.value).Some? && BodyKey in Codec.MessDecode(e.value).value
    ensures Route(to, control, pre + [e] + post) == Route(to, control, pre + post)
    decreases |pre|
  {
    if pre == [] {
      assert pre + [e] + post == [e] + post;
      assert pre + post == post;
      RouteSkipsFirst(to, control, e, post);
    } else {
      RouteSkipsControl(to, control, pre[1..], e, post);
      ConsSplit(pre, e, post);
      RouteSameHead(to, control, pre[0], pre[1..] + [e] + post, pre[1..] + post);
    }
  }

  /** A well-formed control delivery at the front is skipped. */
  lemma RouteSkipsFirst(to: string, control: string, e: Delivery, post: seq<Delivery>)
    requires to != control && e.channel == control
    requires Codec.MessDecode(e.value).Some? && BodyKey in Codec.MessDecode(e.value).value
    ensures Route(to, control, [e] + post) == Route(to, control, post)
  {
    assert ([e] + post)[1..] == post;
  }

  /** Putting the same delivery in front of two lists that route alike
      keeps them routing alike. */
  lemma RouteSameHead(to: string, control: string, d: Delivery, a: seq<Delivery>, b: seq<Delivery>)
    requires Route(to, control, a) == Route(to, control, b)
    ensures Route(to, control, [d] + a) == Route(to, control, [d] + b)
  {
    assert ([d] + a)[1..] == a && ([d] + b)[1..] == b;
  }

  lemma ConsSplit(pre: seq<Delivery>, e: Delivery, post: seq<Delivery>)
    requires pre != []
    ensures pre + [e] + post == [pre[0]] + (pre[1..] + [e] + post)
    ensures pre + post == [pre[0]] + (pre[1..] + post)
  {
  }

  /** A generator that has not stopped has yielded exactly the deliveries
      on `to`, each decoded, in the order the broker delivered them. */
  lemma {:induction false} RouteComplete(to: string, control: string, events: seq<Delivery>)
    requires Route(to, control, events).stopped == None
    ensures |Route(to, control, events).yielded| == |OnChannel(to, events)|
    ensures forall j :: 0 <= j < |OnChannel(to, events)| ==>
      Codec.MessDecode(OnChannel(to, events)[j].value) == Some(Route(to, control, events).yielded[j])
    decreases |events|
  {
    if events != [] {
      RouteComplete(to, control, events[1..]);
      var e := events[0];
      var ys := Route(to, control, events).yielded;
      var rest := Route(to, control, events[1..]).yielded;
      var on := OnChannel(to, events);
      var onRest := OnChannel(to, events[1..]);
      if e.channel == to {
        assert ys == [Codec.MessDecode(e.value).value] + rest;
        assert on == [e] + onRest;
        assert forall j :: 1 <= j < |on| ==> on[j] == onRest[j - 1] && ys[j] == rest[j - 1];
      } else {
        assert ys == rest && on == onRest;
      }
    }
  }

  /** The adapter's end of the transport. */
  class ChanToRedis {
    const link: RedisConnection

    constructor (link: RedisConnection)
      ensures this.link == link
    {
      this.link := link;
    }

    /** `listen`: subscribe over the incoming connection, opening it on
        first use, then run the branching loop over the deliveries received
        so far. */
    method Listen(events: seq<Delivery>) returns (l: Listened)
      modifies link`incoming
      ensures link.incoming.Some?
      ensures old(link.incoming).Some? ==> link.incoming == old(link.incoming)
      ensures l == Route(link.channelTo, link.channelControl, events)
    {
      var subscribed := link.IncomingConnection();
      var to, control := link.channelTo, link.channelControl;
      var out: seq<Message> := [];
      var i := 0;
      while i < |events|
        invariant 0 <= i <= |events|
        invariant Route(to, control, events) == Prefixed(out, Route(to, control, events[i..]))
      {
        var e := events[i];
        assert events[i..][1..] == events[i + 1..];
        if e.channel == to {
          var decoded := Codec.MessDecode(e.value);
          if decoded.None? {
            return Listened(out, Some(UndecodableMessage));
          }
          out := out + [decoded.value];
        } else if e.channel == control {
          var decoded := Codec.MessDecode(e.value);
          if decoded.None? {
            return Listened(out, Some(UndecodableMessage));
          }
          if BodyKey !in decoded.value {
            return Listened(out, Some(MissingBody));
          }
        }
        i := i + 1;
      }
      l := Listened(out, None);
    }
  }
}
