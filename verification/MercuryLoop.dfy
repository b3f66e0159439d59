/**
 Correlation of Mercury responses with requests (mercury/client.go): one loop owns a
 counter and a map of pending requests; every request brings a reply channel with one
 slot.
 */
module MercuryLoop {
  import opened Common
  import opened Positional
  import opened MercuryFrames
  import ShannonConns

  /** Protobuf headers: only that marshalling and unmarshalling may fail matters here. */
  datatype Codec<!H> = Codec(marshal: H -> Option<seq<byte>>, unmarshal: seq<byte> -> Option<H>)

  datatype HermesRequest<H> = HermesRequest(header: H, parts: seq<seq<byte>>)

  datatype HermesResponse<H> = Answer(header: H, parts: seq<seq<byte>>) | Error

  /**
   The loop's variables, and what the outside has seen: `accepted` lists the requests
   in the order the loop took them, `replies[i]` what has been put into the reply
   channel of request i, `sent` the packets handed to the connection.
   */
  datatype Loop<H> = Loop(
    seqNo: nat, reqs: map<nat, nat>,
    accepted: seq<HermesRequest<H>>, replies: seq<seq<HermesResponse<H>>>, sent: seq<seq<byte>>)

  /** What the loop selects on; `sends` is whether writing to the connection succeeds. */
  datatype Event<H> =
    | Incoming(isMercuryReq: bool, payload: seq<byte>)
    | Outgoing(req: HermesRequest<H>, sends: bool)

  function Start<H>(): Loop<H> { Loop(0, map[], [], [], []) }

  function Decode<H>(c: Codec<H>, parts: seq<seq<byte>>): HermesResponse<H> {
    if parts == [] then Error
    else
      match c.unmarshal(parts[0])
      case None => Error
      case Some(h) => Answer(h, parts[1..])
  }

  /** Put a response into the channel of request `i`. */
  function Deliver<H>(l: Loop<H>, i: nat, r: HermesResponse<H>): Loop<H>
    requires i < |l.replies|
  {
    l.(replies := l.replies[i := l.replies[i] + [r]])
  }

  function OnPacket<H>(c: Codec<H>, l: Loop<H>, isMercuryReq: bool, payload: seq<byte>): Loop<H>
    requires Wired(l)
  {
    if !isMercuryReq then l
    else
      match Parse(payload)
      case Skipped => l
      case Reply(n, parts) =>
        if n !in l.reqs then l
        else Deliver(l.(reqs := l.reqs - {n}), l.reqs[n], Decode(c, parts))
  }

  /** The connection takes a packet that is not too big if writing succeeds. */
  predicate Takes(packet: seq<byte>, sends: bool) { |packet| <= ShannonConns.MAX_PAYLOAD && sends }

  function OnRequest<H>(c: Codec<H>, l: Loop<H>, req: HermesRequest<H>, sends: bool): Loop<H>
    requires Wired(l)
  {
    var i := |l.accepted|;
    var l' := l.(seqNo := if l.seqNo == TWO_TO_THE_64 - 1 then 0 else l.seqNo + 1,
                 accepted := l.accepted + [req], replies := l.replies + [[]]);
    match c.marshal(req.header)
    case None => Deliver(l', i, Error)
    case Some(header) =>
      var packet := Serialize(l.seqNo, header, req.parts);
      if !Takes(packet, sends) then Deliver(l'.(reqs := l.reqs - {l.seqNo}), i, Error)
      else l'.(reqs := l.reqs[l.seqNo := i], sent := l.sent + [packet])
  }

  function OnEvent<H>(c: Codec<H>, l: Loop<H>, e: Event<H>): Loop<H>
    requires Wired(l)
  {
    match e
    case Incoming(isMercuryReq, payload) => OnPacket(c, l, isMercuryReq, payload)
    case Outgoing(req, sends) => OnRequest(c, l, req, sends)
  }

  /** Every pending entry belongs to an accepted request. */
  ghost predicate Wired<H>(l: Loop<H>) {
    && |l.replies| == |l.accepted|
    && forall n :: n in l.reqs ==> l.reqs[n] < |l.accepted|
  }

  /**
   Fewer than 2^64 requests so far: the counter counts them, an entry is filed under the
   number of its request, and a request is pending exactly while nothing has been put
   into its channel; never is a second thing put there.
   */
  ghost predicate Inv<H>(l: Loop<H>) {
    && Wired(l)
    && |l.accepted| <= TWO_TO_THE_64
    && l.seqNo == (if |l.accepted| == TWO_TO_THE_64 then 0 else |l.accepted|)
    && (forall n :: n in l.reqs ==> l.reqs[n] == n)
    && (forall i :: 0 <= i < |l.replies| ==> |l.replies[i]| <= 1 && (i in l.reqs <==> l.replies[i] == []))
  }

  lemma DeliverFirst<H>(l: Loop<H>, i: nat, r: HermesResponse<H>)
    requires i < |l.replies| && l.replies[i] == []
    ensures Deliver(l, i, r) == l.(replies := l.replies[i := [r]])
  {
    assert l.replies[i] + [r] == [r];
  }

  lemma PacketInv<H>(c: Codec<H>, l: Loop<H>, isMercuryReq: bool, payload: seq<byte>)
    requires Inv(l)
    ensures Inv(OnPacket(c, l, isMercuryReq, payload))
  {
  }

  lemma RequestInv<H>(c: Codec<H>, l: Loop<H>, req: HermesRequest<H>, sends: bool)
    requires Inv(l) && |l.accepted| < TWO_TO_THE_64
    ensures Inv(OnRequest(c, l, req, sends))
  {
  }

  /**
   A response is given to the request whose number it carries, if that one is still waiting,
   and to no other; a packet of another type is given to none.
   */
  lemma ReplyReachesItsRequest<H>(c: Codec<H>, l: Loop<H>, isMercuryReq: bool, payload: seq<byte>)
    requires Inv(l)
    ensures var l' := OnPacket(c, l, isMercuryReq, payload);
            match Parse(payload)
            case Skipped => l' == l
            case Reply(n, parts) =>
              if isMercuryReq && n < |l.replies| && l.replies[n] == []
              then l' == l.(replies := l.replies[n := [Decode(c, parts)]], reqs := l.reqs - {n})
              else l' == l
  {
    match Parse(payload) {
      case Skipped =>
      case Reply(n, parts) =>
        if n in l.reqs {
          assert l.replies[n] + [Decode(c, parts)] == [Decode(c, parts)];
        }
    }
  }

  /**
   A request is left pending exactly if its header could be marshalled and the connection
   took its packet; its packet is then the one sent.  Else it is answered with an error at
   once, and nothing is sent.
   */
  lemma RequestOutcome<H>(c: Codec<H>, l: Loop<H>, req: HermesRequest<H>, sends: bool)
    requires Inv(l) && |l.accepted| < TWO_TO_THE_64
    ensures var l1, i := OnRequest(c, l, req, sends), |l.accepted|;
            && l1.accepted == l.accepted + [req] && |l1.replies| == i + 1
            && match c.marshal(req.header)
               case Some(h) =>
                 var packet := Serialize(l.seqNo, h, req.parts);
                 if |packet| <= 65535 && sends
                 then i in l1.reqs && l1.replies[i] == [] && l1.sent == l.sent + [packet]
                 else i !in l1.reqs && l1.replies[i] == [Error] && l1.sent == l.sent
               case None => i !in l1.reqs && l1.replies[i] == [Error] && l1.sent == l.sent
  {
    RequestInv(c, l, req, sends);
  }

  /** The channel a response is put into is always empty, so the loop never waits on a reply channel. */
  lemma NeverBlocks<H>(c: Codec<H>, l: Loop<H>, e: Event<H>, i: nat)
    requires Inv(l) && i < |l.replies|
    requires OnEvent(c, l, e).replies[i] != l.replies[i]
    ensures l.replies[i] == [] && |OnEvent(c, l, e).replies[i]| == 1
  {
  }

  /**
   A request whose packet has at most 65535 bytes is sent, and its packet carries its number,
   header and parts: sent back as it is, it is delivered to that very request, complete.  A
   larger one is not sent; the request is answered with an error at once.
   */
  lemma EchoReturns<H>(c: Codec<H>, l: Loop<H>, req: HermesRequest<H>, header: seq<byte>)
    requires Inv(l) && |l.accepted| < TWO_TO_THE_64
    requires c.marshal(req.header) == Some(header) && c.unmarshal(header) == Some(req.header)
    ensures var l1 := OnRequest(c, l, req, true);
            if |Serialize(l.seqNo, header, req.parts)| <= ShannonConns.MAX_PAYLOAD then
              && |l1.sent| == |l.sent| + 1
              && OnPacket(c, l1, true, l1.sent[|l.sent|]).replies ==
                 l1.replies[|l.accepted| := [Answer(req.header, req.parts)]]
            else
              l1.sent == l.sent && l.seqNo !in l1.reqs && l1.replies == l.replies + [[Error]]
  {
    var l1 := OnRequest(c, l, req, true);
    RequestInv(c, l, req, true);
    if |Serialize(l.seqNo, header, req.parts)| <= ShannonConns.MAX_PAYLOAD {
      SmallFits(l.seqNo, header, req.parts);
      ParseSerialize(l.seqNo, header, req.parts);
      ReplyReachesItsRequest(c, l1, true, l1.sent[|l.sent|]);
      assert ([header] + req.parts)[1..] == req.parts;
    } else {
      var error: seq<HermesResponse<H>> := [Error];
      assert [] + error == error;
      assert (l.replies + [[]])[|l.accepted| := error] == l.replies + [error];
    }
  }

  const MERCURY_REQ: byte := 0xb2

  /**
   A request over the encrypted connection, for every lawful cipher: it is taken exactly
   when header and payload are small enough for one packet, and then the receiver unframes
   that packet, its MAC matching, and reads sequence, header and payload out of it whole.
   */
  lemma RequestCarried<S(!new)>(
    c: ShannonConns.Shannon<S>, key: seq<byte>, link: ShannonConns.Link, seqNo: nat, header: seq<byte>, payload: seq<byte>)
    requires ShannonConns.Lawful(c) && seqNo < TWO_TO_THE_64
    ensures var p := ShannonConns.Packet(MERCURY_REQ, Serialize(seqNo, header, Split(payload)));
            var (link', ok) := ShannonConns.Send(c, key, link, p);
            && (ok <==> |header| + |payload| + (if payload == [] then 0 else 2) <= 65520)
            && (!ok ==> link' == link)
            && (ok ==>
                  && link.wire <= link'.wire
                  && ShannonConns.Unframe(c, key, link.sendNonce, link'.wire[|link.wire|..]).0 == ShannonConns.Ok(p)
                  && var r := Parse(p.payload);
                     r.Reply? && r.seqNo == seqNo && r.parts != [] && r.parts[0] == header && Join(r.parts[1..]) == payload)
  {
    hide ShannonConns.Lawful, ShannonConns.Frame, ShannonConns.Unframe, Serialize, Split, Parse, Join;
    var p := ShannonConns.Packet(MERCURY_REQ, Serialize(seqNo, header, Split(payload)));
    var link' := ShannonConns.Send(c, key, link, p).0;
    RequestSize(seqNo, header, payload);
    if |p.payload| <= ShannonConns.MAX_PAYLOAD {
      var frame := ShannonConns.Frame(c, key, link.sendNonce, p);
      assert link'.wire[|link.wire|..] == frame + [];
      ShannonConns.UnframeFrame(c, key, link.sendNonce, p, []);
      SmallFits(seqNo, header, Split(payload));
      PayloadRoundTrip(seqNo, header, payload);
    }
  }

  // ----- runs

  function Run<H>(c: Codec<H>, l: Loop<H>, es: seq<Event<H>>): (r: Loop<H>)
    requires Wired(l)
    ensures Wired(r)
    decreases |es|
  {
    if es == [] then l else Run(c, OnEvent(c, l, es[0]), es[1..])
  }

  function Requests<H>(es: seq<Event<H>>): nat {
    if es == [] then 0 else (if es[0].Outgoing? then 1 else 0) + Requests(es[1..])
  }

  /** What was put into a channel stays the only thing ever put there. */
  ghost predicate Answered<H>(l: Loop<H>, l': Loop<H>) {
    && |l.replies| <= |l'.replies|
    && l.accepted <= l'.accepted
    && forall i :: 0 <= i < |l.replies| && l.replies[i] != [] ==> l'.replies[i] == l.replies[i]
  }

  lemma EventInv<H>(c: Codec<H>, l: Loop<H>, e: Event<H>)
    requires Inv(l) && (e.Outgoing? ==> |l.accepted| < TWO_TO_THE_64)
    ensures Inv(OnEvent(c, l, e)) && Answered(l, OnEvent(c, l, e))
    ensures |OnEvent(c, l, e).accepted| == |l.accepted| + if e.Outgoing? then 1 else 0
  {
    match e {
      case Incoming(isMercuryReq, payload) => PacketInv(c, l, isMercuryReq, payload);
      case Outgoing(req, sends) => RequestInv(c, l, req, sends);
    }
  }

  lemma AnsweredTransitive<H>(k: Loop<H>, l: Loop<H>, m: Loop<H>)
    requires Answered(k, l) && Answered(l, m)
    ensures Answered(k, m)
  {
  }

  lemma {:induction false} RunInv<H>(c: Codec<H>, l: Loop<H>, es: seq<Event<H>>)
    requires Inv(l) && |l.accepted| + Requests(es) <= TWO_TO_THE_64
    ensures Inv(Run(c, l, es)) && Answered(l, Run(c, l, es))
    ensures |Run(c, l, es).accepted| == |l.accepted| + Requests(es)
    decreases |es|
  {
    hide OnEvent;
    if es != [] {
      var m := OnEvent(c, l, es[0]);
      EventInv(c, l, es[0]);
      RunInv(c, m, es[1..]);
      AnsweredTransitive(l, m, Run(c, l, es));
    }
  }

  /**
   Over every interleaving of requests, responses, duplicates, failed sends and garbage,
   up to 2^64 requests: pending numbers are below the number of requests, and each
   accepted request is either pending or has been answered exactly once.
   */
  lemma AnsweredExactlyOnce<H>(c: Codec<H>, es: seq<Event<H>>, i: nat)
    requires Requests(es) <= TWO_TO_THE_64
    ensures var l := Run(c, Start(), es);
            && |l.accepted| == Requests(es)
            && (|l.accepted| < TWO_TO_THE_64 ==> l.seqNo == |l.accepted|)
            && (i in l.reqs ==> i < |l.accepted|)
            && (i < |l.accepted| ==>
                  (i in l.reqs && l.replies[i] == []) || (i !in l.reqs && |l.replies[i]| == 1))
  {
    RunInv(c, Start(), es);
  }

  // ----- the loop object

  class RecvLoop<H> {
    const codec: Codec<H>
    var seqNo: nat
    var reqs: map<nat, nat>
    var accepted: seq<HermesRequest<H>>
    var replies: seq<seq<HermesResponse<H>>>
    var sent: seq<seq<byte>>

    constructor (codec: Codec<H>)
      ensures this.codec == codec && State() == Start()
    {
      this.codec, seqNo, reqs := codec, 0, map[];
      accepted, replies, sent := [], [], [];
    }

    ghost function State(): Loop<H>
      reads this
    {
      Loop(seqNo, reqs, accepted, replies, sent)
    }

    /** Send on a channel with one slot: it must be empty, or the loop would wait. */
    method Respond(i: nat, r: HermesResponse<H>)
      requires i < |replies| && replies[i] == []
      modifies this`replies
      ensures replies == old(replies)[i := [r]]
    {
      replies := replies[i := [r]];
    }

    method HandlePacket(isMercuryReq: bool, payload: seq<byte>)
      requires Inv(State())
      modifies this
      ensures Inv(State()) && State() == OnPacket(codec, old(State()), isMercuryReq, payload)
    {
      PacketInv(codec, State(), isMercuryReq, payload);
      if !isMercuryReq {
        return;
      }
      var seqLen, resp := ReadInt(payload, 2).0, ReadInt(payload, 2).1;
      if seqLen != 8 && seqLen != 4 && seqLen != 2 {
        return;
      }
      var respSeq, resp' := ReadInt(resp, seqLen).0, ReadInt(resp, seqLen).1;
      var flags, resp'' := ReadInt(resp', 1).0, ReadInt(resp', 1).1;
      if flags != 1 {
        return;
      }
      var partsCount, left := ReadInt(resp'', 2).0, ReadInt(resp'', 2).1;
      if respSeq !in reqs {
        return;
      }
      var req := reqs[respSeq];
      reqs := reqs - {respSeq};
      var parts := ReadParts(left, partsCount);
      assert replies[req] + [Decode(codec, parts)] == [Decode(codec, parts)];
      if |parts| == 0 {
        Respond(req, Error);
        return;
      }
      var header := codec.unmarshal(parts[0]);
      if header.None? {
        Respond(req, Error);
        return;
      }
      Respond(req, Answer(header.value, parts[1..]));
    }

    method HandleRequest(req: HermesRequest<H>, sends: bool)
      requires Inv(State()) && |accepted| < TWO_TO_THE_64
      modifies this
      ensures Inv(State()) && State() == OnRequest(codec, old(State()), req, sends)
    {
      RequestInv(codec, State(), req, sends);
      var reqSeq, i := seqNo, |accepted|;
      seqNo := if seqNo == TWO_TO_THE_64 - 1 then 0 else seqNo + 1;
      accepted, replies := accepted + [req], replies + [[]];
      DeliverFirst(State(), i, Error);
      DeliverFirst(State().(reqs := reqs - {reqSeq}), i, Error);

      var headerBytes := codec.marshal(req.header);
      if headerBytes.None? {
        Respond(i, Error);
        return;
      }
      var buf := SerializeRequest(reqSeq, headerBytes.value, req.parts);
      Dispatch(reqSeq, i, buf, sends);
    }

    /** File the request, hand the packet to the connection, and take it back if that fails. */
    method Dispatch(reqSeq: nat, i: nat, buf: seq<byte>, sends: bool)
      requires i < |replies| && replies[i] == []
      modifies this`reqs, this`replies, this`sent
      ensures Takes(buf, sends) ==> reqs == old(reqs)[reqSeq := i] && replies == old(replies) && sent == old(sent) + [buf]
      ensures !Takes(buf, sends) ==> reqs == old(reqs) - {reqSeq} && replies == old(replies)[i := [Error]] && sent == old(sent)
    {
      reqs := reqs[reqSeq := i];
      if !Takes(buf, sends) {
        reqs := reqs - {reqSeq};
        Respond(i, Error);
        return;
      }
      sent := sent + [buf];
    }
  }
}
