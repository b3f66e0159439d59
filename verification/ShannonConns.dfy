/**
 Framed packets over a stream cipher (ap/shannon.go): one nonce per packet on each
 side, a length in the header, a MAC behind the payload, and bytes that were peeked at
 before the first packet is received.
 */
module ShannonConns {
  import opened Positional

  /**
   The cipher, byte by byte: a keyed and nonced state, what encrypting or decrypting one
   byte does to it, and the MAC of what has passed through.
   */
  datatype Shannon<!S> = Shannon(
    nonce: (seq<byte>, nat) -> S,
    enc: (S, byte) -> (S, byte),
    dec: (S, byte) -> (S, byte),
    mac: S -> seq<byte>)

  const MAC_SIZE := 4
  const HEADER_SIZE := 3
  const MAX_PAYLOAD := 65535
  const NONCES := 0x1_0000_0000

  /** nonce++ on a uint32 */
  function Succ32(n: nat): nat { if n == NONCES - 1 then 0 else n + 1 }

  /** Decrypting an encrypted byte gives the byte and leads to the state the encryption led to. */
  ghost predicate Lawful<S(!new)>(c: Shannon<S>) {
    && (forall s: S, b: byte :: c.dec(s, c.enc(s, b).1) == (c.enc(s, b).0, b))
    && (forall s: S :: |c.mac(s)| == MAC_SIZE)
  }

  function Encrypt<S>(c: Shannon<S>, s: S, data: seq<byte>): (r: (S, seq<byte>))
    ensures |r.1| == |data|
  {
    if data == [] then (s, [])
    else
      var k := |data| - 1;
      var (t, out) := Encrypt(c, s, data[..k]);
      var (u, b) := c.enc(t, data[k]);
      (u, out + [b])
  }

  function Decrypt<S>(c: Shannon<S>, s: S, data: seq<byte>): (r: (S, seq<byte>))
    ensures |r.1| == |data|
  {
    if data == [] then (s, [])
    else
      var k := |data| - 1;
      var (t, out) := Decrypt(c, s, data[..k]);
      var (u, b) := c.dec(t, data[k]);
      (u, out + [b])
  }

  lemma {:induction false} DecryptEncrypt<S(!new)>(c: Shannon<S>, s: S, data: seq<byte>)
    requires Lawful(c)
    ensures Decrypt(c, s, Encrypt(c, s, data).1) == (Encrypt(c, s, data).0, data)
  {
    if data != [] {
      var k := |data| - 1;
      var (t, out) := Encrypt(c, s, data[..k]);
      DecryptEncrypt(c, s, data[..k]);
      assert Encrypt(c, s, data).1[..k] == out;
      assert data == data[..k] + [data[k]];
    }
  }

  /** The first byte goes through the cipher first, and the rest from the state it leads to. */
  lemma {:induction false} EncryptFront<S>(c: Shannon<S>, s: S, b: byte, rest: seq<byte>)
    ensures var (t, x) := c.enc(s, b);
            var (u, xs) := Encrypt(c, t, rest);
            Encrypt(c, s, [b] + rest) == (u, [x] + xs)
  {
    var data := [b] + rest;
    if rest == [] {
      var (t, x) := c.enc(s, b);
      assert data[..0] == [] && Encrypt(c, s, data[..0]) == (s, []);
      assert Encrypt(c, s, data) == (t, [] + [x]);
      assert [x] + Encrypt(c, t, rest).1 == [] + [x];
    } else {
      var k := |rest| - 1;
      assert data[..|rest|] == [b] + rest[..k];
      EncryptFront(c, s, b, rest[..k]);
      var (t, x) := c.enc(s, b);
      var (u, xs) := Encrypt(c, t, rest[..k]);
      var z := c.enc(u, rest[k]).1;
      assert Encrypt(c, s, data[..|rest|]) == (u, [x] + xs) && data[|rest|] == rest[k];
      assert [x] + xs + [z] == [x] + (xs + [z]);
    }
  }

  lemma {:induction false} DecryptFront<S>(c: Shannon<S>, s: S, b: byte, rest: seq<byte>)
    ensures var (t, x) := c.dec(s, b);
            var (u, xs) := Decrypt(c, t, rest);
            Decrypt(c, s, [b] + rest) == (u, [x] + xs)
  {
    var data := [b] + rest;
    if rest == [] {
      var (t, x) := c.dec(s, b);
      assert data[..0] == [] && Decrypt(c, s, data[..0]) == (s, []);
      assert Decrypt(c, s, data) == (t, [] + [x]);
      assert [x] + Decrypt(c, t, rest).1 == [] + [x];
    } else {
      var k := |rest| - 1;
      assert data[..|rest|] == [b] + rest[..k];
      DecryptFront(c, s, b, rest[..k]);
      var (t, x) := c.dec(s, b);
      var (u, xs) := Decrypt(c, t, rest[..k]);
      var z := c.dec(u, rest[k]).1;
      assert Decrypt(c, s, data[..|rest|]) == (u, [x] + xs) && data[|rest|] == rest[k];
      assert [x] + xs + [z] == [x] + (xs + [z]);
    }
  }

  /** Decrypting in two calls is decrypting in one. */
  lemma {:induction false} DecryptSplit<S>(c: Shannon<S>, s: S, a: seq<byte>, b: seq<byte>)
    ensures var (t, x) := Decrypt(c, s, a);
            var (u, y) := Decrypt(c, t, b);
            Decrypt(c, s, a + b) == (u, x + y)
  {
    if b == [] {
      assert a + b == a;
      assert Decrypt(c, s, a).1 + [] == Decrypt(c, s, a).1;
    } else {
      var k := |b| - 1;
      assert (a + b)[..|a + b| - 1] == a + b[..k];
      DecryptSplit(c, s, a, b[..k]);
      var x := Decrypt(c, s, a).1;
      var y := Decrypt(c, Decrypt(c, s, a).0, b[..k]).1;
      var z := c.dec(Decrypt(c, s, a + b[..k]).0, b[k]).1;
      assert x + y + [z] == x + (y + [z]);
    }
  }

  // ----- one packet

  datatype Packet = Packet(typ: byte, payload: seq<byte>)

  function Plain(p: Packet): seq<byte> {
    [p.typ] + Put16(|p.payload| % (MAX_PAYLOAD + 1)) + p.payload
  }

  /** What goes on the wire for one packet. */
  function Frame<S>(c: Shannon<S>, key: seq<byte>, nonce: nat, p: Packet): seq<byte> {
    var (s, text) := Encrypt(c, c.nonce(key, nonce), Plain(p));
    text + c.mac(s)
  }

  datatype Received = Ok(packet: Packet) | Short | BadMac

  /** Payload and MAC, once the header is decrypted and the cipher is in state `s`. */
  function UnframeBody<S>(c: Shannon<S>, s: S, header: seq<byte>, stream: seq<byte>): (r: (Received, nat))
    requires |header| == HEADER_SIZE
    ensures r.1 <= |stream|
  {
    var size := Get16(header[1..3]);
    if |stream| < size + MAC_SIZE then (Short, |stream|)
    else
      var (t, payload) := Decrypt(c, s, stream[..size]);
      var mac := stream[size..size + MAC_SIZE];
      if c.mac(t) != mac then (BadMac, size + MAC_SIZE)
      else (Ok(Packet(header[0], payload)), size + MAC_SIZE)
  }

  /** Take one packet off the front of a stream: the outcome and how many bytes were consumed. */
  function Unframe<S>(c: Shannon<S>, key: seq<byte>, nonce: nat, stream: seq<byte>): (r: (Received, nat))
    ensures r.1 <= |stream|
  {
    if |stream| < HEADER_SIZE then (Short, |stream|)
    else
      var (s, header) := Decrypt(c, c.nonce(key, nonce), stream[..HEADER_SIZE]);
      var (r, used) := UnframeBody(c, s, header, stream[HEADER_SIZE..]);
      (r, HEADER_SIZE + used)
  }

  /** Encrypting in one call and decrypting in two, at any cut, gives the text back and the same final state. */
  lemma OneEncryptTwoDecrypts<S(!new)>(c: Shannon<S>, s: S, plain: seq<byte>, cut: nat)
    requires Lawful(c) && cut <= |plain|
    ensures var (end, text) := Encrypt(c, s, plain);
            var (mid, first) := Decrypt(c, s, text[..cut]);
            first == plain[..cut] && Decrypt(c, mid, text[cut..]) == (end, plain[cut..])
  {
    var text := Encrypt(c, s, plain).1;
    DecryptEncrypt(c, s, plain);
    DecryptSplit(c, s, text[..cut], text[cut..]);
    assert text == text[..cut] + text[cut..];
    var (mid, first) := Decrypt(c, s, text[..cut]);
    var second := Decrypt(c, mid, text[cut..]).1;
    assert first == (first + second)[..cut] && second == (first + second)[cut..];
  }

  lemma PlainParts(p: Packet)
    requires |p.payload| <= MAX_PAYLOAD
    ensures |Plain(p)| == HEADER_SIZE + |p.payload| && Plain(p)[HEADER_SIZE..] == p.payload
    ensures Plain(p)[..HEADER_SIZE][0] == p.typ
    ensures Get16(Plain(p)[..HEADER_SIZE][1..3]) == |p.payload|
  {
    Get16Put16(|p.payload|);
    assert Plain(p)[..HEADER_SIZE][1..3] == Put16(|p.payload| % (MAX_PAYLOAD + 1));
  }

  /** The receiver with the sender's key and nonce gets the packet back, its MAC matching, and not a byte more. */
  lemma UnframeFrame<S(!new)>(c: Shannon<S>, key: seq<byte>, nonce: nat, p: Packet, rest: seq<byte>)
    requires Lawful(c) && |p.payload| <= MAX_PAYLOAD
    ensures Unframe(c, key, nonce, Frame(c, key, nonce, p) + rest) == (Ok(p), |Frame(c, key, nonce, p)|)
  {
    var (end, text) := Encrypt(c, c.nonce(key, nonce), Plain(p));
    PlainParts(p);
    OneEncryptTwoDecrypts(c, c.nonce(key, nonce), Plain(p), HEADER_SIZE);
    FrameParts(text, c.mac(end), rest);
  }

  lemma FrameParts(text: seq<byte>, mac: seq<byte>, rest: seq<byte>)
    requires |text| >= HEADER_SIZE && |mac| == MAC_SIZE
    ensures var stream, size := text + mac + rest, |text| - HEADER_SIZE;
            && stream[..HEADER_SIZE] == text[..HEADER_SIZE]
            && stream[HEADER_SIZE..][..size] == text[HEADER_SIZE..]
            && stream[HEADER_SIZE..][size..size + MAC_SIZE] == mac
  {
    var stream, size := text + mac + rest, |text| - HEADER_SIZE;
    var tail := stream[HEADER_SIZE..];
    assert tail == text[HEADER_SIZE..] + mac + rest;
    assert tail[..size] == text[HEADER_SIZE..];
    assert tail[size..size + MAC_SIZE] == mac;
  }

  /** What is on the wire: type, length and payload, encrypted in one piece, and the MAC of the state that leads to. */
  lemma FrameLayout<S(!new)>(c: Shannon<S>, key: seq<byte>, nonce: nat, p: Packet)
    requires Lawful(c) && |p.payload| <= MAX_PAYLOAD
    ensures var f := Frame(c, key, nonce, p);
            && |f| == 7 + |p.payload|
            && var (end, plain) := Decrypt(c, c.nonce(key, nonce), f[..|f| - 4]);
               && plain == [p.typ, |p.payload| / 256, |p.payload| % 256] + p.payload
               && f[|f| - 4..] == c.mac(end)
  {
    var (end, text) := Encrypt(c, c.nonce(key, nonce), Plain(p));
    DecryptEncrypt(c, c.nonce(key, nonce), Plain(p));
    var f := Frame(c, key, nonce, p);
    assert f[..|f| - 4] == text && f[|f| - 4..] == c.mac(end);
  }

  /** Whatever four bytes stand behind the text of a packet: it is taken exactly if they are its MAC. */
  lemma UnframeChecksMac<S(!new)>(c: Shannon<S>, key: seq<byte>, nonce: nat, p: Packet, mac: seq<byte>, rest: seq<byte>)
    requires Lawful(c) && |p.payload| <= MAX_PAYLOAD && |mac| == MAC_SIZE
    ensures var (end, text) := Encrypt(c, c.nonce(key, nonce), Plain(p));
            Unframe(c, key, nonce, text + mac + rest) ==
            (if mac == c.mac(end) then Ok(p) else BadMac, |text| + MAC_SIZE)
  {
    var (end, text) := Encrypt(c, c.nonce(key, nonce), Plain(p));
    PlainParts(p);
    OneEncryptTwoDecrypts(c, c.nonce(key, nonce), Plain(p), HEADER_SIZE);
    FrameParts(text, mac, rest);
  }

  /** A frame cut short anywhere is not received, and what there is of it is used up. */
  lemma UnframeShort<S(!new)>(c: Shannon<S>, key: seq<byte>, nonce: nat, p: Packet, k: nat)
    requires Lawful(c) && |p.payload| <= MAX_PAYLOAD && k < |Frame(c, key, nonce, p)|
    ensures Unframe(c, key, nonce, Frame(c, key, nonce, p)[..k]) == (Short, k)
  {
    var text := Encrypt(c, c.nonce(key, nonce), Plain(p)).1;
    PlainParts(p);
    OneEncryptTwoDecrypts(c, c.nonce(key, nonce), Plain(p), HEADER_SIZE);
    if k >= HEADER_SIZE {
      assert Frame(c, key, nonce, p)[..k][..HEADER_SIZE] == text[..HEADER_SIZE];
    }
  }

  // ----- one direction of a connection

  /**
   The sender's nonce, the bytes in flight, what the receiver has peeked at but not
   used, and the receiver's nonce.
   */
  datatype Link = Link(sendNonce: nat, wire: seq<byte>, unread: seq<byte>, recvNonce: nat)

  /** A packet that is too big is refused before anything changes. */
  function Send<S>(c: Shannon<S>, key: seq<byte>, l: Link, p: Packet): (Link, bool) {
    if |p.payload| > MAX_PAYLOAD then (l, false)
    else (l.(wire := l.wire + Frame(c, key, l.sendNonce, p), sendNonce := Succ32(l.sendNonce)), true)
  }

  /** Read `count` bytes ahead; calling it with bytes still unread panics. */
  function Peek(l: Link, count: nat): (Link, bool)
    requires l.unread == []
  {
    if |l.wire| < count then (l.(wire := []), false)
    else (l.(unread := l.wire[..count], wire := l.wire[count..]), true)
  }

  /** Drop `n` bytes from the unread ones first, then from the wire. */
  function Consume(l: Link, n: nat): Link
    requires n <= |l.unread| + |l.wire|
  {
    if n <= |l.unread| then l.(unread := l.unread[n..])
    else l.(unread := [], wire := l.wire[n - |l.unread|..])
  }

  lemma ConsumeStream(l: Link, n: nat)
    requires n <= |l.unread| + |l.wire|
    ensures Consume(l, n).unread + Consume(l, n).wire == (l.unread + l.wire)[n..]
  {
  }

  lemma ConsumeTwice(l: Link, m: nat, n: nat)
    requires m + n <= |l.unread| + |l.wire|
    ensures |Consume(l, m).unread| + |Consume(l, m).wire| == |l.unread| + |l.wire| - m
    ensures Consume(Consume(l, m), n) == Consume(l, m + n)
  {
  }

  function Receive<S>(c: Shannon<S>, key: seq<byte>, l: Link): (Link, Received) {
    var (r, used) := Unframe(c, key, l.recvNonce, l.unread + l.wire);
    (Consume(l.(recvNonce := Succ32(l.recvNonce)), used), r)
  }

  /**
   A receive over any bytes counts its nonce up, whatever comes of it, and takes from the
   unread bytes first and then from the wire exactly what it consumed.
   */
  lemma ReceiveTakes<S>(c: Shannon<S>, key: seq<byte>, l: Link)
    ensures var (l', r) := Receive(c, key, l);
            var (r', used) := Unframe(c, key, l.recvNonce, l.unread + l.wire);
            && r == r' && l'.recvNonce == Succ32(l.recvNonce) && l'.sendNonce == l.sendNonce
            && l'.unread + l'.wire == (l.unread + l.wire)[used..]
            && (l.unread == [] ==> l'.unread == [])
  {
    ConsumeStream(l.(recvNonce := Succ32(l.recvNonce)), Unframe(c, key, l.recvNonce, l.unread + l.wire).1);
  }

  /** A packet whose MAC has been tampered with is refused, and the one behind it stays in place. */
  lemma ReceiveChecksMac<S(!new)>(c: Shannon<S>, key: seq<byte>, l: Link, p: Packet, mac: seq<byte>, rest: seq<byte>)
    requires Lawful(c) && |p.payload| <= MAX_PAYLOAD && |mac| == MAC_SIZE
    requires l.unread + l.wire == Encrypt(c, c.nonce(key, l.recvNonce), Plain(p)).1 + mac + rest
    ensures var (l', r) := Receive(c, key, l);
            && r == (if mac == c.mac(Encrypt(c, c.nonce(key, l.recvNonce), Plain(p)).0) then Ok(p) else BadMac)
            && l'.unread + l'.wire == rest && l'.recvNonce == Succ32(l.recvNonce)
  {
    var text := Encrypt(c, c.nonce(key, l.recvNonce), Plain(p)).1;
    UnframeChecksMac(c, key, l.recvNonce, p, mac, rest);
    ReceiveTakes(c, key, l);
    assert (text + mac + rest)[|text| + MAC_SIZE..] == rest;
  }

  /** A peek succeeds exactly if the bytes are there, and then keeps the first `count` of them aside. */
  lemma PeekShows(l: Link, count: nat)
    requires l.unread == []
    ensures var (l', ok) := Peek(l, count);
            && (ok <==> count <= |l.wire|)
            && (ok ==> |l'.unread| == count && l'.unread + l'.wire == l.wire)
            && l'.sendNonce == l.sendNonce && l'.recvNonce == l.recvNonce
  {
  }

  /** What is received does not depend on having peeked. */
  lemma PeekThenReceive<S>(c: Shannon<S>, key: seq<byte>, l: Link, count: nat)
    requires l.unread == [] && count <= |l.wire|
    ensures var (p, q) := (Receive(c, key, Peek(l, count).0), Receive(c, key, l));
            p.1 == q.1 && p.0.unread + p.0.wire == q.0.unread + q.0.wire && p.0.recvNonce == q.0.recvNonce
  {
    var l' := Peek(l, count).0;
    assert l'.unread + l'.wire == l.unread + l.wire;
    ReceiveTakes(c, key, l);
    ReceiveTakes(c, key, l');
  }

  // ----- runs of both ends

  datatype Op = OpSend(packet: Packet) | OpReceive | OpPeek(count: nat)

  /** Both ends together with what has been accepted for sending and what has been received. */
  datatype Session = Session(link: Link, sent: seq<Packet>, got: seq<Received>)

  /** A step that neither panics nor waits for bytes that are not there yet. */
  predicate Enabled(x: Session, op: Op) {
    match op
    case OpSend(_) => true
    case OpReceive => |x.got| < |x.sent|
    case OpPeek(count) => x.link.unread == [] && count <= |x.link.wire|
  }

  function Step<S>(c: Shannon<S>, key: seq<byte>, x: Session, op: Op): Session
    requires Enabled(x, op)
  {
    match op
    case OpSend(p) =>
      var (l, ok) := Send(c, key, x.link, p);
      Session(l, if ok then x.sent + [p] else x.sent, x.got)
    case OpReceive =>
      var (l, r) := Receive(c, key, x.link);
      Session(l, x.sent, x.got + [r])
    case OpPeek(count) => x.(link := Peek(x.link, count).0)
  }

  predicate IsRun<S>(c: Shannon<S>, key: seq<byte>, x: Session, ops: seq<Op>)
    decreases |ops|
  {
    ops == [] || (Enabled(x, ops[0]) && IsRun(c, key, Step(c, key, x, ops[0]), ops[1..]))
  }

  function After<S>(c: Shannon<S>, key: seq<byte>, x: Session, ops: seq<Op>): Session
    requires IsRun(c, key, x, ops)
    decreases |ops|
  {
    if ops == [] then x else After(c, key, Step(c, key, x, ops[0]), ops[1..])
  }

  /** The frames of packets numbered from `first` on, each under the nonce of its number. */
  function Frames<S>(c: Shannon<S>, key: seq<byte>, first: nat, ps: seq<Packet>): seq<byte>
    decreases |ps|
  {
    if ps == [] then [] else Frame(c, key, first % NONCES, ps[0]) + Frames(c, key, first + 1, ps[1..])
  }

  lemma {:induction false} FramesSnoc<S>(c: Shannon<S>, key: seq<byte>, first: nat, ps: seq<Packet>, p: Packet)
    ensures Frames(c, key, first, ps + [p]) ==
            Frames(c, key, first, ps) + Frame(c, key, (first + |ps|) % NONCES, p)
    decreases |ps|
  {
    if ps == [] {
      assert ps + [p] == [p] && [p][1..] == [];
      assert Frames(c, key, first + 1, []) == [];
    } else {
      assert (ps + [p])[1..] == ps[1..] + [p];
      FramesSnoc(c, key, first + 1, ps[1..], p);
    }
  }

  /** What has been received is what was sent first, and the nonces are the packet counts modulo 2^32. */
  ghost predicate InStep(x: Session) {
    && |x.got| <= |x.sent|
    && (forall i :: 0 <= i < |x.sent| ==> |x.sent[i].payload| <= MAX_PAYLOAD)
    && (forall i :: 0 <= i < |x.got| ==> x.got[i] == Ok(x.sent[i]))
    && x.link.sendNonce == |x.sent| % NONCES
    && x.link.recvNonce == |x.got| % NONCES
  }

  /** What is unread and in flight is exactly the frames of the packets not yet received. */
  ghost predicate Inv<S>(c: Shannon<S>, key: seq<byte>, x: Session) {
    && InStep(x)
    && x.link.unread + x.link.wire == Frames(c, key, |x.got|, x.sent[|x.got|..])
  }

  lemma NonceStep(n: nat)
    ensures Succ32(n % NONCES) == (n + 1) % NONCES
  {
  }

  lemma SendInv<S>(c: Shannon<S>, key: seq<byte>, x: Session, p: Packet)
    requires Inv(c, key, x)
    ensures Inv(c, key, Step(c, key, x, OpSend(p)))
  {
    if |p.payload| <= MAX_PAYLOAD {
      FramesSent(c, key, x, p);
      SentInStep(x, p, x.link.wire + Frame(c, key, x.link.sendNonce, p));
    }
  }

  lemma SentInStep(x: Session, p: Packet, wire: seq<byte>)
    requires InStep(x) && |p.payload| <= MAX_PAYLOAD
    ensures InStep(Session(x.link.(wire := wire, sendNonce := Succ32(x.link.sendNonce)), x.sent + [p], x.got))
  {
    NonceStep(|x.sent|);
  }

  lemma FramesSent<S>(c: Shannon<S>, key: seq<byte>, x: Session, p: Packet)
    requires |x.got| <= |x.sent| && x.link.sendNonce == |x.sent| % NONCES
    requires x.link.unread + x.link.wire == Frames(c, key, |x.got|, x.sent[|x.got|..])
    ensures x.link.unread + (x.link.wire + Frame(c, key, x.link.sendNonce, p)) ==
            Frames(c, key, |x.got|, (x.sent + [p])[|x.got|..])
  {
    var n, f := |x.got|, Frame(c, key, x.link.sendNonce, p);
    FramesSnoc(c, key, n, x.sent[n..], p);
    assert (x.sent + [p])[n..] == x.sent[n..] + [p];
    assert x.link.unread + (x.link.wire + f) == (x.link.unread + x.link.wire) + f;
  }

  lemma ReceiveInv<S(!new)>(c: Shannon<S>, key: seq<byte>, x: Session)
    requires Lawful(c) && Inv(c, key, x) && |x.got| < |x.sent|
    ensures Inv(c, key, Step(c, key, x, OpReceive))
  {
    hide Unframe, Frame, Lawful;
    var n, l := |x.got|, x.link;
    var p, rest := x.sent[n], Frames(c, key, n + 1, x.sent[n + 1..]);
    assert x.sent[n..][0] == p && x.sent[n..][1..] == x.sent[n + 1..];
    UnframeFrame(c, key, l.recvNonce, p, rest);
    NonceStep(n);
    var used := |Frame(c, key, l.recvNonce, p)|;
    assert l.unread + l.wire == Frame(c, key, l.recvNonce, p) + rest;
    ConsumeStream(l.(recvNonce := Succ32(l.recvNonce)), used);
    assert (Frame(c, key, l.recvNonce, p) + rest)[used..] == rest;
  }

  lemma PeekInv<S>(c: Shannon<S>, key: seq<byte>, x: Session, count: nat)
    requires Inv(c, key, x) && Enabled(x, OpPeek(count))
    ensures Inv(c, key, Step(c, key, x, OpPeek(count)))
  {
    assert x.link.wire[..count] + x.link.wire[count..] == [] + x.link.wire;
  }

  lemma {:induction false} RunInv<S(!new)>(c: Shannon<S>, key: seq<byte>, x: Session, ops: seq<Op>)
    requires Lawful(c) && Inv(c, key, x) && IsRun(c, key, x, ops)
    ensures Inv(c, key, After(c, key, x, ops))
    decreases |ops|
  {
    if ops != [] {
      match ops[0] {
        case OpSend(p) => SendInv(c, key, x, p);
        case OpReceive => ReceiveInv(c, key, x);
        case OpPeek(count) => PeekInv(c, key, x, count);
      }
      RunInv(c, key, Step(c, key, x, ops[0]), ops[1..]);
    }
  }

  const FRESH := Session(Link(0, [], [], 0), [], [])

  /**
   Over every run of sends, receives and peeks: the k-th receive returns the k-th packet
   sent, so no MAC check ever fails; the nonces stay in step across 32-bit wrap-around;
   and what is peeked at is neither lost nor reordered.
   */
  lemma FifoDelivery<S(!new)>(c: Shannon<S>, key: seq<byte>, ops: seq<Op>)
    requires Lawful(c) && IsRun(c, key, FRESH, ops)
    ensures var x := After(c, key, FRESH, ops);
            && |x.got| <= |x.sent|
            && (forall k :: 0 <= k < |x.got| ==> x.got[k] == Ok(x.sent[k]))
            && x.link.sendNonce == |x.sent| % NONCES && x.link.recvNonce == |x.got| % NONCES
            && x.link.unread + x.link.wire == Frames(c, key, |x.got|, x.sent[|x.got|..])
  {
    RunInv(c, key, FRESH, ops);
  }

  // ----- the connection object

  class Pipe {
    var data: seq<byte>

    constructor ()
      ensures data == []
    {
      data := [];
    }

    method Write(bytes: seq<byte>)
      modifies this
      ensures data == old(data) + bytes
    {
      data := data + bytes;
    }
  }

  class CipherState<S> {
    const c: Shannon<S>
    const key: seq<byte>
    var s: S

    constructor (c: Shannon<S>, key: seq<byte>)
      ensures this.c == c && this.key == key
    {
      this.c, this.key, this.s := c, key, c.nonce(key, 0);
    }

    method NonceU32(n: nat)
      modifies this
      ensures s == c.nonce(key, n)
    {
      s := c.nonce(key, n);
    }

    method EncryptBytes(data: seq<byte>) returns (r: seq<byte>)
      modifies this
      ensures (s, r) == Encrypt(c, old(s), data)
    {
      r := [];
      for i := 0 to |data|
        invariant (s, r) == Encrypt(c, old(s), data[..i])
      {
        assert data[..i + 1][..i] == data[..i];
        var (t, b) := c.enc(s, data[i]);
        s, r := t, r + [b];
      }
      assert data[..|data|] == data;
    }

    method DecryptBytes(data: seq<byte>) returns (r: seq<byte>)
      modifies this
      ensures (s, r) == Decrypt(c, old(s), data)
    {
      r := [];
      for i := 0 to |data|
        invariant (s, r) == Decrypt(c, old(s), data[..i])
      {
        assert data[..i + 1][..i] == data[..i];
        var (t, b) := c.dec(s, data[i]);
        s, r := t, r + [b];
      }
      assert data[..|data|] == data;
    }
  }

  class ShannonConn<S> {
    const outgoing: Pipe
    const incoming: Pipe
    const sendCipher: CipherState<S>
    const recvCipher: CipherState<S>
    var sendNonce: nat
    var recvNonce: nat
    var unreadBytes: seq<byte>

    constructor (c: Shannon<S>, sendKey: seq<byte>, recvKey: seq<byte>, outgoing: Pipe, incoming: Pipe)
      requires outgoing != incoming
      ensures Wired() && fresh(sendCipher) && fresh(recvCipher)
      ensures this.outgoing == outgoing && this.incoming == incoming
      ensures sendCipher.c == recvCipher.c == c && sendCipher.key == sendKey && recvCipher.key == recvKey
      ensures sendNonce == 0 && recvNonce == 0 && unreadBytes == []
    {
      this.outgoing, this.incoming := outgoing, incoming;
      sendCipher := new CipherState(c, sendKey);
      recvCipher := new CipherState(c, recvKey);
      sendNonce, recvNonce, unreadBytes := 0, 0, [];
    }

    ghost predicate Wired() {
      outgoing != incoming && sendCipher != recvCipher
    }

    method SendPacket(p: Packet) returns (ok: bool)
      requires Wired()
      modifies this`sendNonce, sendCipher, outgoing
      ensures var before := Link(old(sendNonce), old(outgoing.data), [], 0);
              (Link(sendNonce, outgoing.data, [], 0), ok) == Send(sendCipher.c, sendCipher.key, before, p)
    {
      if |p.payload| > MAX_PAYLOAD {
        return false;
      }
      var packet := [p.typ] + Put16(|p.payload| % (MAX_PAYLOAD + 1)) + p.payload;
      sendCipher.NonceU32(sendNonce);
      sendNonce := Succ32(sendNonce);
      packet := sendCipher.EncryptBytes(packet);
      var mac := sendCipher.c.mac(sendCipher.s);
      ghost var wire := outgoing.data;
      outgoing.Write(packet);
      outgoing.Write(mac);
      assert wire + packet + mac == wire + (packet + mac);
      return true;
    }

    method PeekUnencrypted(count: nat) returns (r: seq<byte>, ok: bool)
      requires Wired() && unreadBytes == []
      modifies this`unreadBytes, incoming
      ensures var before := Link(0, old(incoming.data), [], old(recvNonce));
              (Link(0, incoming.data, unreadBytes, recvNonce), ok) == Peek(before, count)
      ensures ok ==> r == unreadBytes
    {
      if |incoming.data| < count {
        incoming.data := [];
        return [], false;
      }
      r := incoming.data[..count];
      incoming.data := incoming.data[count..];
      unreadBytes := r;
      return r, true;
    }

    /** io.ReadFull on the unread bytes followed by the connection. */
    method ReadFull(n: nat) returns (r: seq<byte>, ok: bool)
      requires Wired()
      modifies this`unreadBytes, incoming
      ensures ok == (n <= |old(unreadBytes + incoming.data)|)
      ensures ok ==> r == old(unreadBytes + incoming.data)[..n]
      ensures var before := Link(0, old(incoming.data), old(unreadBytes), 0);
              Link(0, incoming.data, unreadBytes, 0) ==
              Consume(before, if ok then n else |before.unread| + |before.wire|)
    {
      if n <= |unreadBytes| {
        r := unreadBytes[..n];
        unreadBytes := unreadBytes[n..];
        return r, true;
      }
      var more := n - |unreadBytes|;
      if more > |incoming.data| {
        unreadBytes, incoming.data := [], [];
        return [], false;
      }
      r := unreadBytes + incoming.data[..more];
      unreadBytes, incoming.data := [], incoming.data[more..];
      return r, true;
    }

    method ReceivePacket() returns (r: Received)
      requires Wired()
      modifies this`recvNonce, this`unreadBytes, recvCipher, incoming
      ensures var before := Link(0, old(incoming.data), old(unreadBytes), old(recvNonce));
              (Link(0, incoming.data, unreadBytes, recvNonce), r) ==
              Receive(recvCipher.c, recvCipher.key, before)
    {
      ghost var l := Link(0, incoming.data, unreadBytes, 0);
      recvCipher.NonceU32(recvNonce);
      recvNonce := Succ32(recvNonce);

      var packetHeader, ok := ReadFull(HEADER_SIZE);
      if !ok {
        return Short;
      }
      ConsumeStream(l, HEADER_SIZE);
      packetHeader := recvCipher.DecryptBytes(packetHeader);
      ghost var body := UnframeBody(recvCipher.c, recvCipher.s, packetHeader, (l.unread + l.wire)[HEADER_SIZE..]);
      assert Unframe(recvCipher.c, recvCipher.key, old(recvNonce), l.unread + l.wire) ==
             (body.0, HEADER_SIZE + body.1);
      r := ReceiveBody(packetHeader);
      ConsumeTwice(l, HEADER_SIZE, body.1);
    }

    /** The part of receivePacket after the header. */
    method ReceiveBody(packetHeader: seq<byte>) returns (r: Received)
      requires Wired() && |packetHeader| == HEADER_SIZE
      modifies this`unreadBytes, recvCipher, incoming
      ensures var before := Link(0, old(incoming.data), old(unreadBytes), 0);
              var (x, used) := UnframeBody(recvCipher.c, old(recvCipher.s), packetHeader, before.unread + before.wire);
              r == x && Link(0, incoming.data, unreadBytes, 0) == Consume(before, used)
    {
      ghost var stream, l := unreadBytes + incoming.data, Link(0, incoming.data, unreadBytes, 0);
      var payloadLen := Get16(packetHeader[1..3]);
      var payload, ok := ReadFull(payloadLen);
      if !ok {
        return Short;
      }
      ConsumeStream(l, payloadLen);
      payload := recvCipher.DecryptBytes(payload);

      ConsumeTwice(l, payloadLen, |stream| - payloadLen);
      var expectedMac;
      expectedMac, ok := ReadFull(MAC_SIZE);
      if !ok {
        return Short;
      }
      ConsumeTwice(l, payloadLen, MAC_SIZE);
      if recvCipher.c.mac(recvCipher.s) != expectedMac {
        return BadMac;
      }
      return Ok(Packet(packetHeader[0], payload));
    }
  }
}
