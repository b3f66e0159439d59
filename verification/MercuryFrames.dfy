/**
 The bytes of a Mercury request and response (mercury/client.go): a sequence number,
 flags, a part count and length-prefixed parts.  Lengths are written truncated to 16 bits,
 which the bound on packets keeps from doing harm; reads past the end leave zeros.
 */
module MercuryFrames {
  import opened Common
  import opened Positional

  const PART_SIZE := 0xffff
  const LIMIT_16 := 0x1_0000

  // ----- payload and parts

  /** The payload cut into parts of 0xffff bytes, the last one shorter. */
  function Split(payload: seq<byte>): (parts: seq<seq<byte>>)
    ensures forall i :: 0 <= i < |parts| ==> 0 < |parts[i]| <= PART_SIZE
    ensures |parts| == (|payload| + PART_SIZE - 1) / PART_SIZE
  {
    if payload == [] then []
    else if |payload| <= PART_SIZE then [payload]
    else [payload[..PART_SIZE]] + Split(payload[PART_SIZE..])
  }

  function Join(parts: seq<seq<byte>>): seq<byte> {
    if parts == [] then [] else parts[0] + Join(parts[1..])
  }

  lemma {:induction false} JoinSplit(payload: seq<byte>)
    ensures Join(Split(payload)) == payload
  {
    if payload == [] {
    } else if |payload| <= PART_SIZE {
      assert [payload][1..] == [];
      assert payload + Join([]) == payload;
    } else {
      JoinSplit(payload[PART_SIZE..]);
      assert Split(payload)[1..] == Split(payload[PART_SIZE..]);
    }
  }

  lemma {:induction false} JoinSnoc(parts: seq<seq<byte>>, last: seq<byte>)
    ensures Join(parts + [last]) == Join(parts) + last
  {
    if parts == [] {
      assert parts + [last] == [last] && [last][1..] == [];
      assert last + Join([]) == Join([]) + last;
    } else {
      assert (parts + [last])[1..] == parts[1..] + [last];
      JoinSnoc(parts[1..], last);
    }
  }

  method SplitPayload(payload: seq<byte>) returns (parts: seq<seq<byte>>)
    ensures parts == Split(payload)
  {
    parts := [];
    var i := 0;
    while i < |payload|
      invariant 0 <= i
      invariant i <= |payload| ==> parts + Split(payload[i..]) == Split(payload)
      invariant i > |payload| ==> parts == Split(payload)
    {
      ghost var rest := payload[i..];
      var part := payload[i..Min(|payload|, i + PART_SIZE)];
      if i + PART_SIZE < |payload| {
        assert rest[..PART_SIZE] == part && rest[PART_SIZE..] == payload[i + PART_SIZE..];
        assert parts + ([part] + Split(payload[i + PART_SIZE..])) == (parts + [part]) + Split(payload[i + PART_SIZE..]);
      } else {
        assert part == rest;
        assert i + PART_SIZE == |payload| ==> Split(payload[i + PART_SIZE..]) == [];
      }
      parts := parts + [part];
      i := i + PART_SIZE;
    }
    assert i == |payload| ==> Split(payload[i..]) == [];
  }

  method JoinParts(parts: seq<seq<byte>>) returns (payload: seq<byte>)
    ensures payload == Join(parts)
  {
    payload := [];
    for i := 0 to |parts|
      invariant payload == Join(parts[..i])
    {
      JoinSnoc(parts[..i], parts[i]);
      assert parts[..i + 1] == parts[..i] + [parts[i]];
      payload := payload + parts[i];
    }
    assert parts[..|parts|] == parts;
  }

  // ----- writing

  /** uint16(n) */
  function Low16(n: nat): (r: nat)
    ensures r < LIMIT_16 && (n < LIMIT_16 ==> r == n)
  {
    n % LIMIT_16
  }

  function PutParts(parts: seq<seq<byte>>): seq<byte> {
    if parts == [] then [] else Put16(Low16(|parts[0]|)) + parts[0] + PutParts(parts[1..])
  }

  /** Sequence length, sequence, flags and part count. */
  function Preamble(seqNo: nat, count: nat): (r: seq<byte>)
    ensures |r| == 13
  {
    Put16(8) + Fixed(256, seqNo, 8) + [1] + Put16(Low16(count))
  }

  function Serialize(seqNo: nat, header: seq<byte>, parts: seq<seq<byte>>): seq<byte> {
    Preamble(seqNo, 1 + |parts|) + PutParts([header] + parts)
  }

  lemma {:induction false} PutPartsSnoc(parts: seq<seq<byte>>, last: seq<byte>)
    ensures PutParts(parts + [last]) == PutParts(parts) + (Put16(Low16(|last|)) + last)
  {
    if parts == [] {
      assert parts + [last] == [last] && [last][1..] == [];
      assert PutParts([]) == [];
    } else {
      assert (parts + [last])[1..] == parts[1..] + [last];
      PutPartsSnoc(parts[1..], last);
    }
  }

  method SerializeRequest(seqNo: nat, header: seq<byte>, parts: seq<seq<byte>>) returns (buf: seq<byte>)
    ensures buf == Serialize(seqNo, header, parts)
  {
    buf := Put16(8);
    buf := buf + Fixed(256, seqNo, 8);
    buf := buf + [1];
    buf := buf + Put16(Low16(1 + |parts|));
    ghost var front := buf;
    buf := buf + Put16(Low16(|header|));
    buf := buf + header;
    PutPartsSnoc([], header);
    assert [] + [header] == [header];
    for i := 0 to |parts|
      invariant buf == front + PutParts([header] + parts[..i])
    {
      PutPartsSnoc([header] + parts[..i], parts[i]);
      assert [header] + parts[..i] + [parts[i]] == [header] + parts[..i + 1];
      buf := buf + Put16(Low16(|parts[i]|));
      buf := buf + parts[i];
    }
    assert parts[..|parts|] == parts;
  }

  // ----- reading

  /** binary.Read of a `w`-byte integer with its error ignored: short input gives zero and is used up. */
  function ReadInt(s: seq<byte>, w: nat): (r: (nat, seq<byte>))
    ensures w <= |s| ==> r.1 == s[w..]
  {
    if w <= |s| then (Value(256, s[..w]), s[w..]) else (0, [])
  }

  /** A part of `n` bytes, zero filled if the input ends early. */
  function ReadPart(s: seq<byte>, n: nat): (seq<byte>, seq<byte>) {
    var m := Min(n, |s|);
    (s[..m] + seq(n - m, _ => 0), s[m..])
  }

  function GetParts(s: seq<byte>, n: nat): (parts: seq<seq<byte>>)
    ensures |parts| == n
    decreases n
  {
    if n == 0 then []
    else
      var (size, rest) := ReadInt(s, 2);
      var (part, rest') := ReadPart(rest, size);
      [part] + GetParts(rest', n - 1)
  }

  datatype Parsed = Skipped | Reply(seqNo: nat, parts: seq<seq<byte>>)

  function ParseTail(seqNo: nat, s: seq<byte>): Parsed {
    var (flags, s') := ReadInt(s, 1);
    if flags != 1 then Skipped
    else
      var (count, s'') := ReadInt(s', 2);
      Reply(seqNo, GetParts(s'', count))
  }

  function Parse(s: seq<byte>): Parsed {
    var (seqLen, s') := ReadInt(s, 2);
    if seqLen != 8 && seqLen != 4 && seqLen != 2 then Skipped
    else
      var (seqNo, s'') := ReadInt(s', seqLen);
      ParseTail(seqNo, s'')
  }

  /** The loop over the parts, reading from the front of what is left. */
  method ReadParts(s: seq<byte>, count: nat) returns (parts: seq<seq<byte>>)
    ensures parts == GetParts(s, count)
  {
    parts := [];
    var left := s;
    for i := 0 to count
      invariant parts + GetParts(left, count - i) == GetParts(s, count)
    {
      var (partLen, rest) := ReadInt(left, 2);
      var (part, rest') := ReadPart(rest, partLen);
      assert parts + ([part] + GetParts(rest', count - i - 1)) == (parts + [part]) + GetParts(rest', count - i - 1);
      parts, left := parts + [part], rest';
    }
    assert parts + [] == parts;
  }

  // ----- what reading makes of what was written

  lemma ReadInt16(n: nat, rest: seq<byte>)
    requires n < LIMIT_16
    ensures ReadInt(Put16(n) + rest, 2) == (n, rest)
  {
    var s := Put16(n) + rest;
    assert s[..2] == [n / 256, n % 256] && s[2..] == rest;
    ValueSnoc(256, [n / 256], n % 256);
    ValueSnoc(256, [], n / 256);
    assert [] + [n / 256] == [n / 256] && [n / 256] + [n % 256] == [n / 256, n % 256];
  }

  lemma ReadFixed(w: nat, n: nat, rest: seq<byte>)
    requires n < Pow(256, w)
    ensures ReadInt(Fixed(256, n, w) + rest, w) == (n, rest)
  {
    var s: seq<byte> := Fixed(256, n, w) + rest;
    assert s[..w] == Fixed(256, n, w) && s[w..] == rest;
    ValueFixed(256, n, w);
  }

  lemma ReadWhole(part: seq<byte>, rest: seq<byte>)
    ensures ReadPart(part + rest, |part|) == (part, rest)
  {
    assert (part + rest)[..|part|] == part && (part + rest)[|part|..] == rest;
    assert part + seq(0, _ => 0) == part;
  }

  lemma GetOnePart(p: seq<byte>, rest: seq<byte>, n: nat)
    requires |p| < LIMIT_16
    ensures GetParts(Put16(|p|) + (p + rest), n + 1) == [p] + GetParts(rest, n)
  {
    ReadInt16(|p|, p + rest);
    ReadWhole(p, rest);
  }

  lemma {:induction false} GetPutParts(parts: seq<seq<byte>>)
    requires forall i :: 0 <= i < |parts| ==> |parts[i]| < LIMIT_16
    ensures GetParts(PutParts(parts), |parts|) == parts
  {
    if parts != [] {
      var p, rest := parts[0], PutParts(parts[1..]);
      assert PutParts(parts) == Put16(|p|) + (p + rest);
      GetOnePart(p, rest, |parts| - 1);
      GetPutParts(parts[1..]);
    }
  }

  lemma SixtyFour()
    ensures Pow(256, 8) == TWO_TO_THE_64
  {
    assert Pow(256, 4) == 4294967296;
    PowAdd(256, 4, 4);
  }

  /**
   What is read from any preamble: a number of 2, 4 or 8 bytes, then the flags, then the part
   count.  Another length of the number, or other flags than 1, and the packet is skipped.
   */
  lemma ParseExactly(seqLen: nat, seqNo: nat, flags: byte, count: nat, body: seq<byte>)
    requires seqLen < LIMIT_16 && seqNo < Pow(256, seqLen) && count < LIMIT_16
    ensures Parse(Put16(seqLen) + (Fixed(256, seqNo, seqLen) + ([flags] + (Put16(count) + body)))) ==
            if seqLen in {2, 4, 8} && flags == 1 then Reply(seqNo, GetParts(body, count)) else Skipped
  {
    hide Fixed, Pow, Value, GetParts;
    var tail := Put16(count) + body;
    var s2: seq<byte> := [flags] + tail;
    var s1: seq<byte> := Fixed(256, seqNo, seqLen) + s2;
    ReadInt16(seqLen, s1);
    ReadFixed(seqLen, seqNo, s2);
    ReadByte(flags, tail);
    ReadInt16(count, body);
  }

  lemma ReadByte(b: byte, tail: seq<byte>)
    ensures ReadInt([b] + tail, 1) == (b, tail)
  {
    var s: seq<byte> := [b] + tail;
    assert s[..1] == [b] && s[1..] == tail;
    ValueSnoc(256, [], b);
    assert [] + [b] == [b];
  }

  /** A packet that ends before its flags is skipped: what is not there reads as zero. */
  lemma ShortPacketSkipped(seqLen: nat, rest: seq<byte>)
    requires seqLen < LIMIT_16 && |rest| <= seqLen
    ensures Parse(Put16(seqLen) + rest) == Skipped
    ensures rest == [] || |rest| == 1 ==> Parse(rest) == Skipped
  {
    ReadInt16(seqLen, rest);
  }

  /** A part that ends early is filled up with zeros, and the parts that should follow it are empty. */
  lemma {:induction false} CutPartPadded(size: nat, have: seq<byte>, k: nat)
    requires |have| < size < LIMIT_16
    ensures GetParts(Put16(size) + have, 1 + k) == [have + seq(size - |have|, _ => 0)] + seq(k, _ => [])
  {
    ReadInt16(size, have);
    var (part, left) := ReadPart(have, size);
    assert have[..|have|] == have && have[|have|..] == [];
    assert GetParts(Put16(size) + have, 1 + k) == [part] + GetParts(left, k);
    NothingLeft(k);
  }

  lemma {:induction false} NothingLeft(k: nat)
    ensures GetParts([], k) == seq(k, _ => [])
  {
    if k > 0 {
      NothingLeft(k - 1);
      var empty: seq<byte> := [];
      assert |ReadPart(empty, 0).0| == 0;
      assert [empty] + seq(k - 1, _ => empty) == seq(k, _ => empty);
    }
  }

  /** Whatever follows, the preamble reads back as sequence number and part count modulo 2^16. */
  lemma ParsePreamble(seqNo: nat, count: nat, body: seq<byte>)
    requires seqNo < TWO_TO_THE_64
    ensures Parse(Preamble(seqNo, count) + body) == Reply(seqNo, GetParts(body, Low16(count)))
  {
    SixtyFour();
    var width: nat := 8;
    var number: seq<byte> := Fixed(256, seqNo, width);
    assert Preamble(seqNo, count) + body == Put16(8) + (number + ([1] + (Put16(Low16(count)) + body)));
    ParseExactly(8, seqNo, 1, Low16(count), body);
  }

  /** The part count and the header length can be written in sixteen bits. */
  predicate Fits(header: seq<byte>, parts: seq<seq<byte>>) {
    1 + |parts| < LIMIT_16 && |header| < LIMIT_16
  }

  /** What the receiver makes of the parts of a request. */
  function PartsRead(header: seq<byte>, parts: seq<seq<byte>>): (r: seq<seq<byte>>)
    ensures |r| == Low16(1 + |parts|)
  {
    GetParts(PutParts([header] + parts), Low16(1 + |parts|))
  }

  lemma PartsSurvive(header: seq<byte>, parts: seq<seq<byte>>)
    requires forall i :: 0 <= i < |parts| ==> |parts[i]| <= PART_SIZE
    ensures PartsRead(header, parts) == [header] + parts <==> Fits(header, parts)
  {
    if Fits(header, parts) {
      GetPutParts([header] + parts);
    } else if 1 + |parts| < LIMIT_16 {
      FirstPartLength(header, parts);
    }
  }

  /** Reading what was written gives the same sequence, header and parts exactly when both lengths fit. */
  lemma ParseSerialize(seqNo: nat, header: seq<byte>, parts: seq<seq<byte>>)
    requires seqNo < TWO_TO_THE_64
    requires forall i :: 0 <= i < |parts| ==> |parts[i]| <= PART_SIZE
    ensures Parse(Serialize(seqNo, header, parts)) == Reply(seqNo, PartsRead(header, parts))
    ensures PartsRead(header, parts) == [header] + parts <==> Fits(header, parts)
  {
    ParsePreamble(seqNo, 1 + |parts|, PutParts([header] + parts));
    PartsSurvive(header, parts);
  }

  /** The first part read back has the header's length modulo 2^16. */
  lemma FirstPartLength(header: seq<byte>, parts: seq<seq<byte>>)
    ensures |GetParts(PutParts([header] + parts), 1 + |parts|)[0]| == Low16(|header|)
  {
    var all := [header] + parts;
    var rest := header + PutParts(all[1..]);
    assert PutParts(all) == Put16(Low16(|header|)) + rest;
    ReadInt16(Low16(|header|), rest);
  }

  /**
   Of the bytes alone: split, written, read and joined, the payload returns with its
   sequence and header exactly when it is at most 65534 parts long and the header is
   shorter than 2^16 bytes.  No packet is that large (SmallFits).
   */
  lemma PayloadRoundTrip(seqNo: nat, header: seq<byte>, payload: seq<byte>)
    requires seqNo < TWO_TO_THE_64
    ensures var r := Parse(Serialize(seqNo, header, Split(payload)));
            (r.Reply? && r.seqNo == seqNo && r.parts != [] && r.parts[0] == header && Join(r.parts[1..]) == payload)
            <==> |payload| <= 65534 * PART_SIZE && |header| < LIMIT_16
  {
    ParseSerialize(seqNo, header, Split(payload));
    PayloadSurvives(header, payload);
  }

  lemma PayloadSurvives(header: seq<byte>, payload: seq<byte>)
    ensures var got := PartsRead(header, Split(payload));
            (got != [] && got[0] == header && Join(got[1..]) == payload)
            <==> |payload| <= 65534 * PART_SIZE && |header| < LIMIT_16
  {
    var parts := Split(payload);
    if Fits(header, parts) {
      PartsSurvive(header, parts);
      JoinSplit(payload);
      assert ([header] + parts)[1..] == parts;
    } else {
      TripFails(header, payload);
    }
  }

  lemma TripFails(header: seq<byte>, payload: seq<byte>)
    requires !Fits(header, Split(payload))
    ensures var got := PartsRead(header, Split(payload));
            got != [] ==> got[0] != header || Join(got[1..]) != payload
  {
    hide Split, PutParts, GetParts, Join;
    var parts := Split(payload);
    var body, n := PutParts([header] + parts), Low16(1 + |parts|);
    if 1 + |parts| >= LIMIT_16 {
      PartsAreSmall(body, n);
      TooManyParts(payload, GetParts(body, n));
    } else {
      FirstPartLength(header, parts);
    }
  }

  lemma {:induction false} PartsAreSmall(s: seq<byte>, n: nat)
    ensures forall i :: 0 <= i < n ==> |GetParts(s, n)[i]| < LIMIT_16
    decreases n
  {
    if n > 0 {
      var (size, rest) := ReadInt(s, 2);
      if |s| >= 2 {
        TwoBytes(s[..2]);
      }
      PartsAreSmall(ReadPart(rest, size).1, n - 1);
    }
  }

  lemma TwoBytes(s: seq<byte>)
    requires |s| == 2
    ensures Value(256, s) < LIMIT_16
  {
    assert Pow(256, 2) == LIMIT_16;
    ValueBound(256, s);
  }

  /** With the count truncated, too few bytes come back. */
  lemma TooManyParts(payload: seq<byte>, got: seq<seq<byte>>)
    requires |got| == (1 + |Split(payload)|) % LIMIT_16 && 1 + |Split(payload)| >= LIMIT_16
    requires forall i :: 0 <= i < |got| ==> |got[i]| < LIMIT_16
    ensures got != [] ==> |Join(got[1..])| < |payload|
  {
    if got != [] {
      JoinLength(got[1..]);
    }
  }

  lemma {:induction false} JoinLength(parts: seq<seq<byte>>)
    requires forall i :: 0 <= i < |parts| ==> |parts[i]| < LIMIT_16
    ensures |Join(parts)| <= |parts| * PART_SIZE
  {
    if parts != [] {
      JoinLength(parts[1..]);
    }
  }

  // ----- what fits into a packet

  /** Two bytes of length and the bytes themselves, for every part. */
  function Sizes(parts: seq<seq<byte>>): (n: nat)
    ensures n >= 2 * |parts|
  {
    if parts == [] then 0 else 2 + |parts[0]| + Sizes(parts[1..])
  }

  lemma {:induction false} PutPartsSize(parts: seq<seq<byte>>)
    ensures |PutParts(parts)| == Sizes(parts) == |Join(parts)| + 2 * |parts|
  {
    if parts != [] {
      PutPartsSize(parts[1..]);
    }
  }

  lemma {:induction false} SizesCover(parts: seq<seq<byte>>, i: nat)
    requires i < |parts|
    ensures |parts[i]| + 2 <= Sizes(parts)
  {
    if i > 0 {
      SizesCover(parts[1..], i - 1);
    }
  }

  /** The length of the bytes of a request, whose lengths are not truncated in it. */
  lemma SerializeSize(seqNo: nat, header: seq<byte>, parts: seq<seq<byte>>)
    ensures |Serialize(seqNo, header, parts)| == 15 + |header| + |Join(parts)| + 2 * |parts|
  {
    var all := [header] + parts;
    PutPartsSize(all);
    assert all[0] == header && all[1..] == parts;
  }

  /** Bytes that fit into sixteen bits leave no length to truncate: header, part count and every part fit too. */
  lemma SmallFits(seqNo: nat, header: seq<byte>, parts: seq<seq<byte>>)
    requires |Serialize(seqNo, header, parts)| < LIMIT_16
    ensures Fits(header, parts) && forall i :: 0 <= i < |parts| ==> |parts[i]| <= PART_SIZE
  {
    SerializeSize(seqNo, header, parts);
    PutPartsSize(parts);
    forall i | 0 <= i < |parts|
      ensures |parts[i]| <= PART_SIZE
    {
      SizesCover(parts, i);
    }
  }

  /** The size of a request told from its header and payload. */
  lemma RequestSize(seqNo: nat, header: seq<byte>, payload: seq<byte>)
    ensures |Serialize(seqNo, header, Split(payload))| < LIMIT_16 <==>
            |header| + |payload| + (if payload == [] then 0 else 2) <= 65520
  {
    SerializeSize(seqNo, header, Split(payload));
    JoinSplit(payload);
  }
}
