/** The SDC-600 COM port: byte stuffing, and packets through a stream in which NULL bytes may stand anywhere. */
module Sdc600 {
  import opened Bytes

  const LPH1RL: bv8 := 0xA7
  const LPH2RL: bv8 := 0xA9
  const LERR: bv8 := 0xAB
  const START: bv8 := 0xAC
  const END: bv8 := 0xAD
  const ESC: bv8 := 0xAE
  const NULL: bv8 := 0xAF

  datatype Phase = NoLink | Phase1 | Phase2
  datatype PortError = Timeout | UnexpectedFlag | LinkError | LinkClosed(phase: Phase) | IndexOutOfRange
  datatype Received<+T> = Got(value: T) | Raised(error: PortError)

  /** All bytes with 0b101 in their top bits are flags. */
  predicate IsFlag(b: bv8) {
    b & 0xE0 == 0xA0
  }

  // ---- Byte stuffing ----

  function StuffedByte(b: bv8): seq<bv8> {
    if IsFlag(b) then [ESC, b ^ 0x80] else [b]
  }

  function Stuffed(data: seq<bv8>): seq<bv8> {
    if data == [] then [] else StuffedByte(data[0]) + Stuffed(data[1..])
  }

  /** The bytes a stuffed list stands for; an escape at the very end has no byte to escape. */
  function Destuffed(s: seq<bv8>): Option<seq<bv8>> {
    if s == [] then Some([])
    else if s[0] == ESC then
      if |s| == 1 then None
      else
        var rest := Destuffed(s[2..]);
        if rest.Some? then Some([s[1] ^ 0x80] + rest.value) else None
    else
      var rest := Destuffed(s[1..]);
      if rest.Some? then Some([s[0]] + rest.value) else None
  }

  lemma {:induction false} StuffedSnoc(data: seq<bv8>, b: bv8)
    ensures Stuffed(data + [b]) == Stuffed(data) + StuffedByte(b)
  {
    if data == [] {
      assert ([] + [b])[1..] == [];
      assert Stuffed([b]) == StuffedByte(b) + [];
    } else {
      assert (data + [b])[1..] == data[1..] + [b];
      StuffedSnoc(data[1..], b);
    }
  }

  /** Plain bytes that are no flags, and escapes of bytes that are. */
  predicate Canonical(s: seq<bv8>) {
    s == []
    || (s[0] == ESC && |s| > 1 && IsFlag(s[1] ^ 0x80) && Canonical(s[2..]))
    || (!IsFlag(s[0]) && Canonical(s[1..]))
  }

  lemma EscapeTwice(b: bv8)
    ensures (b ^ 0x80) ^ 0x80 == b
    ensures IsFlag(b) ==> !IsFlag(b ^ 0x80)
  {
  }

  /** The stuffed bytes hold no flag but ESC. */
  lemma {:induction false} CanonicalHasNoFlags(s: seq<bv8>)
    requires Canonical(s)
    ensures forall b :: b in s && IsFlag(b) ==> b == ESC
  {
    if s != [] {
      if s[0] == ESC {
        EscapeTwice(s[1] ^ 0x80);
        EscapeTwice(s[1]);
        CanonicalHasNoFlags(s[2..]);
        assert s == [s[0], s[1]] + s[2..];
      } else {
        CanonicalHasNoFlags(s[1..]);
        assert s == [s[0]] + s[1..];
      }
    }
  }

  /** Destuffing inverts stuffing. */
  lemma {:induction false} StuffedRoundTrip(data: seq<bv8>)
    ensures Canonical(Stuffed(data)) && Destuffed(Stuffed(data)) == Some(data)
  {
    if data != [] {
      var b, rest := data[0], Stuffed(data[1..]);
      StuffedRoundTrip(data[1..]);
      EscapeTwice(b);
      assert [b] + data[1..] == data;
      if IsFlag(b) {
        assert Stuffed(data) == [ESC, b ^ 0x80] + rest;
        assert Stuffed(data)[2..] == rest;
      } else {
        assert b != ESC;
        assert Stuffed(data) == [b] + rest;
        assert Stuffed(data)[1..] == rest;
      }
    }
  }

  lemma {:induction false} CanonicalRoundTrip(s: seq<bv8>)
    requires Canonical(s)
    ensures Destuffed(s).Some? && Stuffed(Destuffed(s).value) == s
  {
    if s != [] {
      if s[0] == ESC {
        CanonicalRoundTrip(s[2..]);
        EscapeTwice(s[1]);
        var d := Destuffed(s[2..]).value;
        assert ([s[1] ^ 0x80] + d)[1..] == d;
        assert s == [ESC, s[1]] + s[2..];
      } else {
        CanonicalRoundTrip(s[1..]);
        var d := Destuffed(s[1..]).value;
        assert ([s[0]] + d)[1..] == d;
        assert s == [s[0]] + s[1..];
      }
    }
  }

  /** The stuffed lists are exactly the canonical ones. */
  lemma StuffedExactlyCanonical(s: seq<bv8>)
    ensures (exists data :: Stuffed(data) == s) <==> Canonical(s)
  {
    if Canonical(s) {
      CanonicalRoundTrip(s);
      assert Stuffed(Destuffed(s).value) == s;
    }
    forall data | Stuffed(data) == s
      ensures Canonical(s)
    {
      StuffedRoundTrip(data);
    }
  }

  method Stuff(data: seq<bv8>) returns (result: seq<bv8>)
    ensures result == Stuffed(data)
  {
    result := [];
    for i := 0 to |data|
      invariant result == Stuffed(data[..i])
    {
      assert data[..i + 1] == data[..i] + [data[i]];
      StuffedSnoc(data[..i], data[i]);
      var value := data[i];
      if IsFlag(value) {
        result := result + [ESC];
        value := value ^ 0x80;
      }
      result := result + [value];
    }
    assert data[..|data|] == data;
  }

  /** Put before what the rest stands for. */
  function Before(done: seq<bv8>, rest: Option<seq<bv8>>): Option<seq<bv8>> {
    if rest.Some? then Some(done + rest.value) else None
  }

  method Destuff(data: seq<bv8>) returns (r: Received<seq<bv8>>)
    ensures r == if Destuffed(data).Some? then Got(Destuffed(data).value) else Raised(IndexOutOfRange)
  {
    var result: seq<bv8>, i := [], 0;
    assert data[0..] == data;
    assert Destuffed(data).Some? ==> [] + Destuffed(data).value == Destuffed(data).value;
    while i < |data|
      invariant i <= |data| && Destuffed(data) == Before(result, Destuffed(data[i..]))
    {
      var value := data[i];
      DestuffNext(result, data, i);
      if value == ESC {
        i := i + 1;
        if i == |data| { return Raised(IndexOutOfRange); }
        value := data[i] ^ 0x80;
      }
      result := result + [value];
      i := i + 1;
    }
    assert result + [] == result;
    return Got(result);
  }

  lemma DestuffNext(result: seq<bv8>, data: seq<bv8>, i: nat)
    requires i < |data|
    ensures data[i] != ESC ==> Before(result, Destuffed(data[i..])) == Before(result + [data[i]], Destuffed(data[i + 1..]))
    ensures data[i] == ESC && i + 1 == |data| ==> Destuffed(data[i..]) == None
    ensures data[i] == ESC && i + 1 < |data| ==>
              Before(result, Destuffed(data[i..])) == Before(result + [data[i + 1] ^ 0x80], Destuffed(data[i + 2..]))
  {
    assert data[i..][1..] == data[i + 1..];
    if data[i] != ESC {
      var rest := Destuffed(data[i + 1..]);
      assert rest.Some? ==> result + ([data[i]] + rest.value) == result + [data[i]] + rest.value;
    } else if i + 1 < |data| {
      assert data[i..][2..] == data[i + 2..];
      var rest := Destuffed(data[i + 2..]);
      assert rest.Some? ==> result + ([data[i + 1] ^ 0x80] + rest.value) == result + [data[i + 1] ^ 0x80] + rest.value;
    }
  }

  // ---- Packets ----

  /** The flags that end a packet with an error; the other flags are not looked at. */
  function FlagError(b: bv8): Option<PortError> {
    if b == LPH1RL then Some(LinkClosed(Phase1))
    else if b == LPH2RL then Some(LinkClosed(Phase2))
    else if b == LERR then Some(LinkError)
    else if 0xA2 <= b <= 0xA5 || 0xB0 <= b <= 0xBF then Some(UnexpectedFlag)
    else None
  }

  /** The link phase after `b` was handled, and what is sent in reply. */
  function PhaseAfter(b: bv8, phase: Phase): Phase {
    if b == LPH1RL then NoLink else if b == LPH2RL then Phase1 else phase
  }

  function Reply(b: bv8): seq<bv8> {
    if b == LPH2RL then [LPH2RL] else []
  }

  /** Flags are the bytes with 0b101 on top. Of these, LPH1RL (0xA7) and LPH2RL (0xA9) close a phase of the link, LERR
      (0xAB) reports an error, and 0xA2 to 0xA5 and 0xB0 to 0xBF are reserved: they raise. No other byte does, or
      changes the phase, or is answered; closing phase 2 leaves phase 1, and is answered by the same flag. */
  lemma FlagTable(b: bv8, phase: Phase)
    ensures IsFlag(b) <==> b >> 5 == 5
    ensures FlagError(b).Some? ==> IsFlag(b)
    ensures b == 0xA7 <==> FlagError(b) == Some(LinkClosed(Phase1))
    ensures b == 0xA9 <==> FlagError(b) == Some(LinkClosed(Phase2))
    ensures b == 0xAB <==> FlagError(b) == Some(LinkError)
    ensures b in {0xA2, 0xA3, 0xA4, 0xA5} || b >> 4 == 0xB <==> FlagError(b) == Some(UnexpectedFlag)
    ensures b !in {0xA2, 0xA3, 0xA4, 0xA5, 0xA7, 0xA9, 0xAB} && b >> 4 != 0xB ==> FlagError(b) == None
    ensures PhaseAfter(b, phase) == if b == 0xA7 then NoLink else if b == 0xA9 then Phase1 else phase
    ensures Reply(b) == if b == 0xA9 then [b] else []
  {
  }

  function WithoutNulls(s: seq<bv8>): (r: seq<bv8>)
    ensures forall b :: b in r <==> b in s && b != NULL
    ensures |r| <= |s|
  {
    if s == [] then [] else if s[0] == NULL then WithoutNulls(s[1..]) else [s[0]] + WithoutNulls(s[1..])
  }

  predicate EndsBody(b: bv8) {
    b == END || FlagError(b).Some?
  }

  /** Where a packet's body ends: at END, or at a flag that raises; |s| when the stream dries up first. */
  function BodyEnd(s: seq<bv8>): (k: nat)
    ensures k <= |s|
    ensures forall b :: b in s[..k] ==> !EndsBody(b)
    ensures k < |s| ==> EndsBody(s[k])
  {
    if s == [] || EndsBody(s[0]) then 0
    else
      var k := BodyEnd(s[1..]);
      assert s[..k + 1] == [s[0]] + s[1..][..k];
      k + 1
  }

  /** One attempt to receive a packet: its outcome, the stream left over, the link phase and the bytes sent. */
  datatype Reception = Reception(result: Received<seq<bv8>>, rest: seq<bv8>, phase: Phase, sent: seq<bv8>)

  function Flagged(b: bv8, otherwise: PortError, rest: seq<bv8>, phase: Phase): Reception {
    Reception(Raised(if FlagError(b).Some? then FlagError(b).value else otherwise), rest, PhaseAfter(b, phase), Reply(b))
  }

  function ReceiveBody(s: seq<bv8>, phase: Phase): Reception {
    var k := BodyEnd(s);
    if k == |s| then Reception(Raised(Timeout), [], phase, [])
    else if s[k] == END then
      var d := Destuffed(s[..k]);
      Reception(if d.Some? then Got(d.value) else Raised(IndexOutOfRange), s[k + 1..], phase, [])
    else Flagged(s[k], UnexpectedFlag, s[k + 1..], phase)
  }

  function Receive(s: seq<bv8>, phase: Phase): Reception {
    if s == [] then Reception(Raised(Timeout), [], phase, [])
    else if s[0] != START then Flagged(s[0], UnexpectedFlag, s[1..], phase)
    else ReceiveBody(s[1..], phase)
  }

  function Frame(data: seq<bv8>): seq<bv8> {
    [START] + Stuffed(data) + [END]
  }

  /** A packet is framed by START (0xAC) and END (0xAD), with ESC (0xAE) before each byte that is a flag. */
  lemma FrameBytes(data: seq<bv8>)
    ensures Frame(data) == [0xAC] + Stuffed(data) + [0xAD]
    ensures |data| == 1 ==> Stuffed(data) == if data[0] >> 5 == 5 then [0xAE, data[0] - 0x80] else data
  {
    if |data| == 1 {
      assert data[1..] == [];
      assert Stuffed(data) == StuffedByte(data[0]) + [];
      TopBitOff(data[0]);
    }
  }

  lemma TopBitOff(b: bv8)
    ensures IsFlag(b) <==> b >> 5 == 5
    ensures IsFlag(b) ==> b ^ 0x80 == b - 0x80
  {
  }

  lemma {:induction false} BodyEndIs(s: seq<bv8>, end: bv8, more: seq<bv8>)
    requires EndsBody(end) && forall b :: b in s ==> !EndsBody(b)
    ensures BodyEnd(s + [end] + more) == |s|
  {
    var t := s + [end] + more;
    if s == [] {
      assert t[0] == end;
    } else {
      assert t[1..] == s[1..] + [end] + more && t[0] == s[0];
      BodyEndIs(s[1..], end, more);
    }
  }

  lemma PlainDoesNotEnd(b: bv8)
    requires IsFlag(b) ==> b == ESC
    ensures !EndsBody(b) && b != NULL
  {
  }

  lemma StuffedDoesNotEnd(data: seq<bv8>)
    ensures forall b :: b in Stuffed(data) ==> !EndsBody(b) && b != NULL
  {
    StuffedRoundTrip(data);
    CanonicalHasNoFlags(Stuffed(data));
    forall b | b in Stuffed(data)
      ensures !EndsBody(b) && b != NULL
    {
      PlainDoesNotEnd(b);
    }
  }

  /** Every packet arrives whole, and leaves the stream at the next one. */
  lemma PacketRoundTrip(data: seq<bv8>, more: seq<bv8>, phase: Phase)
    ensures Receive(Frame(data) + more, phase) == Reception(Got(data), more, phase, [])
  {
    var s := Stuffed(data);
    StuffedRoundTrip(data);
    StuffedDoesNotEnd(data);
    BodyEndIs(s, END, more);
    var t := Frame(data) + more;
    assert t[1..] == s + [END] + more;
    assert t[1..][..|s|] == s && t[1..][|s| + 1..] == more;
  }

  function Frames(packets: seq<seq<bv8>>): seq<bv8> {
    if packets == [] then [] else Frame(packets[0]) + Frames(packets[1..])
  }

  /** Receives until the stream has given `n` packets, or something else. */
  function ReceiveAll(s: seq<bv8>, phase: Phase, n: nat): Option<seq<seq<bv8>>> {
    if n == 0 then Some([])
    else
      var r := Receive(s, phase);
      if r.result.Raised? then None
      else
        var rest := ReceiveAll(r.rest, r.phase, n - 1);
        if rest.Some? then Some([r.result.value] + rest.value) else None
  }

  /** Any number of packets sent one after another arrive in order, whatever NULL bytes the stream has between. */
  lemma {:induction false} AllPacketsArrive(packets: seq<seq<bv8>>, stream: seq<bv8>, phase: Phase)
    requires WithoutNulls(stream) == Frames(packets)
    ensures ReceiveAll(WithoutNulls(stream), phase, |packets|) == Some(packets)
  {
    FramesArrive(packets, phase);
  }

  lemma {:induction false} FramesArrive(packets: seq<seq<bv8>>, phase: Phase)
    ensures ReceiveAll(Frames(packets), phase, |packets|) == Some(packets)
  {
    if packets != [] {
      hide *;
      var first, rest := packets[0], packets[1..];
      FramesArrive(rest, phase);
      PacketRoundTrip(first, Frames(rest), phase);
      FrameBefore(first, rest);
      assert packets == [first] + rest;
      ReceivedBefore(Frames(packets), Frames(rest), phase, first, rest);
    }
  }

  lemma FrameBefore(first: seq<bv8>, rest: seq<seq<bv8>>)
    ensures Frames([first] + rest) == Frame(first) + Frames(rest)
  {
    assert ([first] + rest)[1..] == rest;
  }

  lemma ReceivedBefore(s: seq<bv8>, more: seq<bv8>, phase: Phase, first: seq<bv8>, rest: seq<seq<bv8>>)
    requires Receive(s, phase) == Reception(Got(first), more, phase, [])
    requires ReceiveAll(more, phase, |rest|) == Some(rest)
    ensures ReceiveAll(s, phase, |[first] + rest|) == Some([first] + rest)
  {
    hide Receive;
  }

  // ---- Flags inside a packet ----

  /** What a body that goes on after its first byte, an escape, gives. */
  function Escaped(y: seq<bv8>): seq<bv8>
    requires y != []
  {
    (if IsFlag(y[0]) then [ESC ^ 0x80, y[0] ^ 0x80] else [y[0] ^ 0x80]) + y[1..]
  }

  /** A flag `b` that stands unescaped inside a packet, between the data `x` and `y`: what the packet is received as. */
  function WithFlag(x: seq<bv8>, b: bv8, y: seq<bv8>): Received<seq<bv8>> {
    if FlagError(b).Some? then Raised(FlagError(b).value)
    else if b == END then Got(x)
    else if b == NULL then Got(x + y)
    else if b == ESC then (if y == [] then Raised(IndexOutOfRange) else Got(x + Escaped(y)))
    else Got(x + [b] + y)
  }

  /** A flag in a packet raises exactly when it is an error flag (or an escape with nothing to escape); END cuts the
      packet short, NULL is dropped, ESC changes the byte after it, and every other flag passes as data. */
  lemma FlagInPacket(x: seq<bv8>, b: bv8, y: seq<bv8>, phase: Phase)
    requires IsFlag(b)
    ensures Receive(WithoutNulls([START] + Stuffed(x) + [b] + Stuffed(y) + [END]), phase).result == WithFlag(x, b, y)
  {
    hide *;
    var middle := if b == NULL then [] else [b];
    var head, tail := [START] + Stuffed(x), Stuffed(y) + [END];
    FlagValues();
    StuffedDoesNotEnd(x);
    StuffedDoesNotEnd(y);
    assert [START] + Stuffed(x) + [b] + Stuffed(y) + [END] == head + [b] + tail;
    NullsBetween(head, b, tail);
    assert head + middle + tail == [START] + (Stuffed(x) + middle + tail);
    AfterStart(Stuffed(x) + middle + tail, phase);
    if EndsBody(b) {
      EndedBody(Stuffed(x), b, tail, phase);
      StuffedRoundTrip(x);
      EndsWithFlag(x, b, y);
    } else {
      var body := Stuffed(x) + middle + Stuffed(y);
      assert Stuffed(x) + middle + tail == body + [END] + [];
      EndedBody(body, END, [], phase);
      FlaggedBody(x, b, y);
    }
  }

  lemma FlagValues()
    ensures EndsBody(END) && FlagError(END).None? && !EndsBody(NULL) && START != NULL && END != NULL
  {
  }

  lemma AfterStart(s: seq<bv8>, phase: Phase)
    ensures Receive([START] + s, phase) == ReceiveBody(s, phase)
  {
    hide ReceiveBody;
    assert ([START] + s)[1..] == s;
  }

  /** A body up to its END or its first error flag. */
  lemma EndedBody(body: seq<bv8>, end: bv8, more: seq<bv8>, phase: Phase)
    requires EndsBody(end) && forall c :: c in body ==> !EndsBody(c)
    ensures ReceiveBody(body + [end] + more, phase).result ==
            if FlagError(end).Some? then Raised(FlagError(end).value)
            else if Destuffed(body).Some? then Got(Destuffed(body).value) else Raised(IndexOutOfRange)
  {
    hide Destuffed, BodyEnd;
    BodyEndIs(body, end, more);
    assert (body + [end] + more)[..|body|] == body;
  }

  lemma EndsWithFlag(x: seq<bv8>, b: bv8, y: seq<bv8>)
    requires EndsBody(b)
    ensures WithFlag(x, b, y) == if FlagError(b).Some? then Raised(FlagError(b).value) else Got(x)
  {
  }

  lemma NullsBetween(head: seq<bv8>, b: bv8, tail: seq<bv8>)
    requires forall c :: c in head + tail ==> c != NULL
    ensures WithoutNulls(head + [b] + tail) == head + (if b == NULL then [] else [b]) + tail
    decreases |head|
  {
    if head == [] {
      assert forall c :: c in tail ==> c in head + tail;
      NoNulls(tail);
      assert ([b] + tail)[1..] == tail;
      assert head + [b] + tail == [b] + tail;
    } else {
      assert head[0] in head + tail;
      assert forall c :: c in head[1..] + tail ==> c in head + tail;
      NullsBetween(head[1..], b, tail);
      assert (head + [b] + tail)[1..] == head[1..] + [b] + tail;
    }
  }

  lemma {:induction false} NoNulls(s: seq<bv8>)
    requires forall c :: c in s ==> c != NULL
    ensures WithoutNulls(s) == s
  {
    if s != [] {
      assert forall c :: c in s[1..] ==> c in s;
      assert s[0] in s;
      NoNulls(s[1..]);
    }
  }

  lemma DestuffedAfterByte(b: bv8, t: seq<bv8>)
    ensures Destuffed(StuffedByte(b) + t) == Before([b], Destuffed(t))
  {
    var first := StuffedByte(b);
    assert (first + t)[|first|..] == t;
    EscapeTwice(b);
  }

  /** Destuffing takes stuffed data off the front. */
  lemma {:induction false} DestuffedAfter(x: seq<bv8>, t: seq<bv8>)
    ensures Destuffed(Stuffed(x) + t) == Before(x, Destuffed(t))
  {
    hide Destuffed, StuffedByte;
    if x == [] {
      assert Stuffed(x) + t == t;
      assert Destuffed(t).Some? ==> [] + Destuffed(t).value == Destuffed(t).value;
    } else {
      var rest := Stuffed(x[1..]) + t;
      assert Stuffed(x) + t == StuffedByte(x[0]) + rest;
      DestuffedAfterByte(x[0], rest);
      DestuffedAfter(x[1..], t);
      assert Destuffed(t).Some? ==> [x[0]] + (x[1..] + Destuffed(t).value) == x + Destuffed(t).value;
    }
  }

  lemma FlaggedBody(x: seq<bv8>, b: bv8, y: seq<bv8>)
    requires !EndsBody(b)
    ensures var d := Destuffed(Stuffed(x) + (if b == NULL then [] else [b]) + Stuffed(y));
            WithFlag(x, b, y) == if d.Some? then Got(d.value) else Raised(IndexOutOfRange)
  {
    var t := (if b == NULL then [] else [b]) + Stuffed(y);
    assert Stuffed(x) + (if b == NULL then [] else [b]) + Stuffed(y) == Stuffed(x) + t;
    DestuffedAfter(x, t);
    StuffedRoundTrip(y);
    if b == NULL {
      assert t == Stuffed(y);
    } else {
      assert t[1..] == Stuffed(y);
      if b == ESC {
        EscapedBody(y, t);
      } else {
        assert x + ([b] + y) == x + [b] + y;
      }
    }
  }

  lemma EscapedBody(y: seq<bv8>, t: seq<bv8>)
    requires t == [ESC] + Stuffed(y)
    ensures Destuffed(t) == if y == [] then None else Some(Escaped(y))
  {
    if y != [] {
      hide *;
      var rest := Stuffed(y[1..]);
      StuffedRoundTrip(y[1..]);
      StuffedStartsWith(y);
      assert t == [ESC] + StuffedByte(y[0]) + rest;
      EscapedByte(y[0], rest, y[1..]);
      EscapedIs(y);
    }
  }

  lemma StuffedStartsWith(y: seq<bv8>)
    requires y != []
    ensures Stuffed(y) == StuffedByte(y[0]) + Stuffed(y[1..])
  {
  }

  lemma EscapedIs(y: seq<bv8>)
    requires y != []
    ensures Escaped(y) == (if IsFlag(y[0]) then [ESC ^ 0x80, y[0] ^ 0x80] else [y[0] ^ 0x80]) + y[1..]
  {
  }

  lemma EscapedByte(b: bv8, rest: seq<bv8>, d: seq<bv8>)
    requires Destuffed(rest) == Some(d)
    ensures Destuffed([ESC] + StuffedByte(b) + rest)
            == Some((if IsFlag(b) then [ESC ^ 0x80, b ^ 0x80] else [b ^ 0x80]) + d)
  {
    var t := [ESC] + StuffedByte(b) + rest;
    if IsFlag(b) {
      EscapeTwice(b);
      assert t[2..] == [b ^ 0x80] + rest;
      assert ([b ^ 0x80] + rest)[1..] == rest;
      assert [ESC ^ 0x80] + ([b ^ 0x80] + d) == [ESC ^ 0x80, b ^ 0x80] + d;
    } else {
      assert t[2..] == rest;
    }
  }

  class ComPort {
    var rx: seq<bv8>      // what the target has sent and the host not yet read
    var tx: seq<bv8>      // what the host has sent
    var phase: Phase

    constructor (rx: seq<bv8>, phase: Phase)
      ensures this.rx == rx && tx == [] && this.phase == phase
    {
      this.rx, tx, this.phase := rx, [], phase;
    }

    method Write1(value: bv8)
      modifies `tx
      ensures tx == old(tx) + [value]
    {
      tx := tx + [value];
    }

    /** The next byte that is not NULL; a stream that has none left times out. */
    method Read1() returns (r: Received<bv8>)
      modifies `rx
      ensures var s := WithoutNulls(old(rx));
              if s == [] then r == Raised(Timeout) && WithoutNulls(rx) == []
              else r == Got(s[0]) && WithoutNulls(rx) == s[1..]
    {
      while rx != []
        invariant WithoutNulls(rx) == WithoutNulls(old(rx))
        decreases |rx|
      {
        var value := rx[0];
        rx := rx[1..];
        if value != NULL { return Got(value); }
      }
      return Raised(Timeout);
    }

    method CheckFlags(value: bv8) returns (e: Option<PortError>)
      modifies `phase, `tx
      ensures e == FlagError(value) && phase == PhaseAfter(value, old(phase)) && tx == old(tx) + Reply(value)
    {
      if value == LPH1RL {
        phase := NoLink;
        return Some(LinkClosed(Phase1));
      } else if value == LPH2RL {
        phase := Phase1;
        Write1(LPH2RL);
        return Some(LinkClosed(Phase2));
      } else if value == LERR {
        return Some(LinkError);
      } else if 0xA2 <= value <= 0xA5 || 0xB0 <= value <= 0xBF {
        return Some(UnexpectedFlag);
      }
      return None;
    }

    /** The reception of the stream as it is, NULL bytes left out. */
    ghost predicate Is(r: Received<seq<bv8>>, was: Reception, sent: seq<bv8>)
      reads this
    {
      r == was.result && WithoutNulls(rx) == was.rest && phase == was.phase && tx == sent + was.sent
    }

    method ReadPacketDataToEnd() returns (r: Received<seq<bv8>>)
      modifies this
      ensures Is(r, ReceiveBody(WithoutNulls(old(rx)), old(phase)), old(tx))
    {
      ghost var s := WithoutNulls(rx);
      var result: seq<bv8> := [];
      assert s[0..] == s;
      while true
        invariant |result| <= |s| && result == s[..|result|] && WithoutNulls(rx) == s[|result|..]
        invariant forall b :: b in result ==> !EndsBody(b)
        invariant phase == old(phase) && tx == old(tx)
        decreases |s| - |result|
      {
        var value := Read1();
        BodyEndAt(s, |result|);
        if value.Raised? { return Raised(Timeout); }
        if value.value == END { break; }
        if IsFlag(value.value) {
          var e := CheckFlags(value.value);
          if e.Some? { return Raised(e.value); }
        }
        result := result + [value.value];
      }
      r := Destuff(result);
    }

    /** receive_packet: START, the body, END. */
    method ReceivePacket() returns (r: Received<seq<bv8>>)
      requires phase == Phase2
      modifies this
      ensures Is(r, Receive(WithoutNulls(old(rx)), old(phase)), old(tx))
    {
      var value := Read1();
      if value.Raised? { return Raised(Timeout); }
      if value.value != START {
        var e := CheckFlags(value.value);
        return Raised(if e.Some? then e.value else UnexpectedFlag);
      }
      r := ReadPacketDataToEnd();
    }

    method SendPacket(data: seq<bv8>)
      requires phase == Phase2
      modifies `tx
      ensures tx == old(tx) + Frame(data)
    {
      Write1(START);
      var stuffed := Stuff(data);
      for i := 0 to |stuffed|
        invariant tx == old(tx) + [START] + stuffed[..i]
      {
        Write1(stuffed[i]);
      }
      assert stuffed[..|stuffed|] == stuffed;
      Write1(END);
    }
  }

  lemma BodyEndAt(s: seq<bv8>, n: nat)
    requires n <= |s| && forall b :: b in s[..n] ==> !EndsBody(b)
    ensures BodyEnd(s) >= n && (n < |s| ==> (BodyEnd(s) == n <==> EndsBody(s[n])))
  {
    assert forall i :: 0 <= i < n ==> s[i] in s[..n];
    assert forall i :: 0 <= i < BodyEnd(s) ==> s[i] in s[..BodyEnd(s)];
  }
}
