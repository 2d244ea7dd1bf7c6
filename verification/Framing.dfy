/** The byte queue's framing: four length bytes, lowest first, and then as many bytes
    of payload. */
module Framing {
  import opened Commons

  newtype Byte = b: int | 0 <= b < 256

  type Message = seq<Byte>

  const HEADER := 4
  const MAX_MESSAGE := 0x1_0000_0000

  /** The little-endian bytes of a 32-bit length. */
  function Header(n: nat): (h: seq<Byte>)
    requires n < MAX_MESSAGE
    ensures |h| == HEADER
  {
    [(n % 256) as Byte, (n / 256 % 256) as Byte, (n / 65536 % 256) as Byte, (n / 16777216 % 256) as Byte]
  }

  function Length(h: seq<Byte>): nat
    requires |h| == HEADER
  {
    h[0] as nat + 256 * (h[1] as nat) + 65536 * (h[2] as nat) + 16777216 * (h[3] as nat)
  }

  lemma HeaderRoundTrips(n: nat)
    requires n < MAX_MESSAGE
    ensures Length(Header(n)) == n
  {
    assert n / 65536 == n / 256 / 256 && n / 16777216 == n / 256 / 256 / 256;
  }

  /** What a 32-bit length tells of a payload: all of it exactly when it is shorter
      than 2^32. */
  function Carried(m: Message): (c: Message)
    ensures |c| == |m| % MAX_MESSAGE && c <= m
    ensures c == m <==> |m| < 0x1_0000_0000
  {
    m[..|m| % MAX_MESSAGE]
  }

  /** Do the four length bytes and all of `m` fit in `free` bytes, or not even as much
      of it as is carried? */
  predicate SafeLength(length: nat, free: int) {
    HEADER + length <= free || HEADER + length % MAX_MESSAGE > free
  }

  function Frame(m: Message): (f: seq<Byte>)
    requires |m| < MAX_MESSAGE
    ensures |f| == HEADER + |m|
  {
    Header(|m|) + m
  }

  /** All that is copied in for `m`: the frame of what is carried, and after it whatever
      of the payload is not. */
  function Copied(m: Message): (bytes: seq<Byte>)
    ensures |bytes| == HEADER + |m|
    ensures bytes[..HEADER + |Carried(m)|] == Frame(Carried(m))
  {
    Header(|m| % MAX_MESSAGE) + m
  }

  ghost predicate Short(queue: seq<Message>) {
    forall i :: 0 <= i < |queue| ==> |queue[i]| < MAX_MESSAGE
  }

  function Encode(queue: seq<Message>): seq<Byte>
    requires Short(queue)
  {
    if queue == [] then [] else Frame(queue[0]) + Encode(queue[1..])
  }

  /** Cut a byte string into messages, if it is made of whole ones. */
  function Decode(bytes: seq<Byte>): Option<seq<Message>>
    decreases |bytes|
  {
    if bytes == [] then Some([])
    else if |bytes| < HEADER then None
    else
      var n := Length(bytes[..HEADER]);
      if |bytes| < HEADER + n then None
      else
        var rest := Decode(bytes[HEADER + n..]);
        if rest.None? then None else Some([bytes[HEADER..HEADER + n]] + rest.value)
  }

  lemma DecodeFirst(m: Message, rest: seq<Byte>)
    requires |m| < MAX_MESSAGE
    ensures var bytes := Frame(m) + rest;
      && |bytes| >= HEADER && Length(bytes[..HEADER]) == |m| && |bytes| >= HEADER + |m|
      && bytes[HEADER..HEADER + |m|] == m && bytes[HEADER + |m|..] == rest
  {
    HeaderRoundTrips(|m|);
    assert (Frame(m) + rest)[..HEADER] == Header(|m|);
  }

  /** Decoding what was encoded gives back exactly the messages, so different
      queues never share an encoding. */
  lemma {:induction false} DecodeInvertsEncode(queue: seq<Message>)
    requires Short(queue)
    ensures Decode(Encode(queue)) == Some(queue)
  {
    hide Length, Header, Frame;
    if queue != [] {
      DecodeFirst(queue[0], Encode(queue[1..]));
      DecodeInvertsEncode(queue[1..]);
      assert [queue[0]] + queue[1..] == queue;
    }
  }

  lemma {:induction false} EncodeAppends(queue: seq<Message>, m: Message)
    requires Short(queue) && |m| < MAX_MESSAGE
    ensures Short(queue + [m])
    ensures Encode(queue + [m]) == Encode(queue) + Frame(m)
  {
    if queue == [] {
      assert [] + [m] == [m];
      assert [m][1..] == [];
      assert Frame(m) + [] == Frame(m);
      assert [] + Frame(m) == Frame(m);
    } else {
      assert (queue + [m])[1..] == queue[1..] + [m];
      EncodeAppends(queue[1..], m);
      assert Frame(queue[0]) + (Encode(queue[1..]) + Frame(m)) == Frame(queue[0]) + Encode(queue[1..]) + Frame(m);
    }
  }

  /** The bytes a queue of messages takes up. */
  function Size(queue: seq<Message>): nat {
    if queue == [] then 0 else HEADER + |queue[0]| + Size(queue[1..])
  }

  /** A message takes up four bytes and its payload ... */
  lemma {:induction false} SizeAppends(queue: seq<Message>, m: Message)
    ensures Size([]) == 0 && Size(queue + [m]) == Size(queue) + 4 + |m|
  {
    if queue == [] {
      assert [] + [m] == [m];
      assert [m][1..] == [];
    } else {
      assert (queue + [m])[1..] == queue[1..] + [m];
      SizeAppends(queue[1..], m);
    }
  }

  /** ... the four being its length, lowest byte first. */
  lemma FrameLayout(m: Message)
    requires |m| < 0x1_0000_0000
    ensures Short([m])
    ensures var bytes := Encode([m]);
      && |bytes| == 4 + |m| && bytes[4..] == m
      && |m| == bytes[0] as nat + 0x100 * (bytes[1] as nat) + 0x1_0000 * (bytes[2] as nat)
                + 0x100_0000 * (bytes[3] as nat)
  {
    hide Header;
    assert [] + [m] == [m];
    EncodeAppends([], m);
    assert [] + Frame(m) == Frame(m);
    assert Encode([m]) == Header(|m|) + m;
    HeaderRoundTrips(|m|);
  }

  lemma {:induction false} EncodeSize(queue: seq<Message>)
    requires Short(queue)
    ensures |Encode(queue)| == Size(queue)
  {
    if queue != [] {
      EncodeSize(queue[1..]);
    }
  }
}
