/** The packed 17-byte message that the vehicle, the BeagleBone and the server
    share, and the framing of a byte stream into consecutive messages. */
module Wire {
  import opened Words
  import opened Wrappers

  const MSG_IDLE: byte := 0
  const MSG_START: byte := 1
  const MSG_STOP: byte := 2
  const MSG_LEN: nat := 17

  /** `gps_msg_t` and `Request`. The coordinates are the bit patterns of the floats. */
  datatype Msg = Msg(kind: byte, license: uint32, utc: uint32, lat: uint32, lon: uint32)

  /** What the I2C process lets through to the server. */
  predicate IsMark(m: Msg) {
    m.kind == MSG_START || m.kind == MSG_STOP
  }

  function Encode(m: Msg): (b: seq<byte>)
    ensures |b| == MSG_LEN
  {
    [m.kind] + Bytes(m.license) + Bytes(m.utc) + Bytes(m.lat) + Bytes(m.lon)
  }

  /** What `memcpy` of 17 bytes into the packed struct yields. */
  function Decode(b: seq<byte>): Msg
    requires |b| == MSG_LEN
  {
    Msg(b[0], Word(b[1..5]), Word(b[5..9]), Word(b[9..13]), Word(b[13..17]))
  }

  /** `parse_request`: the message, unless its type byte is above STOP. */
  function Parse(b: seq<byte>): Option<Msg>
    requires |b| == MSG_LEN
  {
    if b[0] > MSG_STOP then None else Some(Decode(b))
  }

  lemma DecodeEncode(m: Msg)
    ensures Decode(Encode(m)) == m
  {
    var b := Encode(m);
    assert b[1..5] == Bytes(m.license);
    assert b[5..9] == Bytes(m.utc);
    assert b[9..13] == Bytes(m.lat);
    assert b[13..17] == Bytes(m.lon);
    WordOfBytes(m.license);
    WordOfBytes(m.utc);
    WordOfBytes(m.lat);
    WordOfBytes(m.lon);
  }

  lemma EncodeDecode(b: seq<byte>)
    requires |b| == MSG_LEN
    ensures Encode(Decode(b)) == b
  {
    BytesOfWord(b[1..5]);
    BytesOfWord(b[5..9]);
    BytesOfWord(b[9..13]);
    BytesOfWord(b[13..17]);
    assert b == [b[0]] + b[1..5] + b[5..9] + b[9..13] + b[13..17];
  }

  /** The four bytes from `at` on, the least significant first. */
  function LittleEndian(b: seq<byte>, at: nat): int
    requires at + 4 <= |b|
  {
    b[at] as int + 0x100 * b[at + 1] as int + 0x1_0000 * b[at + 2] as int + 0x100_0000 * b[at + 3] as int
  }

  /** The layout on the wire: the type, then the four fields from bytes 1, 5, 9 and 13 on. */
  lemma LayoutIsPacked(m: Msg)
    ensures var b := Encode(m);
            && b[0] == m.kind
            && LittleEndian(b, 1) == m.license && LittleEndian(b, 5) == m.utc
            && LittleEndian(b, 9) == m.lat && LittleEndian(b, 13) == m.lon
  {
    var b := Encode(m);
    assert b[1..5] == Bytes(m.license) && b[5..9] == Bytes(m.utc);
    assert b[9..13] == Bytes(m.lat) && b[13..17] == Bytes(m.lon);
    BytesAreLittleEndian(m.license);
    BytesAreLittleEndian(m.utc);
    BytesAreLittleEndian(m.lat);
    BytesAreLittleEndian(m.lon);
  }

  lemma BytesAreLittleEndian(w: uint32)
    ensures LittleEndian(Bytes(w), 0) == w
  {
    WordOfBytes(w);
  }

  /** The server's parser is a two-sided inverse of the senders' packed layout on the
      messages of type 0..2, and rejects exactly the buffers whose first byte exceeds 2. */
  lemma CodecRoundTrip(m: Msg, b: seq<byte>)
    requires |b| == MSG_LEN
    ensures m.kind <= MSG_STOP ==> Parse(Encode(m)) == Some(m)
    ensures Parse(b).None? <==> b[0] > 2
    ensures Parse(b).Some? ==> Encode(Parse(b).value) == b
    ensures Parse(b) == Some(m) <==> b == Encode(m) && m.kind <= MSG_STOP
  {
    DecodeEncode(m);
    EncodeDecode(b);
  }

  function EncodeAll(ms: seq<Msg>): (b: seq<byte>)
    ensures |b| == MSG_LEN * |ms|
  {
    if ms == [] then [] else EncodeAll(ms[..|ms| - 1]) + Encode(ms[|ms| - 1])
  }

  /** The messages in the consecutive whole 17-byte blocks of a stream; a shorter tail is dropped. */
  function Blocks(b: seq<byte>): (ms: seq<Msg>)
    ensures |ms| == |b| / MSG_LEN
  {
    if |b| < MSG_LEN then [] else [Decode(b[..MSG_LEN])] + Blocks(b[MSG_LEN..])
  }

  lemma BlocksStep(b: seq<byte>)
    requires |b| >= MSG_LEN
    ensures Blocks(b) == [Decode(b[..MSG_LEN])] + Blocks(b[MSG_LEN..])
  {
    hide Encode, Decode;
  }

  lemma {:induction false} BlocksConcat(a: seq<byte>, b: seq<byte>)
    requires |a| % MSG_LEN == 0
    ensures Blocks(a + b) == Blocks(a) + Blocks(b)
  {
    hide Encode, Decode;
    if a == [] {
      assert a + b == b;
    } else {
      BlocksConcat(a[MSG_LEN..], b);
      BlocksStep(a);
      BlocksStep(a + b);
      assert (a + b)[..MSG_LEN] == a[..MSG_LEN];
      assert (a + b)[MSG_LEN..] == a[MSG_LEN..] + b;
    }
  }

  /** Appending the bytes of one message to an aligned stream appends that message. */
  lemma BlocksSnoc(a: seq<byte>, m: Msg)
    requires |a| % MSG_LEN == 0
    ensures Blocks(a + Encode(m)) == Blocks(a) + [m]
  {
    hide Encode, Decode;
    var b := Encode(m);
    BlocksConcat(a, b);
    BlocksStep(b);
    DecodeEncode(m);
    assert b[..MSG_LEN] == b && b[MSG_LEN..] == [];
  }

  /** Cutting what was written into blocks gives back the messages written, whatever
      partial message follows them. */
  lemma {:induction false} BlocksOfEncoded(ms: seq<Msg>, tail: seq<byte>)
    requires |tail| < MSG_LEN
    ensures Blocks(EncodeAll(ms) + tail) == ms
  {
    hide Encode, Decode;
    if ms == [] {
      assert EncodeAll(ms) + tail == tail;
    } else {
      var front, last := ms[..|ms| - 1], ms[|ms| - 1];
      BlocksOfEncoded(front, []);
      assert EncodeAll(front) + [] == EncodeAll(front);
      BlocksSnoc(EncodeAll(front), last);
      BlocksConcat(EncodeAll(ms), tail);
    }
  }

  /** A prefix of a stream holds a prefix of its messages. */
  lemma BlocksOfPrefix(a: seq<byte>, b: seq<byte>)
    requires a <= b
    ensures Blocks(a) <= Blocks(b)
  {
    hide Encode, Decode;
    var whole := |a| / MSG_LEN * MSG_LEN;
    assert a == a[..whole] + a[whole..];
    assert b == a[..whole] + b[whole..];
    BlocksConcat(a[..whole], a[whole..]);
    BlocksConcat(a[..whole], b[whole..]);
  }
}
