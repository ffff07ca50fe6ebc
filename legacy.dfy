/** The legacy message envelope and the two server-info replies built on it. */
module Legacy {
  import opened Bytes
  import opened Helper

  // Descriptor ids of the legacy protocol.
  const SmallServerInfo: uint16 := 50
  const BigServerInfo: uint16 := 51
  const GetSmallServerInfo: uint16 := 52
  const GetBigServerInfo: uint16 := 53
  const Logout: uint16 := 7

  /** A received legacy message: three header words and everything after
      them. Length counts 2-byte words; nothing checks it against Data. */
  datatype LegacyMessage = LegacyMessage(
    DescriptorId: uint16,
    MessageId: uint16,
    Length: uint16,
    Data: seq<uint8>)

  /** The server's configuration, as far as the replies read it: the strings
      are their bytes. */
  datatype ServerConfig = ServerConfig(Name: seq<uint8>, Hostname: seq<uint8>, Port: uint16)

  // ---------------------------------------------------------------------
  // RawDataToLegacyMessage
  // ---------------------------------------------------------------------

  /** Splits a datagram into its header words and the rest; fails exactly on
      datagrams shorter than eight bytes. On success the header words and
      Data put back together give the datagram again. */
  function RawDataToLegacyMessage(data: seq<uint8>): (r: Option<LegacyMessage>)
    ensures r.None? <==> |data| < 8
    ensures r.Some? ==>
              BE16(r.value.DescriptorId) + BE16(r.value.MessageId) +
              BE16(r.value.Length) + r.value.Data == data
  {
    if |data| < 8 then None
    else
      var m := LegacyMessage(Uint16At(data, 0), Uint16At(data, 2), Uint16At(data, 4), data[6..]);
      assert BE16(m.DescriptorId) + BE16(m.MessageId) + BE16(m.Length) + m.Data
          == data[..2] + data[2..4] + data[4..6] + data[6..];
      Some(m)
  }

  /** The header words a decoded message carries are the ones a packet was
      built with: writing a message and reading it back is the identity. */
  lemma {:induction false} HeaderRoundTrip(d: uint16, m: uint16, n: uint16, rest: seq<uint8>)
    requires |rest| >= 2
    ensures RawDataToLegacyMessage(BE16(d) + BE16(m) + BE16(n) + rest)
            == Some(LegacyMessage(d, m, n, rest))
  {
    var data := BE16(d) + BE16(m) + BE16(n) + rest;
    var r := RawDataToLegacyMessage(data);
    var v := r.value;
    assert (BE16(v.DescriptorId) + BE16(v.MessageId) + BE16(v.Length) + v.Data)[..2] == BE16(v.DescriptorId);
    assert (BE16(v.DescriptorId) + BE16(v.MessageId) + BE16(v.Length) + v.Data)[2..4] == BE16(v.MessageId);
    assert (BE16(v.DescriptorId) + BE16(v.MessageId) + BE16(v.Length) + v.Data)[4..6] == BE16(v.Length);
    assert data[..2] == BE16(d) && data[2..4] == BE16(m) && data[4..6] == BE16(n);
    BE16Injective(v.DescriptorId, d);
    BE16Injective(v.MessageId, m);
    BE16Injective(v.Length, n);
    assert data[6..] == rest;
  }

  lemma BE16Injective(a: uint16, b: uint16)
    requires BE16(a) == BE16(b)
    ensures a == b
  {
    BE16RoundTrip(a, []);
    BE16RoundTrip(b, []);
    assert BE16(a) + [] == BE16(b) + [];
  }

  // ---------------------------------------------------------------------
  // BuildLegacyPacket
  // ---------------------------------------------------------------------

  /** The number of 2-byte words n bytes take up, rounded up, as a uint16. */
  function WordCount(n: nat): (c: uint16)
    ensures n < 0x1_FFFF ==> 2 * c == n + n % 2
  {
    ((n + 1) / 2) % 0x1_0000
  }

  /** The zero byte that pads an odd payload to whole words. */
  function Padding(n: nat): (p: seq<uint8>)
    ensures |p| == n % 2 && forall k :: 0 <= k < |p| ==> p[k] == 0
  {
    if n % 2 != 0 then [0] else []
  }

  /** The packet BuildLegacyPacket writes: descriptor, zero message id, word
      count, payload, pad and zero sender id. */
  function LegacyPacket(descriptor: uint16, data: seq<uint8>): seq<uint8>
  {
    BE16(descriptor) + [0, 0] + BE16(WordCount(|data|)) + data + Padding(|data|) + [0, 0]
  }

  /** BuildLegacyPacket, written as the source writes it: successive appends,
      a word count that is uint16(len / 2) plus one (wrapping) for an odd
      length, and a padded flag. */
  method BuildLegacyPacket(descriptor: uint16, data: seq<uint8>) returns (packet: seq<uint8>)
    ensures packet == LegacyPacket(descriptor, data)
  {
    packet := BE16(descriptor);
    packet := packet + [0, 0];
    var length: uint16 := (|data| / 2) % 0x1_0000;
    var padded := false;
    if |data| % 2 != 0 {
      WrappingIncrement(|data| / 2);
      length := (length + 1) % 0x1_0000;
      padded := true;
      assert (|data| + 1) / 2 == |data| / 2 + 1;
    } else {
      assert (|data| + 1) / 2 == |data| / 2;
    }
    packet := packet + BE16(length);
    packet := packet + data;
    if padded {
      packet := packet + [0];
    }
    packet := packet + [0, 0];
  }

  /** Adding one after wrapping to uint16 is wrapping after adding one. */
  lemma WrappingIncrement(a: nat)
    ensures (a % 0x1_0000 + 1) % 0x1_0000 == (a + 1) % 0x1_0000
  {
    var q := a / 0x1_0000;
    assert a + 1 == q * 0x1_0000 + (a % 0x1_0000 + 1);
  }

  /** Where everything sits in a built packet. */
  lemma LegacyPacketLayout(descriptor: uint16, data: seq<uint8>)
    ensures var p := LegacyPacket(descriptor, data);
            |p| == 6 + |data| + |data| % 2 + 2 &&
            Uint16At(p, 0) == descriptor &&
            p[2] == 0 && p[3] == 0 &&
            (|data| < 0x1_FFFF ==> 2 * Uint16At(p, 4) == |data| + |data| % 2) &&
            p[6..6 + |data|] == data &&
            (|data| % 2 == 1 ==> p[6 + |data|] == 0) &&
            p[|p| - 2] == 0 && p[|p| - 1] == 0
  {
    var p := LegacyPacket(descriptor, data);
    var tail := data + Padding(|data|) + [0, 0];
    assert p == BE16(descriptor) + [0, 0] + BE16(WordCount(|data|)) + tail;
    assert p[..2] == BE16(descriptor);
    assert p[4..6] == BE16(WordCount(|data|));
    assert p[6..] == tail;
    assert tail[..|data|] == data;
    if |data| % 2 == 1 {
      assert tail[|data|] == Padding(|data|)[0];
    }
  }

  /** Reading a built packet back gives the descriptor, a zero message id,
      the word count and, as Data, the payload followed by its pad and the
      sender id. */
  lemma LegacyPacketRoundTrip(descriptor: uint16, data: seq<uint8>)
    ensures RawDataToLegacyMessage(LegacyPacket(descriptor, data))
            == Some(LegacyMessage(descriptor, 0, WordCount(|data|), data + Padding(|data|) + [0, 0]))
  {
    var tail := data + Padding(|data|) + [0, 0];
    assert LegacyPacket(descriptor, data) == BE16(descriptor) + BE16(0) + BE16(WordCount(|data|)) + tail;
    HeaderRoundTrip(descriptor, 0, WordCount(|data|), tail);
  }

  // ---------------------------------------------------------------------
  // PacketLegacySmallServerInfo
  // ---------------------------------------------------------------------

  /** The small server-info payload: the port as encodeInt32 writes it, the
      hostname as encodeString writes it, and a zero transaction number. */
  function SmallServerInfoPayload(cfg: ServerConfig): seq<uint8>
  {
    EncodeInt32(cfg.Port) + StringBytes(cfg.Hostname) + EncodeInt32(0)
  }

  /** PacketLegacySmallServerInfo, written as the source writes it: the two
      port words, the length word and the packing loop inlined rather than
      calling the helpers, then two zero words. It writes byte for byte what
      the helpers would. */
  method PacketLegacySmallServerInfo(cfg: ServerConfig) returns (packet: seq<uint8>)
    ensures packet == SmallServerInfoPayload(cfg)
  {
    packet := [];
    var port: uint32 := cfg.Port;
    var lowBytes := BE16(port % 0x1_0000);
    var highBytes := BE16(port / 0x1_0000);
    packet := packet + lowBytes;
    packet := packet + highBytes;
    assert packet == EncodeInt32(cfg.Port);

    var hostname := cfg.Hostname + [0];
    ghost var encoded := EncodeInt32(cfg.Port) + StringBytes(cfg.Hostname);
    packet := packet + BE16(|hostname| % 0x1_0000);
    var i := 0;
    while i < |hostname|
      invariant 0 <= i <= |hostname| + 1
      invariant packet + PackedWords(hostname, i) == encoded
      decreases |hostname| - i
    {
      var lo := hostname[i];
      var hi := 0;
      if i + 1 < |hostname| {
        hi := hostname[i + 1];
      }
      var shortVal := PackPair(lo, hi);
      PackedWordsStep(hostname, i);
      AppendStep(packet, BE16(shortVal), PackedWords(hostname, i + 2), encoded);
      packet := packet + BE16(shortVal);
      i := i + 2;
    }
    assert packet == encoded;
    packet := packet + BE16(0);
    packet := packet + BE16(0);
    assert packet == encoded + (BE16(0) + BE16(0));
  }

  /** Decoding the small reply with the inverse decoders gives back the port, the hostname and
      a zero transaction number, and the reply is ten bytes longer than the
      encoded hostname. */
  lemma SmallServerInfoRoundTrip(cfg: ServerConfig)
    requires |cfg.Hostname| + 1 < 0x1_0000
    ensures var p := SmallServerInfoPayload(cfg);
            |p| == 10 + 2 * ((|cfg.Hostname| + 2) / 2) &&
            DecodeInt32(p, 0) == cfg.Port &&
            ParseString(p[4..]) == Some((cfg.Hostname, |p| - 8)) &&
            DecodeInt32(p, |p| - 4) == 0
  {
    var port := EncodeInt32(cfg.Port);
    var host := StringBytes(cfg.Hostname);
    var zero := EncodeInt32(0);
    var p := SmallServerInfoPayload(cfg);
    StringBytesLength(cfg.Hostname);
    SplitThree(port, host, zero);
    assert |p| == 8 + |host|;
    assert DecodeInt32(p, 0) == cfg.Port by {
      EncodeInt32RoundTrip(cfg.Port, host + zero);
    }
    assert ParseString(p[4..]) == Some((cfg.Hostname, |p| - 8)) by {
      StringRoundTrip(cfg.Hostname, zero);
    }
    assert DecodeInt32(p, |p| - 4) == 0 by {
      DecodeInt32Shift(port + host, zero, 0);
      EncodeInt32RoundTrip(0, []);
      assert zero + [] == zero;
    }
  }

  lemma SplitThree(a: seq<uint8>, h: seq<uint8>, z: seq<uint8>)
    requires |a| == 4 && |z| == 4
    ensures |a + h + z| == 8 + |h| && |a + h| == |h| + 4
    ensures (a + h + z)[4..] == h + z && a + h + z == a + (h + z)
  {
  }

  // ---------------------------------------------------------------------
  // PacketLegacyBigServerInfo
  // ---------------------------------------------------------------------

  /** "0.2.9.2.3", the release version the big reply announces. */
  const ReleaseVersion: seq<uint8> := [48, 46, 50, 46, 57, 46, 50, 46, 51]

  /** The float32 nearest to 0.1, 13421773 / 2^27, which the cycle delay
      field is given. */
  const CycleDelay: real := 13421773.0 / 134217728.0

  // The other REAL settings of the big reply.
  const Acceleration: real := 0.5
  const RubberWallHump: real := 0.0
  const RubberHitWallRatio: real := 1.0
  const WallsLength: real := 10.0

  /** The big server-info payload: the fixed field table, of which only the
      port and the server name vary. After the port come an empty hostname
      (so that the client uses the sender's address) and the name. */
  function BigServerInfoPayload(cfg: ServerConfig): seq<uint8>
  {
    EncodeInt32(cfg.Port) + StringBytes([]) + StringBytes(cfg.Name) + BigServerInfoTail()
  }

  /** The rest of the table: the user count, the lowest and highest protocol
      versions, the release, the player limit, four empty strings (user
      names, options, URL, user global ids), the settings flags, three
      minimum play times and the five REAL settings (cycle delay,
      acceleration, rubber wall hump, rubber hit-wall ratio, walls length). */
  function BigServerInfoTail(): seq<uint8>
  {
    EncodeInt32(0) + EncodeInt32(1) + EncodeInt32(25) +
    StringBytes(ReleaseVersion) + EncodeInt32(16) +
    StringBytes([]) + StringBytes([]) + StringBytes([]) + StringBytes([]) +
    EncodeInt32(0) + EncodeInt32(0) + EncodeInt32(0) + EncodeInt32(0) +
    EncodeInt32(PackedReal(CycleDelay)) + EncodeInt32(PackedReal(Acceleration)) +
    EncodeInt32(PackedReal(RubberWallHump)) + EncodeInt32(PackedReal(RubberHitWallRatio)) +
    EncodeInt32(PackedReal(WallsLength))
  }

  /** PacketLegacyBigServerInfo: one append per field, in the source's
      order, through the encodeString and encodeReal loops. */
  method PacketLegacyBigServerInfo(cfg: ServerConfig) returns (packet: seq<uint8>)
    ensures packet == BigServerInfoPayload(cfg)
  {
    packet := [];
    packet := packet + EncodeInt32(cfg.Port);
    assert packet == EncodeInt32(cfg.Port);
    var empty := EncodeString([]);
    packet := packet + empty;
    var name := EncodeString(cfg.Name);
    packet := packet + name;

    // The eighteen fields after the name, appended in the source's order
    // to a local run that then goes onto the packet in one piece.
    var tail := EncodeInt32(0);
    tail := tail + EncodeInt32(1);
    tail := tail + EncodeInt32(25);
    var version := EncodeString(ReleaseVersion);
    tail := tail + version;
    tail := tail + EncodeInt32(16);

    var usernames := EncodeString([]);
    tail := tail + usernames;
    var options := EncodeString([]);
    tail := tail + options;
    var url := EncodeString([]);
    tail := tail + url;
    var globalIds := EncodeString([]);
    tail := tail + globalIds;

    tail := tail + EncodeInt32(0);
    tail := tail + EncodeInt32(0);
    tail := tail + EncodeInt32(0);
    tail := tail + EncodeInt32(0);

    var cycleDelay := EncodeReal(CycleDelay);
    tail := tail + cycleDelay;
    var acceleration := EncodeReal(Acceleration);
    tail := tail + acceleration;
    var rubberWallHump := EncodeReal(RubberWallHump);
    tail := tail + rubberWallHump;
    var rubberHitWallRatio := EncodeReal(RubberHitWallRatio);
    tail := tail + rubberHitWallRatio;
    var wallsLength := EncodeReal(WallsLength);
    tail := tail + wallsLength;
    packet := packet + tail;
  }

  /** The bytes every big reply ends with, whatever the configuration. */
  const BigServerInfoFixedTail: seq<uint8> :=
    [0, 0, 0, 0] + [0, 1, 0, 0] + [0, 25, 0, 0] +                // users, versions
    [0, 10, 46, 48, 46, 50, 46, 57, 46, 50, 0, 51] +            // "0.2.9.2.3"
    [0, 16, 0, 0] +                                             // max players
    [0, 1, 0, 0] + [0, 1, 0, 0] + [0, 1, 0, 0] + [0, 1, 0, 0] + // four empty strings
    [0, 0, 0, 0] + [0, 0, 0, 0] + [0, 0, 0, 0] + [0, 0, 0, 0] + // settings digest
    [0x33, 0x33, 0, 0x33] + [0, 0, 1, 0] + [0, 0, 0, 0] +       // the REAL settings
    [0, 0, 5, 0] + [0, 0, 0x11, 0x40]

  lemma ReleaseVersionBytes()
    ensures StringBytes(ReleaseVersion) == [0, 10, 46, 48, 46, 50, 46, 57, 46, 50, 0, 51]
  {
    var data := ReleaseVersion + [0];
    assert data == [48, 46, 50, 46, 57, 46, 50, 46, 51, 0];
    assert PackedWords(data, 10) == [];
    assert PackedWords(data, 8) == [0, 51];
    assert PackedWords(data, 6) == [46, 50, 0, 51];
    assert PackedWords(data, 4) == [46, 57, 46, 50, 0, 51];
    assert PackedWords(data, 2) == [46, 50, 46, 57, 46, 50, 0, 51];
    assert PackedWords(data, 0) == [46, 48, 46, 50, 46, 57, 46, 50, 0, 51];
  }

  /** The thirteen integer and string fields after the name. */
  lemma FixedWholeFields()
    ensures EncodeInt32(0) + EncodeInt32(1) + EncodeInt32(25) +
            StringBytes(ReleaseVersion) + EncodeInt32(16) +
            StringBytes([]) + StringBytes([]) + StringBytes([]) + StringBytes([]) +
            EncodeInt32(0) + EncodeInt32(0) + EncodeInt32(0) + EncodeInt32(0)
         == [0, 0, 0, 0] + [0, 1, 0, 0] + [0, 25, 0, 0] +
            [0, 10, 46, 48, 46, 50, 46, 57, 46, 50, 0, 51] +
            [0, 16, 0, 0] +
            [0, 1, 0, 0] + [0, 1, 0, 0] + [0, 1, 0, 0] + [0, 1, 0, 0] +
            [0, 0, 0, 0] + [0, 0, 0, 0] + [0, 0, 0, 0] + [0, 0, 0, 0]
  {
    EmptyString();
    ReleaseVersionBytes();
    assert EncodeInt32(0) == [0, 0, 0, 0];
    assert EncodeInt32(1) == [0, 1, 0, 0];
    assert EncodeInt32(25) == [0, 25, 0, 0];
    assert EncodeInt32(16) == [0, 16, 0, 0];
  }

  /** The eighteen fields after the name, all fixed, encode to the fixed
      tail. */
  lemma FixedFields()
    ensures BigServerInfoTail() == BigServerInfoFixedTail
  {
    FixedWholeFields();
    RealFloat32Tenth();
    RealHalf();
    RealZero();
    RealOne();
    RealTen();
    assert EncodeInt32(PackedReal(CycleDelay)) == [0x33, 0x33, 0, 0x33];
    assert EncodeInt32(PackedReal(Acceleration)) == [0, 0, 1, 0];
    assert EncodeInt32(PackedReal(RubberWallHump)) == [0, 0, 0, 0];
    assert EncodeInt32(PackedReal(RubberHitWallRatio)) == [0, 0, 5, 0];
    assert EncodeInt32(PackedReal(WallsLength)) == [0, 0, 0x11, 0x40];
  }

  /** The big reply depends on the port and the server name only: it is the
      encoded port, an empty string, the encoded name and a fixed tail. */
  lemma BigServerInfoLayout(cfg: ServerConfig)
    ensures BigServerInfoPayload(cfg)
            == EncodeInt32(cfg.Port) + [0, 1, 0, 0] + StringBytes(cfg.Name) + BigServerInfoFixedTail
  {
    FixedFields();
    EmptyString();
  }

  /** Where the parts of a port, a second field, a string and a tail sit
      once concatenated. */
  lemma SplitFields(a: seq<uint8>, b: seq<uint8>, n: seq<uint8>, t: seq<uint8>)
    requires |a| == 4 && |b| == 4
    ensures var p := a + b + n + t;
            p[4..] == b + (n + t) && p[8..] == n + t && p[|p| - |t|..] == t &&
            p == a + (b + n + t)
  {
  }

  /** Decoding the big reply with the inverse decoders gives back the port, the empty hostname
      and the server name; the reply is 90 bytes plus the encoded name's
      words. */
  lemma BigServerInfoRoundTrip(cfg: ServerConfig)
    requires |cfg.Name| + 1 < 0x1_0000
    ensures var p := BigServerInfoPayload(cfg);
            |p| == 90 + 2 * ((|cfg.Name| + 2) / 2) &&
            DecodeInt32(p, 0) == cfg.Port &&
            ParseString(p[4..]) == Some(([], 4)) &&
            ParseString(p[8..]) == Some((cfg.Name, |p| - 88)) &&
            p[|p| - 80..] == BigServerInfoFixedTail
  {
    BigServerInfoLayout(cfg);
    EmptyString();
    var port := EncodeInt32(cfg.Port);
    var name := StringBytes(cfg.Name);
    var tail := BigServerInfoFixedTail;
    StringBytesLength(cfg.Name);
    SplitFields(port, [0, 1, 0, 0], name, tail);
    StringRoundTrip([], name + tail);
    StringRoundTrip(cfg.Name, tail);
    EncodeInt32RoundTrip(cfg.Port, [0, 1, 0, 0] + name + tail);
  }
}
