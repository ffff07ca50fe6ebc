/** The server's handling of one legacy datagram: decode it, answer the two
    server-info requests and ignore everything else. The socket, the
    goroutine per datagram and the logging are not part of this model; a
    reply is the datagram the server would write back. */
module Server {
  import opened Bytes
  import opened Helper
  import opened Legacy

  /** The reply to a datagram, if any: the small server info for
      GetSmallServerInfo, the big server info for GetBigServerInfo, and none
      for a short datagram, a logout or an unknown descriptor. */
  function Response(cfg: ServerConfig, data: seq<uint8>): (r: Option<seq<uint8>>)
    ensures r.Some? <==> |data| >= 8 && (Uint16At(data, 0) == GetSmallServerInfo || Uint16At(data, 0) == GetBigServerInfo)
    ensures r.Some? && Uint16At(data, 0) == GetSmallServerInfo ==>
              r.value == LegacyPacket(SmallServerInfo, SmallServerInfoPayload(cfg))
    ensures r.Some? && Uint16At(data, 0) == GetBigServerInfo ==>
              r.value == LegacyPacket(BigServerInfo, BigServerInfoPayload(cfg))
  {
    match RawDataToLegacyMessage(data)
    case None => None
    case Some(m) =>
      assert data[..2] == BE16(m.DescriptorId);
      BE16RoundTrip(m.DescriptorId, data[2..]);
      assert data == data[..2] + data[2..];
      if m.DescriptorId == GetSmallServerInfo then
        Some(LegacyPacket(SmallServerInfo, SmallServerInfoPayload(cfg)))
      else if m.DescriptorId == GetBigServerInfo then
        Some(LegacyPacket(BigServerInfo, BigServerInfoPayload(cfg)))
      else
        None
  }

  /** sendSmallServerInfo, less the write to the socket. */
  method SendSmallServerInfo(cfg: ServerConfig) returns (packet: seq<uint8>)
    ensures packet == LegacyPacket(SmallServerInfo, SmallServerInfoPayload(cfg))
  {
    var data := PacketLegacySmallServerInfo(cfg);
    packet := BuildLegacyPacket(SmallServerInfo, data);
  }

  /** sendBigServerInfo, less the write to the socket and the logging. */
  method SendBigServerInfo(cfg: ServerConfig) returns (packet: seq<uint8>)
    ensures packet == LegacyPacket(BigServerInfo, BigServerInfoPayload(cfg))
  {
    var data := PacketLegacyBigServerInfo(cfg);
    packet := BuildLegacyPacket(BigServerInfo, data);
  }

  /** handleLegacyMessage, written as the source writes it: decode, give up
      on an error, then switch on the descriptor. */
  method HandleLegacyMessage(cfg: ServerConfig, data: seq<uint8>) returns (reply: Option<seq<uint8>>)
    ensures reply == Response(cfg, data)
  {
    var lm := RawDataToLegacyMessage(data);
    if lm.None? {
      return None;
    }
    var descriptor := lm.value.DescriptorId;
    if descriptor == GetSmallServerInfo {
      var packet := SendSmallServerInfo(cfg);
      reply := Some(packet);
    } else if descriptor == GetBigServerInfo {
      var packet := SendBigServerInfo(cfg);
      reply := Some(packet);
    } else if descriptor == Logout {
      reply := None;
    } else {
      reply := None;
    }
  }

  /** The server the program starts: port 4534 and an empty hostname, so
      that the client uses the sender's address. */
  const DefaultPort: uint16 := 4534

  /** A GetSmallServerInfo request to the default server is answered with
      twenty bytes: the SmallServerInfo header with six words of payload,
      the port word-swapped, the empty hostname and a zero transaction
      number, then the zero sender id. */
  lemma DefaultSmallReply(cfg: ServerConfig, data: seq<uint8>)
    requires cfg.Hostname == [] && cfg.Port == DefaultPort
    requires |data| >= 8 && data[0] == 0 && data[1] == 52
    ensures Response(cfg, data)
            == Some([0, 50, 0, 0, 0, 6, 0x11, 0xB6, 0, 0, 0, 1, 0, 0, 0, 0, 0, 0, 0, 0])
  {
    DefaultSmallPacket(cfg);
    assert Uint16At(data, 0) == GetSmallServerInfo;
  }

  /** The packet sendSmallServerInfo writes for the default server. */
  lemma DefaultSmallPacket(cfg: ServerConfig)
    requires cfg.Hostname == [] && cfg.Port == DefaultPort
    ensures LegacyPacket(SmallServerInfo, SmallServerInfoPayload(cfg))
            == [0, 50, 0, 0, 0, 6, 0x11, 0xB6, 0, 0, 0, 1, 0, 0, 0, 0, 0, 0, 0, 0]
  {
    DefaultSmallPayload(cfg);
    assert WordCount(12) == 6 && Padding(12) == [];
  }

  /** The small payload of the default server: the port 4534 word-swapped,
      the empty hostname, a zero transaction number. */
  lemma DefaultSmallPayload(cfg: ServerConfig)
    requires cfg.Hostname == [] && cfg.Port == DefaultPort
    ensures SmallServerInfoPayload(cfg) == [0x11, 0xB6, 0, 0, 0, 1, 0, 0, 0, 0, 0, 0]
  {
    EmptyString();
    assert EncodeInt32(DefaultPort) == [0x11, 0xB6, 0, 0];
    assert EncodeInt32(0) == [0, 0, 0, 0];
  }

  /** Every reply is an even number of bytes long and parses back as a
      legacy message carrying the reply descriptor and a zero message id. */
  lemma ResponseDecodes(cfg: ServerConfig, data: seq<uint8>)
    requires Response(cfg, data).Some?
    ensures var p := Response(cfg, data).value;
            |p| % 2 == 0 &&
            RawDataToLegacyMessage(p).Some? &&
            RawDataToLegacyMessage(p).value.MessageId == 0 &&
            RawDataToLegacyMessage(p).value.DescriptorId ==
              (if Uint16At(data, 0) == GetSmallServerInfo then SmallServerInfo else BigServerInfo)
  {
    if Uint16At(data, 0) == GetSmallServerInfo {
      ReplyDecodes(SmallServerInfo, SmallServerInfoPayload(cfg));
    } else {
      ReplyDecodes(BigServerInfo, BigServerInfoPayload(cfg));
    }
  }

  lemma ReplyDecodes(descriptor: uint16, payload: seq<uint8>)
    ensures var p := LegacyPacket(descriptor, payload);
            |p| % 2 == 0 &&
            RawDataToLegacyMessage(p).Some? &&
            RawDataToLegacyMessage(p).value.MessageId == 0 &&
            RawDataToLegacyMessage(p).value.DescriptorId == descriptor
  {
    var p := LegacyPacket(descriptor, payload);
    var n := |payload|;
    assert |p| % 2 == 0 by {
      assert |p| == 8 + n + n % 2;
      RoundUpEven(n);
    }
    LegacyPacketRoundTrip(descriptor, payload);
  }
}
