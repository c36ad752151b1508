/**
 * The magic packet: six 0xFF synchronisation bytes followed by sixteen copies of
 * the six hardware-address bytes.
 */
module Packet {
  import opened PhpStrings
  import opened Mac

  const SyncByte: byte := 0xFF
  const SyncLength: nat := 6
  const Copies: nat := 16

  /** str_repeat(chr(0xFF), 6): the packet before the MAC is appended. */
  function SyncPrefix(): seq<byte> {
    Repeat([SyncByte], SyncLength)
  }

  /** The finished packet for the hardware address hw. */
  function MagicPacket(hw: seq<byte>): seq<byte> {
    SyncPrefix() + Repeat(hw, Copies)
  }

  /**
   * The foreach loop over explode('-', mac) that appends chr(hexdec(group)) for
   * each group to the hardware address.
   */
  method DecodeHwAddress(mac: string) returns (hwAddress: seq<byte>)
    ensures hwAddress == HwAddress(Groups(mac))
  {
    var groups := Explode('-', mac);
    hwAddress := [];
    for i := 0 to |groups|
      invariant |hwAddress| == i
      invariant forall k | 0 <= k < i :: hwAddress[k] == Chr(HexDec(groups[k]))
    {
      hwAddress := hwAddress + [Chr(HexDec(groups[i]))];
    }
  }

  /** For a six-byte address the packet is 102 bytes: the sync bytes, then byte i is hw[(i - 6) % 6]. */
  lemma MagicPacketLayout(hw: seq<byte>)
    requires |hw| == 6
    ensures |MagicPacket(hw)| == 102
    ensures forall i | 0 <= i < SyncLength :: MagicPacket(hw)[i] == SyncByte
    ensures forall i | SyncLength <= i < |MagicPacket(hw)| :: MagicPacket(hw)[i] == hw[(i - SyncLength) % 6]
  {
    RepeatLength([SyncByte], SyncLength);
    RepeatLength(hw, Copies);
    forall i | 0 <= i < SyncLength ensures SyncPrefix()[i] == SyncByte {
      RepeatAt([SyncByte], SyncLength, i, 0);
    }
    forall i | SyncLength <= i < 102 ensures MagicPacket(hw)[i] == hw[(i - SyncLength) % 6] {
      var k, j := (i - SyncLength) / 6, (i - SyncLength) % 6;
      RepeatAt(hw, Copies, k, j);
      assert k * |hw| + j == i - SyncLength;
    }
  }

  /**
   * For every accepted MAC text the packet is 102 bytes: 6 x 0xFF, then the six
   * bytes given by the hex pairs of the text, sixteen times over.
   */
  lemma PacketOfAcceptedMac(mac: string)
    requires MacShape(mac)
    ensures |MagicPacket(HwAddress(Groups(mac)))| == 102
    ensures forall i | 0 <= i < 6 :: MagicPacket(HwAddress(Groups(mac)))[i] == 0xFF
    ensures forall i | 6 <= i < 102 ::
      MagicPacket(HwAddress(Groups(mac)))[i] as int
        == 16 * HexDigitValue(mac[3 * ((i - 6) % 6)]) + HexDigitValue(mac[3 * ((i - 6) % 6) + 1])
  {
    DecodeAccepted(mac);
    MagicPacketLayout(HwAddress(Groups(mac)));
  }

  /** Two texts that normalise alike give the same packet, byte for byte. */
  lemma ExampleSamePacketForBothSeparators()
    ensures MagicPacket(HwAddress(Groups(Normalize("00:11:22:33:44:55"))))
         == MagicPacket(HwAddress(Groups(Normalize("00-11-22-33-44-55"))))
  {
    SpellingsNormaliseAlike("00:11:22:33:44:55", "00-11-22-33-44-55");
  }
}
