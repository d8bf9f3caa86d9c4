/** The command and reply words of the host-target interface (spike_interface/spike_htif.h, lines 7-19). */
module HtifWords {

  function ToHostCmd(dev: bv64, cmd: bv64, payload: bv64): bv64 {
    (dev << 56) | (cmd << 48) | payload
  }

  function Dev(w: bv64): bv64 { w >> 56 }

  function Cmd(w: bv64): bv64 { (w << 8) >> 56 }

  function Data(w: bv64): bv64 { (w << 16) >> 16 }

  /** The byte of a console reply: `(uint8_t)FROMHOST_DATA(fh)`. */
  function CharBits(w: bv64): bv8 { (Data(w) & 0xFF) as bv8 }

  /** Packing loses nothing as long as each part fits its field. */
  lemma Unpacks(dev: bv64, cmd: bv64, payload: bv64)
    requires dev < 256 && cmd < 256 && payload < 0x1_0000_0000_0000
    ensures var w := ToHostCmd(dev, cmd, payload); Dev(w) == dev && Cmd(w) == cmd && Data(w) == payload
  {
  }

  /** Where the fields are: the device in the top byte, the command in the next, the payload in the low 48 bits. */
  lemma FieldBits(dev: bv64, cmd: bv64, payload: bv64, w: bv64)
    requires dev < 256 && cmd < 256 && payload < 0x1_0000_0000_0000
    ensures var v := ToHostCmd(dev, cmd, payload);
            v >> 56 == dev && (v >> 48) & 0xFF == cmd && v & 0xFFFF_FFFF_FFFF == payload
    ensures Dev(w) == w >> 56 && Cmd(w) == (w >> 48) & 0xFF && Data(w) == w & 0xFFFF_FFFF_FFFF
    ensures CharBits(w) as bv64 == w & 0xFF
  {
  }

  lemma PacksBack(w: bv64)
    ensures ToHostCmd(Dev(w), Cmd(w), Data(w)) == w
  {
  }

  /** A payload that overflows its field is or-ed into the command: the field bound is exact. */
  lemma PayloadMustFit(dev: bv64, cmd: bv64, payload: bv64)
    requires dev < 256 && cmd < 256
    ensures Data(ToHostCmd(dev, cmd, payload)) == payload <==> payload < 0x1_0000_0000_0000
  {
  }

  lemma CharOfReply(c: bv8)
    ensures CharBits(ToHostCmd(1, 0, c as bv64)) == c
  {
  }
}
