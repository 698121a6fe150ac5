/** The log console of `drivers/console/pulse_uart_console.c`: characters
    written by `printk` are collected after a fixed 35-byte PULSE header in a
    static 256-byte buffer, and every newline sends the buffer as one frame on
    the UART: the length field is filled in, a CRC-32 is appended, the whole is
    COBS-encoded, every 0x55 byte of the encoding is replaced by 0x00 and the
    result is sent between two 0x55 delimiters.

    As written, characters are accepted while `msg_len < 256`, but the CRC is
    then stored at `msg_buf[msg_len..msg_len + 4)`, past the end of the buffer
    once `msg_len > 252`. `Console` accepts characters only while four bytes
    remain for the CRC; `NextLenAsWritten` and `CrcOverrunsAsWritten` show the
    overrun of the code as written. */
module Console {
  import opened Cobs
  import Crc32
  import Bytes

  const MSG_BUF_LEN: nat := 256
  const MSG_HDR_LEN: nat := 35
  const CRC_LEN: nat := 4
  const FRAME_DELIMITER: Byte := 0x55

  const NEWLINE: int := 10
  const CARRIAGE_RETURN: int := 13

  /** The initial contents of `msg_buf`: the PULSE push code 0x5021, the
      logging protocol 0x0003, the length (filled in per message), message
      type 1 (text), the source file name "PBLBOOT" padded to 16 bytes, the
      level and task "**", an 8-byte timestamp and a 2-byte line number. */
  const HEADER: seq<Byte> :=
    [0x50, 0x21, 0x00, 0x03, 0, 0, 1,
     80, 66, 76, 66, 79, 79, 84, 0, 0, 0, 0, 0, 0, 0, 0, 0,
     42, 42,
     0, 0, 0, 0, 0, 0, 0, 0,
     0, 0]

  /** The largest `msg_len` at which the CRC still fits in the buffer. */
  const TEXT_END: nat := MSG_BUF_LEN - CRC_LEN

  function ToBv(s: seq<Byte>): (b: seq<bv8>)
    ensures |b| == |s|
  {
    seq(|s|, i requires 0 <= i < |s| => s[i] as bv8)
  }

  function FromBv(b: seq<bv8>): (s: seq<Byte>)
    ensures |s| == |b|
  {
    seq(|b|, i requires 0 <= i < |b| => b[i] as int)
  }

  /** `sys_put_be16(msg_len - 2U, &msg_buf[4])`: the length counts every byte
      but the two of the push code. */
  function LengthField(msgLen: nat): (f: seq<Byte>)
    requires 2 <= msgLen <= MSG_BUF_LEN
    ensures |f| == 2
  {
    FromBv(Bytes.Be16((msgLen - 2) as bv16))
  }

  /** The message for a line of text: the header with its length filled in,
      then the text. */
  function Message(text: seq<Byte>): (m: seq<Byte>)
    requires |text| <= TEXT_END - MSG_HDR_LEN
    ensures |m| == MSG_HDR_LEN + |text|
  {
    HEADER[..4] + LengthField(MSG_HDR_LEN + |text|) + HEADER[6..] + text
  }

  /** `sys_put_le32(crc32_ieee(msg_buf, msg_len), &msg_buf[msg_len])`. */
  function CrcField(m: seq<Byte>): (f: seq<Byte>)
    ensures |f| == CRC_LEN
  {
    FromBv(Bytes.Le32(Crc32.Crc(ToBv(m))))
  }

  /** The message followed by its CRC: the bytes that are COBS-encoded. */
  function Packet(text: seq<Byte>): (p: seq<Byte>)
    requires |text| <= TEXT_END - MSG_HDR_LEN
    ensures |p| == MSG_HDR_LEN + |text| + CRC_LEN
  {
    Message(text) + CrcField(Message(text))
  }

  /** The delimiter substitution of the send loop. */
  function Escape(e: seq<Byte>): (x: seq<Byte>)
    ensures |x| == |e|
  {
    seq(|e|, i requires 0 <= i < |e| => if e[i] == FRAME_DELIMITER then 0 else e[i])
  }

  /** What goes out on the UART for a packet. */
  function Frame(p: seq<Byte>): seq<Byte>
  {
    [FRAME_DELIMITER] + Escape(Encode(p)) + [FRAME_DELIMITER]
  }

  /** How a receiver undoes the substitution. */
  function Unescape(x: seq<Byte>): (e: seq<Byte>)
    ensures |e| == |x|
  {
    seq(|x|, i requires 0 <= i < |x| => if x[i] == 0 then FRAME_DELIMITER else x[i])
  }

  /** How a receiver reads a frame: strip the delimiters, undo the
      substitution and COBS-decode. */
  function Unframe(f: seq<Byte>): Option<seq<Byte>>
  {
    if |f| < 2 || f[0] != FRAME_DELIMITER || f[|f| - 1] != FRAME_DELIMITER then None
    else Decode(Unescape(f[1..|f| - 1]))
  }

  /** The substitution is undone on any sequence free of zeros. */
  lemma UnescapeEscape(e: seq<Byte>)
    requires NonZero(e)
    ensures Unescape(Escape(e)) == e
  {
  }

  /** A frame starts and ends with the delimiter, carries no delimiter in
      between, and gives the packet back to a receiver. */
  lemma FrameCorrect(p: seq<Byte>)
    ensures Frame(p)[0] == FRAME_DELIMITER && Frame(p)[|Frame(p)| - 1] == FRAME_DELIMITER
    ensures forall i :: 0 < i < |Frame(p)| - 1 ==> Frame(p)[i] != FRAME_DELIMITER
    ensures Unframe(Frame(p)) == Some(p)
  {
    var e := Encode(p);
    EncodeCorrect(p);
    UnescapeEscape(e);
    var f := Frame(p);
    assert f[1..|f| - 1] == Escape(e);
  }

  /** The CRC field is the CRC-32 of the message it follows, little-endian. */
  lemma PacketCrc(text: seq<Byte>)
    requires |text| <= TEXT_END - MSG_HDR_LEN
    ensures Packet(text)[..MSG_HDR_LEN + |text|] == Message(text)
    ensures Packet(text)[MSG_HDR_LEN + |text|..] == CrcField(Message(text))
  {
  }

  /** The header bytes other than the length field are those of `HEADER`,
      and the text follows the header. */
  lemma MessageLayout(text: seq<Byte>)
    requires |text| <= TEXT_END - MSG_HDR_LEN
    ensures Message(text)[..4] == HEADER[..4]
    ensures Message(text)[4..6] == LengthField(MSG_HDR_LEN + |text|)
    ensures Message(text)[6..MSG_HDR_LEN] == HEADER[6..]
    ensures Message(text)[MSG_HDR_LEN..] == text
  {
  }

  /** The packet starts with the push code 0x50 0x21 and then a zero, and is
      at most 256 bytes long, so no run of non-zero bytes in it reaches 254:
      the encoder as written and the one with the full-block split produce
      the same bytes for every packet the console sends. */
  lemma PacketEncodingAgrees(text: seq<Byte>)
    requires |text| <= TEXT_END - MSG_HDR_LEN
    ensures EncodeAsWritten(Packet(text)) == Encode(Packet(text))
  {
    var p := Packet(text);
    MessageLayout(text);
    PacketCrc(text);
    var m := Message(text);
    assert m[..4] == HEADER[..4];
    assert m[0] == HEADER[0] && m[1] == HEADER[1] && m[2] == HEADER[2];
    assert p[..MSG_HDR_LEN + |text|] == m;
    assert p[0] == m[0] && p[1] == m[1] && p[2] == m[2];
    ShortRunsBelow(0, p[3..], 254);
    assert p[1..][1..] == p[2..] && p[2..][1..] == p[3..];
    assert RunsBelow(0, p[2..], 254);
    assert RunsBelow(1, p[1..], 254);
    AsWrittenAgrees([], p);
  }

  /** `msg_len` after one character, as written: a newline resets it, a
      carriage return is skipped and any other character is stored while
      `msg_len < 256`. */
  function NextLenAsWritten(msgLen: nat, c: int): nat
  {
    if c == NEWLINE then MSG_HDR_LEN
    else if c != CARRIAGE_RETURN && msgLen < MSG_BUF_LEN then msgLen + 1
    else msgLen
  }

  function LenAfterAsWritten(msgLen: nat, cs: seq<int>): nat
    decreases |cs|
  {
    if cs == [] then msgLen else LenAfterAsWritten(NextLenAsWritten(msgLen, cs[0]), cs[1..])
  }

  /** The same step with the corrected limit: characters are stored only
      while the CRC still fits. */
  function NextLen(msgLen: nat, c: int): nat
  {
    if c == NEWLINE then MSG_HDR_LEN
    else if c != CARRIAGE_RETURN && msgLen < TEXT_END then msgLen + 1
    else msgLen
  }

  /** As written, `msg_len` stays in 35..256 whatever the character. */
  lemma NextLenAsWrittenBounded(msgLen: nat, c: int)
    requires MSG_HDR_LEN <= msgLen <= MSG_BUF_LEN
    ensures MSG_HDR_LEN <= NextLenAsWritten(msgLen, c) <= MSG_BUF_LEN
    ensures c == NEWLINE ==> NextLenAsWritten(msgLen, c) == MSG_HDR_LEN
    ensures c == CARRIAGE_RETURN ==> NextLenAsWritten(msgLen, c) == msgLen
  {
  }

  /** A line with neither newline nor carriage return fills the buffer up to
      `min(35 + |cs|, 256)` as written. */
  lemma {:induction false} FillAsWritten(msgLen: nat, cs: seq<int>)
    requires MSG_HDR_LEN <= msgLen <= MSG_BUF_LEN
    requires forall i :: 0 <= i < |cs| ==> cs[i] != NEWLINE && cs[i] != CARRIAGE_RETURN
    ensures LenAfterAsWritten(msgLen, cs) == if msgLen + |cs| < MSG_BUF_LEN then msgLen + |cs| else MSG_BUF_LEN
    decreases |cs|
  {
    if cs != [] {
      FillAsWritten(NextLenAsWritten(msgLen, cs[0]), cs[1..]);
    }
  }

  /** A line of 221 or more other characters brings `msg_len` to 256, and
      the CRC store of the next newline then writes `msg_buf[256..260)`,
      past the end of the buffer. */
  lemma CrcOverrunsAsWritten(cs: seq<int>)
    requires |cs| >= MSG_BUF_LEN - MSG_HDR_LEN
    requires forall i :: 0 <= i < |cs| ==> cs[i] != NEWLINE && cs[i] != CARRIAGE_RETURN
    ensures LenAfterAsWritten(MSG_HDR_LEN, cs) == MSG_BUF_LEN
    ensures LenAfterAsWritten(MSG_HDR_LEN, cs) + CRC_LEN > MSG_BUF_LEN
  {
    FillAsWritten(MSG_HDR_LEN, cs);
  }

  /** With the corrected limit `msg_len` stays in 35..252 whatever the
      characters, so the CRC store is always in bounds. */
  lemma NextLenBounded(msgLen: nat, c: int)
    requires MSG_HDR_LEN <= msgLen <= TEXT_END
    ensures MSG_HDR_LEN <= NextLen(msgLen, c) <= TEXT_END
    ensures NextLen(msgLen, c) + CRC_LEN <= MSG_BUF_LEN
    ensures c != NEWLINE ==> NextLen(msgLen, c) == if c != CARRIAGE_RETURN && msgLen < TEXT_END then msgLen + 1 else msgLen
  {
  }

  /** The console's static state: `msg_buf`, `msg_len`, and the bytes handed
      to `uart_poll_out` so far. */
  class Console {
    const msgBuf: array<Byte>
    var msgLen: nat
    var uart: seq<Byte>

    ghost predicate Valid()
      reads this, msgBuf
    {
      && msgBuf.Length == MSG_BUF_LEN
      && MSG_HDR_LEN <= msgLen <= TEXT_END
      && msgBuf[..4] == HEADER[..4]
      && msgBuf[6..MSG_HDR_LEN] == HEADER[6..]
    }

    /** The text collected since the last newline. */
    function Text(): (t: seq<Byte>)
      reads this, msgBuf
      requires Valid()
      ensures |t| <= TEXT_END - MSG_HDR_LEN
    {
      msgBuf[MSG_HDR_LEN..msgLen]
    }

    constructor()
      ensures Valid() && fresh(msgBuf)
      ensures msgBuf[..] == HEADER + seq(MSG_BUF_LEN - MSG_HDR_LEN, i => 0)
      ensures msgLen == MSG_HDR_LEN && uart == []
    {
      msgBuf := new Byte[MSG_BUF_LEN](i => if 0 <= i < MSG_HDR_LEN then HEADER[i] else 0);
      msgLen := MSG_HDR_LEN;
      uart := [];
      new;
      assert msgBuf[..] == HEADER + seq(MSG_BUF_LEN - MSG_HDR_LEN, i => 0);
    }

    /** `console_out(c)`: returns `c`; a newline sends the collected line as
        one frame and starts a new line, a carriage return is dropped and any
        other character is stored, as `(uint8_t)c`, while there is room. */
    method Out(c: int) returns (r: int)
      requires Valid()
      modifies this, msgBuf
      ensures Valid() && r == c
      ensures msgLen == NextLen(old(msgLen), c)
      ensures c == NEWLINE ==>
                && uart == old(uart) + Frame(Packet(old(Text())))
                && msgBuf[..old(msgLen) + CRC_LEN] == Packet(old(Text()))
                && msgBuf[old(msgLen) + CRC_LEN..] == old(msgBuf[msgLen + CRC_LEN..])
      ensures c != NEWLINE ==> uart == old(uart)
      ensures c != NEWLINE && msgLen == old(msgLen) + 1 ==> msgBuf[..] == old(msgBuf[..])[old(msgLen) := c % 256]
      ensures c != NEWLINE && msgLen == old(msgLen) ==> msgBuf[..] == old(msgBuf[..])
    {
      if c == NEWLINE {
        SendLine();
      } else if c != CARRIAGE_RETURN && msgLen < TEXT_END {
        msgBuf[msgLen] := c % 256;
        msgLen := msgLen + 1;
      }
      return c;
    }

    /** The newline branch of `console_out`: fill in the length, append the
        CRC, COBS-encode into `msg_enc`, send the frame and start a new line. */
    method SendLine()
      requires Valid()
      modifies this, msgBuf
      ensures Valid() && msgLen == MSG_HDR_LEN
      ensures uart == old(uart) + Frame(Packet(old(Text())))
      ensures msgBuf[..old(msgLen) + CRC_LEN] == Packet(old(Text()))
      ensures msgBuf[old(msgLen) + CRC_LEN..] == old(msgBuf[msgLen + CRC_LEN..])
    {
      ghost var text := Text();
      FillHeader();
      AppendCrc(text);
      Transmit(msgLen + CRC_LEN, text);
      msgLen := MSG_HDR_LEN;
    }

    /** The COBS encoding into `msg_enc`, sized by `PB_COBS_MAX_ENC_SIZE`, of
        the first `n` bytes of the buffer, which hold the packet of `text`. The
        encoder is the one as written; for a console packet it produces the
        standard encoding. */
    method EncodePacket(n: nat, ghost text: seq<Byte>) returns (enc: array<Byte>, encLen: nat)
      requires |text| <= TEXT_END - MSG_HDR_LEN
      requires 1 <= n <= msgBuf.Length && msgBuf[..n] == Packet(text)
      ensures encLen <= enc.Length && enc[..encLen] == Encode(Packet(text))
    {
      ghost var p := Packet(text);
      EncodeCorrect(p);
      PacketEncodingAgrees(text);
      enc := new Byte[MaxEncSize(n)](i => 0);
      encLen := EncodeToAsWritten(enc, msgBuf, n);
    }

    /** The encoding and the send loop for the packet of `text`. */
    method Transmit(n: nat, ghost text: seq<Byte>)
      requires |text| <= TEXT_END - MSG_HDR_LEN
      requires 1 <= n <= msgBuf.Length && msgBuf[..n] == Packet(text)
      modifies this`uart
      ensures uart == old(uart) + Frame(Packet(text))
    {
      var enc, encLen := EncodePacket(n, text);
      SendFrame(enc, encLen);
    }

    /** `sys_put_be16(msg_len - 2U, &msg_buf[4])`. */
    method FillHeader()
      requires Valid()
      modifies msgBuf
      ensures Valid() && msgBuf[..msgLen] == Message(old(Text()))
      ensures msgBuf[msgLen..] == old(msgBuf[msgLen..])
    {
      ghost var text := Text();
      var f := LengthField(msgLen);
      msgBuf[4] := f[0];
      msgBuf[5] := f[1];
      assert msgBuf[..msgLen] == HEADER[..4] + f + HEADER[6..] + text;
    }

    /** `sys_put_le32(crc32_ieee(msg_buf, msg_len), &msg_buf[msg_len])`. */
    method AppendCrc(ghost text: seq<Byte>)
      requires Valid() && |text| <= TEXT_END - MSG_HDR_LEN && msgBuf[..msgLen] == Message(text)
      modifies msgBuf
      ensures Valid() && msgBuf[..msgLen + CRC_LEN] == Packet(text)
      ensures msgBuf[msgLen + CRC_LEN..] == old(msgBuf[msgLen + CRC_LEN..])
    {
      var f := CrcField(msgBuf[..msgLen]);
      ghost var before := msgBuf[..];
      forall i | 0 <= i < CRC_LEN {
        msgBuf[msgLen + i] := f[i];
      }
      assert msgBuf[..] == before[..msgLen] + f + before[msgLen + CRC_LEN..];
      assert msgBuf[..msgLen + CRC_LEN] == Message(text) + f;
    }

    /** The send loop: the opening delimiter, every encoded byte with 0x55
        replaced by 0x00, and the closing delimiter. */
    method SendFrame(enc: array<Byte>, n: nat)
      requires n <= enc.Length
      modifies this`uart
      ensures uart == old(uart) + [FRAME_DELIMITER] + Escape(enc[..n]) + [FRAME_DELIMITER]
    {
      uart := uart + [FRAME_DELIMITER];
      for i := 0 to n
        invariant uart == old(uart) + [FRAME_DELIMITER] + Escape(enc[..i])
      {
        if enc[i] == FRAME_DELIMITER {
          uart := uart + [0];
        } else {
          uart := uart + [enc[i]];
        }
        assert Escape(enc[..i + 1]) == Escape(enc[..i]) + [Escape(enc[..i + 1])[i]];
      }
      uart := uart + [FRAME_DELIMITER];
    }
  }
}
