/** The ZPHS01B driver object: it writes request frames to the serial port,
    reads a response frame from it into a cached frame buffer, and exposes
    16-bit readings from that buffer. */
module Driver {
  import opened Checksum
  import opened Protocol

  /** Byte offsets of the big-endian two-byte fields inside the frame buffer. */
  datatype Layout = Layout(pm1: nat, pm2: nat, co2: nat, humidity: nat)
  {
    predicate FitsIn(n: nat)
    {
      pm1 + 1 < n && pm2 + 1 < n && co2 + 1 < n && humidity + 1 < n
    }
  }

  /** Big-endian 16-bit value of a high and a low byte. */
  function BigEndian16(hi: byte, lo: byte): (v: nat)
    ensures v < 0x1_0000
    ensures v / 256 == hi && v % 256 == lo
  {
    hi * 256 + lo
  }

  /** The command checksum as the driver computes it: a `uint8_t` accumulator
      that starts at the version byte 0x01, adds the three command bytes with
      wrap-around, and is negated. */
  method CalcCmdCheckSum(cmd: seq<byte>) returns (cs: byte)
    requires |cmd| >= 3
    ensures (0x01 + cmd[0] + cmd[1] + cmd[2] + cs) % 256 == 0
    ensures cs == CmdCheckSum(cmd[0], cmd[1], cmd[2])
  {
    var acc: byte := 0x01;
    for i := 0 to 3
      invariant acc == (0x01 + Sum(cmd[..i])) % 256
    {
      assert cmd[..i + 1] == cmd[..i] + [cmd[i]];
      WrappedSumStep([0x01] + cmd[..i], cmd[i]);
      SumAppend([0x01], cmd[..i]);
      SumAppend([0x01], cmd[..i] + [cmd[i]]);
      assert [0x01] + cmd[..i] + [cmd[i]] == [0x01] + (cmd[..i] + [cmd[i]]);
      acc := (acc + cmd[i]) % 256;
    }
    assert cmd[..3] == [cmd[0], cmd[1]] + [cmd[2]];
    SumAppend([cmd[0], cmd[1]], [cmd[2]]);
    SumPair(cmd[0], cmd[1]);
    assert [cmd[2]][..0] == [];
    cs := Negate(acc);
  }

  class ZPHS01B {
    /** Size of a response frame (`SIZEOF_FRAME`). */
    const frameSize: nat
    /** Where each reading sits in the frame buffer. */
    const layout: Layout
    /** The cached response frame (`_unionFrame.buffer`). */
    const buffer: array<byte>
    /** Bytes received from the sensor and not yet read, oldest first. */
    var input: seq<byte>
    /** Every byte written to the sensor so far, oldest first. */
    var output: seq<byte>

    /** The checksum loop counts with a `uint8_t`, so a frame is at most 256
        bytes; it has at least 5 so that positions 2 and 3 are checksummed. */
    ghost predicate Valid()
    {
      buffer.Length == frameSize && 5 <= frameSize <= 256 && layout.FitsIn(frameSize)
    }

    constructor (n: nat, fields: Layout, stream: seq<byte>)
      requires 5 <= n <= 256 && fields.FitsIn(n)
      ensures Valid() && fresh(buffer)
      ensures frameSize == n && layout == fields
      ensures input == stream && output == []
      ensures forall k :: 0 <= k < n ==> buffer[k] == 0
    {
      frameSize, layout := n, fields;
      buffer := new byte[n](_ => 0);
      input, output := stream, [];
    }

    /** Writes the 9-byte request frame for the 4-byte command `cmd`. */
    method SendCmd(cmd: seq<byte>)
      requires |cmd| == 4
      modifies this`output
      ensures output == old(output) + CommandFrame(cmd)
    {
      output := output + [Header];
      output := output + [Version];
      for i := 0 to 3
        invariant output == old(output) + [Header, Version] + cmd[..i]
      {
        output := output + [cmd[i]];
      }
      for i := 0 to 3
        invariant output == old(output) + [Header, Version] + cmd[..3] + seq(i, _ => 0)
      {
        output := output + [0x00];
      }
      output := output + [cmd[3]];
    }

    /** Discards received bytes until the next one is the header marker or
        nothing is left. */
    method SyncHeader()
      modifies this`input
      ensures input == Sync(old(input))
    {
      while |input| > 0 && input[0] != Header
        invariant Sync(input) == Sync(old(input))
        decreases |input|
      {
        input := input[1..];
      }
    }

    /** `readBytes(buffer, frameSize)` once at least `frameSize` bytes are
        waiting: moves exactly the next `frameSize` received bytes into the
        frame buffer. */
    method ReadBytes()
      requires Valid() && |input| >= frameSize
      modifies this`input, buffer
      ensures buffer[..] == old(input[..frameSize]) && input == old(input[frameSize..])
    {
      for i := 0 to frameSize
        invariant input == old(input)
        invariant forall k :: 0 <= k < i ==> buffer[k] == input[k]
      {
        buffer[i] := input[i];
      }
      input := input[frameSize..];
    }

    /** Puts the high and low bytes at positions 2 and 3 of the cached frame
        back into machine order by exchanging them through a temporary. */
    method SwapHighLow()
      requires Valid()
      modifies buffer
      ensures buffer[..] == SwapBytes(old(buffer[..]))
    {
      var tmp := buffer[2];
      buffer[2] := buffer[3];
      buffer[3] := tmp;
    }

    /** The checksum loop of the receive path: a `uint8_t` sum of the cached
        bytes 1 to `frameSize - 2`, negated. The result cancels that sum
        mod 256. */
    method FrameCheckSum() returns (check: byte)
      requires Valid()
      ensures (Sum(buffer[1..frameSize - 1]) + check) % 256 == 0
      ensures check == buffer[frameSize - 1] <==> ChecksumValid(buffer[..])
    {
      ghost var frame := buffer[..];
      check := 0;
      assert frame[1..1] == [];
      for i := 1 to frameSize - 1
        invariant check == Sum(frame[1..i]) % 256
      {
        WrappedSumSlice(frame, i);
        check := (check + buffer[i]) % 256;
      }
      check := Negate(check);
      assert buffer[1..frameSize - 1] == frame[1..frameSize - 1];
    }

    /** One receive attempt; `Protocol.ReceiveFrame` gives its outcome. */
    method ReadData() returns (ok: bool)
      requires Valid()
      modifies this`input, buffer
      ensures var r := ReceiveFrame(old(input), frameSize, old(buffer[..]));
        ok == r.ok && buffer[..] == r.cache && input == r.rest
    {
      SyncHeader();
      if |input| < frameSize {
        return false;
      }
      ReadBytes();
      SwapHighLow();
      var check := FrameCheckSum();
      ok := check == buffer[frameSize - 1];
    }

    /** Sends the measurement request and makes one receive attempt. */
    method Read() returns (ok: bool)
      requires Valid()
      modifies this, buffer
      ensures output == old(output) + CommandFrame(ReadCommand())
      ensures var r := ReceiveFrame(old(input), frameSize, old(buffer[..]));
        ok == r.ok && buffer[..] == r.cache && input == r.rest
    {
      var cmd: seq<byte> := [0x86, 0x00, 0x00, 0x79];
      SendCmd(cmd);
      ok := ReadData();
    }

    function GetPM1(): (v: nat)
      requires Valid()
      reads buffer
      ensures v < 0x1_0000
      ensures v / 256 == buffer[layout.pm1] && v % 256 == buffer[layout.pm1 + 1]
    {
      BigEndian16(buffer[layout.pm1], buffer[layout.pm1 + 1])
    }

    function GetPM2(): (v: nat)
      requires Valid()
      reads buffer
      ensures v < 0x1_0000
      ensures v / 256 == buffer[layout.pm2] && v % 256 == buffer[layout.pm2 + 1]
    {
      BigEndian16(buffer[layout.pm2], buffer[layout.pm2 + 1])
    }

    function GetCO2(): (v: nat)
      requires Valid()
      reads buffer
      ensures v < 0x1_0000
      ensures v / 256 == buffer[layout.co2] && v % 256 == buffer[layout.co2 + 1]
    {
      BigEndian16(buffer[layout.co2], buffer[layout.co2 + 1])
    }

    function GetHumidity(): (v: nat)
      requires Valid()
      reads buffer
      ensures v < 0x1_0000
      ensures v / 256 == buffer[layout.humidity] && v % 256 == buffer[layout.humidity + 1]
    {
      BigEndian16(buffer[layout.humidity], buffer[layout.humidity + 1])
    }
  }
}
