/** The frame layer of the sensor's UART protocol: the 9-byte request frame,
    header synchronisation on the receive stream, the byte-2/byte-3 exchange and
    the receive-side checksum verdict, all as functions on byte sequences. */
module Protocol {
  import opened Checksum

  datatype Option<T> = None | Some(value: T)

  /** Length of a request frame on the wire. */
  const CommandFrameSize: nat := 9

  /** The fixed protocol byte sent after the header in every request. */
  const Version: byte := 0x01

  /** The 9-byte request frame for a 4-byte command `cmd` (code, two
      parameters, checksum): header, version, the three command bytes,
      three reserved zeros, then the command's own checksum byte. */
  function CommandFrame(cmd: seq<byte>): (f: seq<byte>)
    requires |cmd| == 4
    ensures |f| == CommandFrameSize
    ensures f[0] == Header && f[1] == Version
    ensures f[2..5] == cmd[..3] && f[5..8] == [0, 0, 0] && f[8] == cmd[3]
  {
    [Header, Version, cmd[0], cmd[1], cmd[2], 0x00, 0x00, 0x00, cmd[3]]
  }

  /** The measurement request: code 0x86, both parameters zero, and its checksum
      byte written out as a literal. */
  function ReadCommand(): (cmd: seq<byte>)
    ensures |cmd| == 4 && cmd[0] == 0x86 && cmd[1] == 0 && cmd[2] == 0
    ensures cmd[3] == CmdCheckSum(cmd[0], cmd[1], cmd[2])
  {
    [0x86, 0x00, 0x00, 0x79]
  }

  /** Reads a request frame back: the three command bytes when the layout and
      the receive-side checksum rule both hold. */
  function ParseCommand(f: seq<byte>): Option<seq<byte>>
  {
    if |f| == CommandFrameSize && f[0] == Header && f[1] == Version
       && f[5] == 0 && f[6] == 0 && f[7] == 0 && ChecksumValid(f)
    then Some(f[2..5])
    else None
  }

  /** The wrapped sum that the receive-side rule takes over a request frame is
      the command-checksum sum. */
  lemma CommandFrameSum(cmd: seq<byte>)
    requires |cmd| == 4
    ensures Sum(CommandFrame(cmd)[1..8]) == Version + cmd[0] + cmd[1] + cmd[2]
  {
    var f := CommandFrame(cmd);
    assert f[1..8] == [Version, cmd[0]] + [cmd[1], cmd[2]] + [0, 0] + [0];
    SumAppend([Version, cmd[0]] + [cmd[1], cmd[2]] + [0, 0], [0]);
    SumAppend([Version, cmd[0]] + [cmd[1], cmd[2]], [0, 0]);
    SumAppend([Version, cmd[0]], [cmd[1], cmd[2]]);
    SumPair(Version, cmd[0]);
    SumPair(cmd[1], cmd[2]);
    SumPair(0, 0);
    assert [0][..0] == [];
  }

  /** A request frame passes the receive-side checksum rule (N = 9) exactly
      when its last command byte is the command checksum. */
  lemma CommandFrameChecksum(cmd: seq<byte>)
    requires |cmd| == 4
    ensures ChecksumValid(CommandFrame(cmd)) <==> cmd[3] == CmdCheckSum(cmd[0], cmd[1], cmd[2])
  {
    CommandFrameSum(cmd);
  }

  /** Round trip: parsing a request frame gives back the command bytes exactly
      when the command carries its correct checksum. */
  lemma CommandRoundTrip(cmd: seq<byte>)
    requires |cmd| == 4
    ensures ParseCommand(CommandFrame(cmd)) == Some(cmd[..3]) <==> cmd[3] == CmdCheckSum(cmd[0], cmd[1], cmd[2])
    ensures cmd[3] != CmdCheckSum(cmd[0], cmd[1], cmd[2]) ==> ParseCommand(CommandFrame(cmd)) == None
  {
    CommandFrameChecksum(cmd);
  }

  /** The sent measurement request is a well-formed request for code 0x86. */
  lemma ReadCommandFrame()
    ensures ParseCommand(CommandFrame(ReadCommand())) == Some([0x86, 0x00, 0x00])
  {
    CommandRoundTrip(ReadCommand());
    assert ReadCommand()[..3] == [0x86, 0x00, 0x00];
  }

  /** Header synchronisation: drops leading bytes up to the first header marker,
      or the whole stream when there is none. */
  function Sync(s: seq<byte>): (r: seq<byte>)
    ensures |r| <= |s| && r == s[|s| - |r|..]
    ensures r == [] || r[0] == Header
    ensures forall k :: 0 <= k < |s| - |r| ==> s[k] != Header
  {
    if s == [] || s[0] == Header then s else Sync(s[1..])
  }

  /** The in-place exchange of bytes 2 and 3 applied to a received frame. */
  function SwapBytes(f: seq<byte>): (g: seq<byte>)
    requires |f| >= 4
    ensures |g| == |f| && g[2] == f[3] && g[3] == f[2]
    ensures forall k :: 0 <= k < |f| && k != 2 && k != 3 ==> g[k] == f[k]
  {
    f[..2] + [f[3], f[2]] + f[4..]
  }

  /** The exchange is its own inverse. */
  lemma SwapBytesInvolution(f: seq<byte>)
    requires |f| >= 4
    ensures SwapBytes(SwapBytes(f)) == f
  {
  }

  /** Positions 2 and 3 lie inside the checksummed range, so the exchange does
      not change the checksum verdict. */
  lemma SwapBytesChecksum(f: seq<byte>)
    requires |f| >= 5
    ensures ChecksumValid(SwapBytes(f)) <==> ChecksumValid(f)
  {
    var n := |f|;
    var g := SwapBytes(f);
    assert f[1..n - 1] == [f[1]] + [f[2], f[3]] + f[4..n - 1];
    assert g[1..n - 1] == [f[1]] + [f[3], f[2]] + f[4..n - 1];
    SumTranspose([f[1]], f[2], f[3], f[4..n - 1]);
  }

  /** What one receive attempt leaves behind: the verdict, the cached frame
      buffer and the unread rest of the stream. */
  datatype ReadOutcome = ReadOutcome(ok: bool, cache: seq<byte>, rest: seq<byte>)

  /** One receive attempt on `stream` with frame size `n`: synchronise on the
      header; with fewer than `n` bytes left, fail and keep `cache`; otherwise
      take `n` bytes, exchange bytes 2 and 3 into the cache, and accept when the
      cached frame passes the checksum rule. */
  function ReceiveFrame(stream: seq<byte>, n: nat, cache: seq<byte>): (r: ReadOutcome)
    requires 5 <= n && |cache| == n
    ensures |r.cache| == n
    ensures |r.rest| <= |stream| && r.rest == stream[|stream| - |r.rest|..]
  {
    var s := Sync(stream);
    if |s| < n then ReadOutcome(false, cache, s)
    else
      var f := SwapBytes(s[..n]);
      ReadOutcome(ChecksumValid(f), f, s[n..])
  }

  /** Too few bytes after synchronisation: the attempt fails and the cache is
      left as it was. */
  lemma ReceiveShortStream(stream: seq<byte>, n: nat, cache: seq<byte>)
    requires 5 <= n && |cache| == n
    requires |Sync(stream)| < n
    ensures ReceiveFrame(stream, n, cache) == ReadOutcome(false, cache, Sync(stream))
  {
  }

  /** Enough bytes after synchronisation: the cache holds the first `n` synced
      bytes with positions 2 and 3 exchanged, whatever the verdict, and exactly
      those `n` bytes are consumed. */
  lemma ReceiveCache(stream: seq<byte>, n: nat, cache: seq<byte>)
    requires 5 <= n && |cache| == n
    requires |Sync(stream)| >= n
    ensures var r, s := ReceiveFrame(stream, n, cache), Sync(stream);
      && r.cache[2] == s[3] && r.cache[3] == s[2]
      && (forall k :: 0 <= k < n && k != 2 && k != 3 ==> r.cache[k] == s[k])
      && SwapBytes(r.cache) == s[..n]
      && r.rest == s[n..]
  {
    SwapBytesInvolution(Sync(stream)[..n]);
  }

  /** The verdict: a receive attempt succeeds exactly when at least `n` bytes
      follow synchronisation and the frame as it arrived on the wire passes
      the checksum rule. */
  lemma ReceiveVerdict(stream: seq<byte>, n: nat, cache: seq<byte>)
    requires 5 <= n && |cache| == n
    ensures var s := Sync(stream);
      ReceiveFrame(stream, n, cache).ok <==> |s| >= n && ChecksumValid(s[..n])
  {
    var s := Sync(stream);
    if |s| >= n {
      SwapBytesChecksum(s[..n]);
    }
  }
}
