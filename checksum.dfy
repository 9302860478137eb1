/** Byte arithmetic of the Winsen UART protocol: uint8 sums that wrap at 256
    and the "negate and add one" checksum used for commands and responses. */
module Checksum {

  /** An unsigned 8-bit value (C++ `uint8_t`). */
  type byte = x: int | 0 <= x < 256

  /** The frame header marker. */
  const Header: byte := 0xFF

  /** Integer sum of a byte sequence, without wrap-around. */
  function Sum(s: seq<byte>): nat
  {
    if s == [] then 0 else Sum(s[..|s| - 1]) + s[|s| - 1]
  }

  /** `(~x) + 1` stored back into a `uint8_t`: the two's-complement negation mod 256. */
  function Negate(x: byte): (y: byte)
    ensures (x + y) % 256 == 0
  {
    (256 - x) % 256
  }

  /** The receive-side rule: the last byte is the negated wrapped sum of every
      byte between the first and the last, that is, adding the last byte to
      that sum gives 0 mod 256. */
  function ChecksumValid(f: seq<byte>): (valid: bool)
    ensures valid <==> |f| >= 2 && (Sum(f[1..|f| - 1]) + f[|f| - 1]) % 256 == 0
  {
    if |f| < 2 then false
    else
      NegateUnique(Sum(f[1..|f| - 1]) % 256, f[|f| - 1]);
      Negate(Sum(f[1..|f| - 1]) % 256) == f[|f| - 1]
  }

  /** Command checksum over the implicit version byte 0x01 and the three command bytes. */
  function CmdCheckSum(c0: byte, c1: byte, c2: byte): (cs: byte)
    ensures (0x01 + c0 + c1 + c2 + cs) % 256 == 0
  {
    Negate((0x01 + c0 + c1 + c2) % 256)
  }

  /** Negation is the only byte that brings a wrapped sum back to zero. */
  lemma NegateUnique(x: byte, y: byte)
    ensures (x + y) % 256 == 0 <==> y == Negate(x)
  {
  }

  /** The command checksum is the unique byte that makes the command sum vanish mod 256. */
  lemma CmdCheckSumUnique(c0: byte, c1: byte, c2: byte, cs: byte)
    ensures (0x01 + c0 + c1 + c2 + cs) % 256 == 0 <==> cs == CmdCheckSum(c0, c1, c2)
  {
    NegateUnique((0x01 + c0 + c1 + c2) % 256, cs);
  }

  lemma {:induction false} SumAppend(a: seq<byte>, b: seq<byte>)
    ensures Sum(a + b) == Sum(a) + Sum(b)
  {
    if b == [] {
      assert a + b == a;
    } else {
      var c := a + b;
      assert c[..|c| - 1] == a + b[..|b| - 1];
      SumAppend(a, b[..|b| - 1]);
    }
  }

  lemma SumPair(x: byte, y: byte)
    ensures Sum([x, y]) == x + y
  {
    assert [x, y][..1] == [x];
    assert [x][..0] == [];
    assert Sum([x]) == x;
  }

  /** Exchanging two adjacent bytes does not change the sum. */
  lemma SumTranspose(a: seq<byte>, x: byte, y: byte, b: seq<byte>)
    ensures Sum(a + [x, y] + b) == Sum(a + [y, x] + b)
  {
    SumAppend(a + [x, y], b);
    SumAppend(a, [x, y]);
    SumPair(x, y);
    SumAppend(a + [y, x], b);
    SumAppend(a, [y, x]);
    SumPair(y, x);
  }

  /** Replacing one byte changes the sum by exactly the difference. */
  lemma SumUpdate(s: seq<byte>, k: nat, b: byte)
    requires k < |s|
    ensures Sum(s[k := b]) == Sum(s) - s[k] + b
  {
    assert s == s[..k] + [s[k]] + s[k + 1..];
    assert s[k := b] == s[..k] + [b] + s[k + 1..];
    SumAppend(s[..k] + [s[k]], s[k + 1..]);
    SumAppend(s[..k], [s[k]]);
    SumAppend(s[..k] + [b], s[k + 1..]);
    SumAppend(s[..k], [b]);
    assert [s[k]][..0] == [] && [b][..0] == [];
  }

  /** A running uint8 sum: adding a byte to a wrapped sum wraps the longer sum. */
  lemma WrappedSumStep(s: seq<byte>, x: byte)
    ensures (Sum(s) % 256 + x) % 256 == Sum(s + [x]) % 256
  {
    assert (s + [x])[..|s + [x]| - 1] == s;
  }

  /** The running sum of `f[1..i]` extended by the next byte. */
  lemma WrappedSumSlice(f: seq<byte>, i: nat)
    requires 1 <= i < |f|
    ensures (Sum(f[1..i]) % 256 + f[i]) % 256 == Sum(f[1..i + 1]) % 256
  {
    assert f[1..i + 1] == f[1..i] + [f[i]];
    WrappedSumStep(f[1..i], f[i]);
  }

  /** Changing a sum by a nonzero amount of less than 256 changes it mod 256. */
  lemma WrappedChange(s: nat, t: nat, old_: byte, new_: byte)
    requires t == s - old_ + new_ && old_ != new_
    ensures s % 256 != t % 256
  {
  }

  /** The receive-side rule rejects any frame in which one byte after the first
      has been replaced by a different value. */
  lemma CorruptionDetected(f: seq<byte>, k: nat, b: byte)
    requires ChecksumValid(f)
    requires 1 <= k < |f| && b != f[k]
    ensures !ChecksumValid(f[k := b])
  {
    var n := |f|;
    var g := f[k := b];
    if k == n - 1 {
      assert g[1..n - 1] == f[1..n - 1];
    } else {
      assert g[1..n - 1] == f[1..n - 1][k - 1 := b];
      SumUpdate(f[1..n - 1], k - 1, b);
      var s, t := Sum(f[1..n - 1]), Sum(g[1..n - 1]);
      WrappedChange(s, t, f[k], b);
      NegateUnique(s % 256, f[n - 1]);
      NegateUnique(t % 256, f[n - 1]);
    }
  }
}
