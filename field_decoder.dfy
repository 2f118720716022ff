/**
 * Field decoding for the FAT32 photo carver.
 *
 * The card dump is an immutable sequence of bytes. Every field the carver
 * looks at is either a little-endian integer of one to four bytes or a short
 * NUL-terminated text. A read of `n` bytes at `off` needs `off + n <= |dump|`:
 * that precondition stands for the carver's assertion that `fread` delivered
 * every byte it was asked for.
 */
module FieldDecoder {

  type byte = x: int | 0 <= x < 256

  /** Why the carver stops early: a read that would run past the end of the
      dump (the length assertions after `fread`), or a cluster size of zero
      (an integer division by zero when the cluster count is computed). */
  datatype Failure = ReadPastEnd(offset: nat) | ZeroClusterSize

  datatype Result<T> = Ok(value: T) | Err(failure: Failure)

  /** Size of the decoders' scratch buffer; one byte is kept for the NUL. */
  const MAX_NUM_BYTES: nat := 20

  const TWO_POW_31: int := 0x8000_0000
  const TWO_POW_32: int := 0x1_0000_0000

  function Pow256(n: nat): (r: nat)
    ensures r > 0
  {
    if n == 0 then 1 else 256 * Pow256(n - 1)
  }

  lemma Pow256Values()
    ensures Pow256(1) == 256 && Pow256(2) == 0x1_0000
    ensures Pow256(3) == 0x100_0000 && Pow256(4) == TWO_POW_32
  {
  }

  /** The unsigned little-endian value of `s`: s[0] + 256 * s[1] + 256^2 * s[2] + ... */
  function LittleEndian(s: seq<byte>): nat
  {
    if |s| == 0 then 0 else s[0] + 256 * LittleEndian(s[1..])
  }

  /** The `n`-byte little-endian encoding of `v`, the inverse of LittleEndian. */
  function ToLittleEndian(v: nat, n: nat): (s: seq<byte>)
    ensures |s| == n
  {
    if n == 0 then [] else [v % 256] + ToLittleEndian(v / 256, n - 1)
  }

  function Zeros(k: nat): (s: seq<byte>)
    ensures |s| == k && forall i :: 0 <= i < k ==> s[i] == 0
  {
    seq(k, _ => 0)
  }

  /** Byte i weighs 256^i: appending bytes adds them above the existing ones. */
  lemma {:induction false} LittleEndianAppend(s: seq<byte>, t: seq<byte>)
    ensures LittleEndian(s + t) == LittleEndian(s) + Pow256(|s|) * LittleEndian(t)
  {
    if |s| == 0 {
      assert s + t == t;
    } else {
      assert (s + t)[1..] == s[1..] + t;
      LittleEndianAppend(s[1..], t);
      var x, p, l := LittleEndian(s[1..]), Pow256(|s| - 1), LittleEndian(t);
      assert Pow256(|s|) == 256 * p;
      ShiftProduct(x, p, l);
    }
  }

  lemma ShiftProduct(x: int, p: int, l: int)
    ensures 256 * (x + p * l) == 256 * x + (256 * p) * l
  {
  }

  lemma {:induction false} LittleEndianOfZeros(k: nat)
    ensures LittleEndian(Zeros(k)) == 0
  {
    if k > 0 {
      assert Zeros(k)[1..] == Zeros(k - 1);
      LittleEndianOfZeros(k - 1);
    }
  }

  /** Zero bytes above the read ones do not change the value (zero extension). */
  lemma ZeroExtension(s: seq<byte>, k: nat)
    ensures LittleEndian(s + Zeros(k)) == LittleEndian(s)
  {
    LittleEndianAppend(s, Zeros(k));
    LittleEndianOfZeros(k);
  }

  /** An n-byte value is below 256^n. */
  lemma {:induction false} LittleEndianBound(s: seq<byte>)
    ensures LittleEndian(s) < Pow256(|s|)
  {
    if |s| > 0 {
      LittleEndianBound(s[1..]);
    }
  }

  lemma {:induction false} DecodeEncode(v: nat, n: nat)
    requires v < Pow256(n)
    ensures LittleEndian(ToLittleEndian(v, n)) == v
  {
    if n > 0 {
      assert ToLittleEndian(v, n)[1..] == ToLittleEndian(v / 256, n - 1);
      DecodeEncode(v / 256, n - 1);
    }
  }

  lemma {:induction false} EncodeDecode(s: seq<byte>)
    ensures ToLittleEndian(LittleEndian(s), |s|) == s
  {
    if |s| > 0 {
      var v := LittleEndian(s);
      assert v % 256 == s[0] && v / 256 == LittleEndian(s[1..]);
      EncodeDecode(s[1..]);
    }
  }

  /** The two's-complement reading of a 32-bit word, as the union of an `int`
      and four `char`s yields it on a little-endian machine. */
  function AsInt32(u: nat): (r: int)
    requires u < TWO_POW_32
    ensures -TWO_POW_31 <= r < TWO_POW_31
    ensures (u - r) % TWO_POW_32 == 0
    ensures r >= 0 <==> u < TWO_POW_31
  {
    if u < TWO_POW_31 then u else u - TWO_POW_32
  }

  /** The value `interpret_as_int` returns for the `n` bytes at `off`: the
      bytes read, zero-extended to four, read as a signed 32-bit integer. */
  function IntAt(dump: seq<byte>, off: nat, n: nat): (r: int)
    requires n <= 4 && off + n <= |dump|
    ensures n < 4 ==> 0 <= r < Pow256(n) && r == LittleEndian(dump[off..off + n])
    ensures -TWO_POW_31 <= r < TWO_POW_31
    ensures (LittleEndian(dump[off..off + n]) - r) % TWO_POW_32 == 0
  {
    var field := dump[off..off + n];
    LittleEndianBound(field);
    Pow256Values();
    assert Pow256(n) <= TWO_POW_32 by {
      assert n == 0 || n == 1 || n == 2 || n == 3 || n == 4;
    }
    assert n < 4 ==> Pow256(n) <= TWO_POW_31 by {
      assert n < 4 ==> n == 0 || n == 1 || n == 2 || n == 3;
    }
    AsInt32(LittleEndian(field))
  }

  /** The decoder as the C program runs it: the bytes read are copied into the
      low bytes of a four-byte word, the rest of the word is zeroed, and the
      word is read back as an integer. */
  method InterpretAsInt(dump: seq<byte>, off: nat, n: nat) returns (v: int)
    requires n <= MAX_NUM_BYTES - 1 && n <= 4
    requires off + n <= |dump|
    ensures v == IntAt(dump, off, n)
  {
    var contents := dump[off..off + n];
    var word := new byte[4];
    for iter := 0 to 4
      invariant forall k :: 0 <= k < iter ==> word[k] == if k < n then contents[k] else 0
    {
      if iter < n {
        word[iter] := contents[iter];
      } else {
        word[iter] := 0;
      }
    }
    assert word[..] == contents + Zeros(4 - n);
    ZeroExtension(contents, 4 - n);
    LittleEndianBound(word[..]);
    Pow256Values();
    v := AsInt32(LittleEndian(word[..]));
  }

  /** The prefix of `s` before its first NUL byte (all of `s` if it has none). */
  function UntilNul(s: seq<byte>): (r: seq<byte>)
    ensures |r| <= |s| && r == s[..|r|]
    ensures forall i :: 0 <= i < |r| ==> r[i] != 0
    ensures |r| < |s| ==> s[|r|] == 0
  {
    if |s| == 0 || s[0] == 0 then [] else [s[0]] + UntilNul(s[1..])
  }

  /** The string `interpret_as_string` builds from the `n` bytes at `off`:
      the buffer is NUL-terminated after the last byte read, so the text
      ends at the first NUL or after `n` bytes. */
  function InterpretAsString(dump: seq<byte>, off: nat, n: nat): (r: seq<byte>)
    requires n <= MAX_NUM_BYTES - 1
    requires off + n <= |dump|
    ensures |r| <= n && r == dump[off..off + |r|]
    ensures forall i :: 0 <= i < |r| ==> r[i] != 0
    ensures |r| < n ==> dump[off + |r|] == 0
  {
    UntilNul(dump[off..off + n])
  }

  /** A NUL-free prefix followed by a NUL (or by the end) is what UntilNul yields. */
  lemma {:induction false} UntilNulOfTerminated(s: seq<byte>, lit: seq<byte>)
    requires |lit| <= |s| && s[..|lit|] == lit
    requires forall i :: 0 <= i < |lit| ==> lit[i] != 0
    requires |lit| == |s| || s[|lit|] == 0
    ensures UntilNul(s) == lit
  {
    if lit != [] {
      assert s[0] == lit[0];
      assert s[1..][..|lit| - 1] == lit[1..];
      UntilNulOfTerminated(s[1..], lit[1..]);
    }
  }

  /** When the text read equals a NUL-free literal: the literal's bytes are
      there, and the read ends right after them (a NUL, or the read width). */
  lemma TextMatches(dump: seq<byte>, off: nat, n: nat, lit: seq<byte>)
    requires n <= MAX_NUM_BYTES - 1 && off + n <= |dump|
    requires forall i :: 0 <= i < |lit| ==> lit[i] != 0
    ensures InterpretAsString(dump, off, n) == lit <==>
              |lit| <= n && dump[off..off + |lit|] == lit && (|lit| == n || dump[off + |lit|] == 0)
  {
    if |lit| <= n && dump[off..off + |lit|] == lit && (|lit| == n || dump[off + |lit|] == 0) {
      UntilNulOfTerminated(dump[off..off + n], lit);
    }
  }

  /** A string literal as the bytes of its (single-byte) characters. */
  function Ascii(s: string): (r: seq<byte>)
    requires forall i :: 0 <= i < |s| ==> s[i] as int < 256
    ensures |r| == |s| && forall i :: 0 <= i < |s| ==> r[i] == s[i] as int
  {
    seq(|s|, i requires 0 <= i < |s| => s[i] as int)
  }
}
