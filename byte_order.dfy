/**
 * Little-endian byte order, as the DDS container stores its 32-bit fields and the encoder
 * writes its 64-bit blocks: a value of n bytes has its lowest byte first.
 */
module ByteOrder {
  import opened Util
  import opened Arithmetic

  /** 256 to the power n: the first value n bytes cannot hold. */
  function Pow256(n: nat): (r: nat)
    ensures r >= 1
  {
    if n == 0 then 1 else 0x100 * Pow256(n - 1)
  }

  /** The n bytes of v, lowest first; bits above them are dropped, as a narrowing cast drops
    * them. */
  function LittleEndian(v: nat, n: nat): (r: seq<Byte>)
    ensures |r| == n
  {
    if n == 0 then [] else [v % 0x100] + LittleEndian(v / 0x100, n - 1)
  }

  /** The value of bytes stored lowest first. */
  function ValueOf(s: seq<Byte>): (r: nat)
    ensures r < Pow256(|s|)
  {
    if s == [] then 0 else s[0] + 0x100 * ValueOf(s[1..])
  }

  /** Reading n little-endian bytes back gives the value modulo 256^n: exactly the value when
    * it fits. */
  lemma {:induction false} ValueOfLittleEndian(v: nat, n: nat)
    ensures ValueOf(LittleEndian(v, n)) == v % Pow256(n)
  {
    if n > 0 {
      var s := LittleEndian(v, n);
      assert s[1..] == LittleEndian(v / 0x100, n - 1);
      ValueOfLittleEndian(v / 0x100, n - 1);
      ModOfProduct(v, Pow256(n - 1));
    }
  }

  /** v mod 256k is its low byte plus 256 times (v / 256) mod k. */
  lemma ModOfProduct(v: nat, k: nat)
    requires k >= 1
    ensures v % (0x100 * k) == v % 0x100 + 0x100 * (v / 0x100 % k)
  {
    var low := v % 0x100;
    var q := v / 0x100 / k;
    var rest := v / 0x100 % k;
    var r := low + 0x100 * rest;
    assert v == 0x100 * (v / 0x100) + low;
    assert v / 0x100 == k * q + rest;
    assert r < 0x100 * k by {
      MulMonotone(rest, k - 1, 0x100);
    }
    assert v == q * (0x100 * k) + r by {
      calc {
        v;
        0x100 * (k * q + rest) + low;
        q * (0x100 * k) + r;
      }
    }
    DivModUnique(v, 0x100 * k, q, r);
  }

  lemma ValueOfLittleEndianFits(v: nat, n: nat)
    requires v < Pow256(n)
    ensures ValueOf(LittleEndian(v, n)) == v
  {
    ValueOfLittleEndian(v, n);
  }

  /** Equal byte strings of equal length come only from values equal modulo 256^n. */
  lemma LittleEndianInjective(u: nat, v: nat, n: nat)
    requires u < Pow256(n) && v < Pow256(n) && LittleEndian(u, n) == LittleEndian(v, n)
    ensures u == v
  {
    ValueOfLittleEndianFits(u, n);
    ValueOfLittleEndianFits(v, n);
  }

  /** A uint32 as its four bytes in memory. */
  function U32Bytes(v: nat): (r: seq<Byte>)
    ensures |r| == 4
  {
    LittleEndian(v, 4)
  }

  /** A uint64 as its eight bytes in memory. */
  function U64Bytes(v: nat): (r: seq<Byte>)
    ensures |r| == 8
  {
    LittleEndian(v, 8)
  }

  /** The bytes of a uint32 read back. */
  lemma U32RoundTrip(v: U32)
    ensures ValueOf(U32Bytes(v)) == v
  {
    assert Pow256(4) == UINT32_MODULUS;
    ValueOfLittleEndianFits(v, 4);
  }

  /** The bytes of a uint64 read back. */
  lemma U64RoundTrip(v: U64)
    ensures ValueOf(U64Bytes(v)) == v
  {
    assert Pow256(8) == SIZE_MODULUS;
    ValueOfLittleEndianFits(v, 8);
  }

  /** Values of n bytes each, stored one after the other as an array of them is in memory. */
  function Concat(values: seq<nat>, n: nat): (r: seq<Byte>)
    ensures |r| == n * |values|
  {
    if values == [] then [] else LittleEndian(values[0], n) + Concat(values[1..], n)
  }

  /** Bytes read back as values of n bytes each; a trailing partial value is dropped. */
  function Split(s: seq<Byte>, n: nat): (r: seq<nat>)
    requires n > 0
    ensures |r| == |s| / n
    decreases |s|
  {
    if |s| < n then []
    else
      assert (|s| - n) / n + 1 == |s| / n by {
        DivModUnique(|s|, n, (|s| - n) / n + 1, (|s| - n) % n);
      }
      [ValueOf(s[..n])] + Split(s[n..], n)
  }

  /** Reading back values that fit in n bytes gives the values. */
  lemma {:induction false} SplitConcat(values: seq<nat>, n: nat)
    requires n > 0 && forall i :: 0 <= i < |values| ==> values[i] < Pow256(n)
    ensures Split(Concat(values, n), n) == values
  {
    if values != [] {
      var s := Concat(values, n);
      assert s[..n] == LittleEndian(values[0], n);
      assert s[n..] == Concat(values[1..], n);
      ValueOfLittleEndianFits(values[0], n);
      SplitConcat(values[1..], n);
    }
  }

  /** Value i lies at bytes n*i .. n*i + n - 1. */
  lemma {:induction false} ConcatAt(values: seq<nat>, n: nat, i: nat)
    requires i < |values|
    ensures n * i + n <= |Concat(values, n)|
    ensures Concat(values, n)[n * i..n * i + n] == LittleEndian(values[i], n)
  {
    MulMonotone(i + 1, |values|, n);
    if i > 0 {
      var s := Concat(values, n);
      assert s == LittleEndian(values[0], n) + Concat(values[1..], n);
      ConcatAt(values[1..], n, i - 1);
      assert n * i == n + n * (i - 1);
      assert s[n * i..n * i + n] == Concat(values[1..], n)[n * (i - 1)..n * (i - 1) + n];
    }
  }

  /** An array of uint32 values as its bytes. */
  function DwordBytes(values: seq<U32>): (r: seq<Byte>)
    ensures |r| == 4 * |values|
  {
    Concat(values, 4)
  }

  /** An array of uint64 values as its bytes. */
  function WordBytes(words: seq<U64>): (r: seq<Byte>)
    ensures |r| == 8 * |words|
  {
    Concat(words, 8)
  }

  /** Reading the bytes of an array of uint32 values gives the values back. */
  lemma DwordsOfDwordBytes(values: seq<U32>)
    ensures Split(DwordBytes(values), 4) == values
  {
    assert Pow256(4) == UINT32_MODULUS;
    SplitConcat(values, 4);
  }

  /** Reading the bytes of an array of uint64 values gives the values back. */
  lemma WordsOfWordBytes(words: seq<U64>)
    ensures Split(WordBytes(words), 8) == words
  {
    assert Pow256(8) == SIZE_MODULUS;
    SplitConcat(words, 8);
  }

  /** Value i of a uint32 array is read back from its four bytes. */
  lemma DwordAt(values: seq<U32>, i: nat)
    requires i < |values|
    ensures ValueOf(DwordBytes(values)[4 * i..4 * i + 4]) == values[i]
  {
    ConcatAt(values, 4, i);
    U32RoundTrip(values[i]);
  }

  /** Word i of a uint64 array is read back from its eight bytes. */
  lemma WordAt(words: seq<U64>, i: nat)
    requires i < |words|
    ensures ValueOf(WordBytes(words)[8 * i..8 * i + 8]) == words[i]
  {
    ConcatAt(words, 8, i);
    U64RoundTrip(words[i]);
  }
}
