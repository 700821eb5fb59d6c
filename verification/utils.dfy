/**
 * The minimal-byte encoder: each integer is written as the shortest
 * little-endian byte string that holds it.
 */
module Utils {
  import opened Types

  /**
   * The bytes the encoder yields for one number: while the value exceeds
   * 255, its low byte, then the value shifted right by eight bits; finally
   * the value cast to a byte. For the positive values the loop sees,
   * masking with 0xFF is % 256 and the shift is / 256; the final cast of
   * a negative value keeps its low eight bits, which is value % 256.
   */
  function MinimumBytes(value: int): (bytes: seq<byte>)
    ensures |bytes| >= 1
    decreases value
  {
    if value > 255 then [value % 256] + MinimumBytes(value / 256)
    else [value % 256]
  }

  /** The bytes the encoder yields for a sequence of numbers: each number's bytes, in order. */
  function MinimumBytesOf(numbers: seq<int32>): seq<byte>
  {
    if numbers == [] then [] else MinimumBytes(numbers[0]) + MinimumBytesOf(numbers[1..])
  }

  /** The number a little-endian byte string stands for. */
  function LittleEndian(bytes: seq<byte>): nat
  {
    if bytes == [] then 0 else bytes[0] + 256 * LittleEndian(bytes[1..])
  }

  function Pow256(k: nat): (p: nat)
    ensures p >= 1
  {
    if k == 0 then 1 else 256 * Pow256(k - 1)
  }

  method ToMinimumBytes(numbers: seq<int32>) returns (bytes: seq<byte>)
    ensures bytes == MinimumBytesOf(numbers)
  {
    bytes := [];
    for n := 0 to |numbers|
      invariant bytes == MinimumBytesOf(numbers[..n])
    {
      var value: int := numbers[n];
      ghost var done := bytes;
      while value > 255
        invariant done + MinimumBytes(numbers[n]) == bytes + MinimumBytes(value)
        decreases value
      {
        bytes := bytes + [value % 256];
        value := value / 256;
      }
      bytes := bytes + [value % 256];
      MinimumBytesOfSnoc(numbers, n);
    }
    assert numbers[..|numbers|] == numbers;
  }

  /** Encoding one more number appends its bytes. */
  lemma MinimumBytesOfSnoc(numbers: seq<int32>, n: nat)
    requires n < |numbers|
    ensures MinimumBytesOf(numbers[..n + 1]) == MinimumBytesOf(numbers[..n]) + MinimumBytes(numbers[n])
  {
    assert numbers[..n + 1] == numbers[..n] + [numbers[n]];
    MinimumBytesOfAppend(numbers[..n], [numbers[n]]);
    assert MinimumBytesOf([numbers[n]]) == MinimumBytes(numbers[n]) + [];
  }

  /** The output for a sequence is the in-order concatenation of the outputs for its parts. */
  lemma {:induction false} MinimumBytesOfAppend(xs: seq<int32>, ys: seq<int32>)
    ensures MinimumBytesOf(xs + ys) == MinimumBytesOf(xs) + MinimumBytesOf(ys)
  {
    if xs == [] {
      assert xs + ys == ys;
    } else {
      assert (xs + ys)[1..] == xs[1..] + ys;
      MinimumBytesOfAppend(xs[1..], ys);
    }
  }

  /** A value that fits a byte is one byte, itself; a negative value is one byte, its low eight bits. */
  lemma OneByte(value: int)
    requires value <= 255
    ensures MinimumBytes(value) == [value % 256]
    ensures 0 <= value ==> MinimumBytes(value) == [value]
  {
  }

  /** Read back little-endian, the bytes of a non-negative value give the value. */
  lemma {:induction false} MinimumBytesValue(value: int)
    requires value >= 0
    ensures LittleEndian(MinimumBytes(value)) == value
    decreases value
  {
    var bytes := MinimumBytes(value);
    if value > 255 {
      MinimumBytesValue(value / 256);
      assert bytes[1..] == MinimumBytes(value / 256);
    } else {
      assert bytes[1..] == [];
    }
  }

  /** The bytes of a value above 255 end in a nonzero byte: there is no trailing zero. */
  lemma {:induction false} MinimumBytesNoTrailingZero(value: int)
    requires value > 255
    ensures var bytes := MinimumBytes(value); bytes[|bytes| - 1] != 0
    decreases value
  {
    var bytes := MinimumBytes(value);
    var rest := MinimumBytes(value / 256);
    assert bytes == [value % 256] + rest;
    assert bytes[|bytes| - 1] == rest[|rest| - 1];
    if value / 256 > 255 {
      MinimumBytesNoTrailingZero(value / 256);
    } else {
      assert rest == [value / 256];
    }
  }

  /** For a non-negative value the byte count k is the least k >= 1 with value < 256^k. */
  lemma {:induction false} MinimumBytesLength(value: int)
    requires value >= 0
    ensures var k := |MinimumBytes(value)|;
      value < Pow256(k) && (k == 1 || Pow256(k - 1) <= value)
    decreases value
  {
    if value > 255 {
      var rest := MinimumBytes(value / 256);
      MinimumBytesLength(value / 256);
      assert |MinimumBytes(value)| == 1 + |rest|;
      var k := |rest|;
      assert value / 256 < Pow256(k);
      assert value < 256 * Pow256(k);
      if k > 1 {
        assert Pow256(k - 1) <= value / 256;
        assert Pow256(k) == 256 * Pow256(k - 1);
      }
    }
  }
}
