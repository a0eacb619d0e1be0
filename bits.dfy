/** Integer bit helpers: Go's `byte`, `intToBits`, `(v >> k) & 1` and `b |= 1 << k`. */
module QrBits {

  /** Go's `byte`. */
  type Byte = b: int | 0 <= b < 256

  function Pow2(k: nat): (r: nat)
    ensures r >= 1
  {
    if k == 0 then 1 else 2 * Pow2(k - 1)
  }

  /** Bit `k` of `v`: Go's `(v >> k) & 1 != 0`. Dafny's `/` by 2 rounds down, as Go's
      arithmetic shift does, so this also holds for negative `v`. */
  function Bit(v: int, k: nat): bool
    decreases k
  {
    if k == 0 then v % 2 == 1 else Bit(v / 2, k - 1)
  }

  /** Go's `intToBits(value, length)`: the `length` low bits of `value`, most significant first,
      so that position `length - 1 - i` holds bit `i`. */
  function IntToBits(value: int, length: nat): (bits: seq<bool>)
    ensures |bits| == length
    ensures forall i :: 0 <= i < length ==> bits[length - 1 - i] == Bit(value, i)
    decreases length
  {
    if length == 0 then [] else IntToBits(value / 2, length - 1) + [value % 2 == 1]
  }

  /** The value of a bit sequence read most significant bit first. */
  function FromBits(bits: seq<bool>): (v: nat)
    ensures v < Pow2(|bits|)
  {
    if bits == [] then 0
    else 2 * FromBits(bits[..|bits| - 1]) + (if bits[|bits| - 1] then 1 else 0)
  }

  /** The loop of Go's `intToBits`: it fills a fresh slice from the back, bit `i` of `value` at
      position `length - 1 - i`, shifting the value right by one each round. */
  method IntToBitsLoop(value: int, length: nat) returns (bits: seq<bool>)
    ensures bits == IntToBits(value, length)
  {
    var a := new bool[length];
    var v := value;
    for i := 0 to length
      invariant forall j: nat :: Bit(v, j) == Bit(value, i + j)
      invariant forall k :: 0 <= k < i ==> a[length - 1 - k] == Bit(value, k)
    {
      assert Bit(v, 0) == Bit(value, i + 0);
      a[length - 1 - i] := v % 2 == 1;
      forall j: nat
        ensures Bit(v / 2, j) == Bit(value, i + 1 + j)
      {
        assert Bit(v, j + 1) == Bit(value, i + (j + 1));
      }
      v := v / 2;
    }
    var expected := IntToBits(value, length);
    forall t | 0 <= t < length
      ensures a[t] == expected[t]
    {
      var k := length - 1 - t;
      assert a[length - 1 - k] == Bit(value, k);
      assert expected[length - 1 - k] == Bit(value, k);
    }
    bits := a[..];
  }

  /** Reading back what `IntToBits` wrote gives the value, when it fits in `length` bits. */
  lemma {:induction false} FromIntToBits(value: int, length: nat)
    requires 0 <= value < Pow2(length)
    ensures FromBits(IntToBits(value, length)) == value
  {
    if length > 0 {
      var bits := IntToBits(value, length);
      assert bits[..length - 1] == IntToBits(value / 2, length - 1);
      FromIntToBits(value / 2, length - 1);
    }
  }

  /** Eight bits of a byte, most significant first (Go's `intToBits(int(b), 8)`). */
  function ByteBits(b: int): (bits: seq<bool>)
    ensures |bits| == 8
  {
    IntToBits(b, 8)
  }

  /** Adding `2^k` to a value whose bit `k` is clear sets that bit and no other. */
  lemma {:induction false} SetClearBit(v: int, k: nat, n: nat)
    requires 0 <= v < Pow2(n) && k < n && !Bit(v, k)
    ensures v + Pow2(k) < Pow2(n)
    ensures Bit(v + Pow2(k), k)
    ensures forall j: nat :: j != k ==> Bit(v + Pow2(k), j) == Bit(v, j)
    decreases k
  {
    if k == 0 {
      assert (v + 1) / 2 == v / 2;
      forall j: nat | j != 0
        ensures Bit(v + 1, j) == Bit(v, j)
      {
      }
    } else {
      SetClearBit(v / 2, k - 1, n - 1);
      assert (v + Pow2(k)) / 2 == v / 2 + Pow2(k - 1);
      assert (v + Pow2(k)) % 2 == v % 2;
      forall j: nat | j != k
        ensures Bit(v + Pow2(k), j) == Bit(v, j)
      {
        if j > 0 {
          assert Bit(v / 2 + Pow2(k - 1), j - 1) == Bit(v / 2, j - 1);
        }
      }
    }
  }

  /** A zero byte has no bit set. */
  lemma {:induction false} ZeroHasNoBits(k: nat)
    ensures !Bit(0, k)
  {
    if k > 0 {
      ZeroHasNoBits(k - 1);
    }
  }

  /** Go's `b | (1 << k)` on a byte. */
  function OrBit(b: Byte, k: nat): (r: Byte)
    requires k < 8
    ensures Bit(r, k)
    ensures forall j: nat :: j != k ==> Bit(r, j) == Bit(b, j)
  {
    if Bit(b, k) then b
    else
      SetClearBit(b, k, 8);
      b + Pow2(k)
  }

  /** Bit `p` of a byte stream, counting from the most significant bit of the first byte:
      Go's `data[p / 8] & (1 << (7 - p % 8)) != 0`. */
  function StreamBit(bytes: seq<Byte>, p: int): bool
    requires 0 <= p < 8 * |bytes|
  {
    Bit(bytes[p / 8], 7 - p % 8)
  }

  function Min(a: int, b: int): (r: int)
    ensures r <= a && r <= b
    ensures r == a || r == b
  {
    if a < b then a else b
  }
}
