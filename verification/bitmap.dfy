/** The byte bitmap of the kernel library, refined to a sequence of booleans. */
module Bitmaps {

  /** `1 << k` in a byte. */
  function Mask(k: nat): (m: bv8)
    requires k < 8
    ensures m == 1 << k
  {
    if k == 0 then 1 else if k == 1 then 2 else if k == 2 then 4 else if k == 3 then 8
    else if k == 4 then 16 else if k == 5 then 32 else if k == 6 then 64 else 128
  }

  /** `BIT_GET` */
  predicate Bit(b: bv8, k: nat)
    requires k < 8
  {
    b & Mask(k) != 0
  }

  lemma MasksApart(k: nat, j: nat)
    requires k < 8 && j < 8
    ensures Mask(j) & Mask(k) == if j == k then Mask(k) else 0
    ensures Mask(k) != 0
  {
  }

  lemma SetMask(b: bv8, m: bv8, n: bv8)
    requires if m == n then n != 0 else m & n == 0
    ensures ((b | m) & n != 0) == (m == n || b & n != 0)
  {
  }

  lemma ClearMask(b: bv8, m: bv8, n: bv8)
    requires if m == n then n != 0 else m & n == 0
    ensures ((b & !m) & n != 0) == (m != n && b & n != 0)
  {
  }

  /** Setting one bit of a byte sets that bit and leaves the others. */
  lemma SetOne(b: bv8, k: nat, j: nat)
    requires k < 8 && j < 8
    ensures Bit(b | Mask(k), j) == (j == k || Bit(b, j))
  {
    MasksApart(j, k);
    MasksApart(k, j);
    SetMask(b, Mask(k), Mask(j));
  }

  /** Clearing one bit of a byte clears that bit and leaves the others. */
  lemma ClearOne(b: bv8, k: nat, j: nat)
    requires k < 8 && j < 8
    ensures Bit(b & !Mask(k), j) == (j != k && Bit(b, j))
  {
    MasksApart(j, k);
    MasksApart(k, j);
    ClearMask(b, Mask(k), Mask(j));
  }

  /** `BIT_SET` and `BIT_CLEAR`. */
  function With(b: bv8, k: nat, value: bool): bv8
    requires k < 8
  {
    if value then b | Mask(k) else b & !Mask(k)
  }

  lemma WithOne(b: bv8, k: nat, value: bool, j: nat)
    requires k < 8 && j < 8
    ensures Bit(With(b, k, value), j) == if j == k then value else Bit(b, j)
  {
    if value { SetOne(b, k, j); } else { ClearOne(b, k, j); }
  }

  /** `s` with `count` elements from `index` on set to `value`. */
  ghost function Filled(s: seq<bool>, index: nat, count: nat, value: bool): (r: seq<bool>)
    requires index + count <= |s|
    ensures |r| == |s|
  {
    seq(|s|, i requires 0 <= i < |s| => if index <= i < index + count then value else s[i])
  }

  /** Bit `i` of the bytes. */
  ghost predicate BitOf(bytes: seq<bv8>, i: nat)
    requires i < 8 * |bytes|
  {
    Bit(bytes[i / 8], i % 8)
  }

  /** Storing a byte with one bit changed changes that bit and no other. */
  lemma StoreOne(bytes: seq<bv8>, index: nat, value: bool, i: nat)
    requires index < 8 * |bytes| && i < 8 * |bytes|
    ensures BitOf(bytes[index / 8 := With(bytes[index / 8], index % 8, value)], i) ==
            if i == index then value else BitOf(bytes, i)
  {
    if i / 8 == index / 8 {
      WithOne(bytes[index / 8], index % 8, value, i % 8);
    }
  }

  /** A bitmap in memory; `bits` is the sequence of booleans it stands for, true for a set bit. */
  class Bitmap {
    const bytes: array<bv8>
    ghost var bits: seq<bool>

    ghost predicate BitOk(i: nat)
      reads this, bytes
    {
      i < |bits| == 8 * bytes.Length && bits[i] == BitOf(bytes[..], i)
    }

    ghost predicate Valid()
      reads this, bytes
    {
      |bits| == 8 * bytes.Length && forall i {:trigger BitOk(i)} | 0 <= i < |bits| :: BitOk(i)
    }

    /** `bitmap_init` */
    constructor (memory: array<bv8>, value: bool)
      modifies memory
      ensures Valid() && bytes == memory && |bits| == 8 * memory.Length
      ensures forall i | 0 <= i < |bits| :: bits[i] == value
    {
      bytes := memory;
      bits := seq(8 * memory.Length, _ => value);
      new;
      for i := 0 to memory.Length
        invariant bytes == memory && bits == seq(8 * memory.Length, _ => value)
        invariant forall j | 0 <= j < i :: memory[j] == if value then 0xFF else 0
      {
        memory[i] := if value then 0xFF else 0;
      }
      forall i | 0 <= i < |bits| ensures BitOk(i) {
        BytesAll(value, i % 8);
      }
    }

    /** `bitmap_get_bit` */
    method Get(index: nat) returns (value: bool)
      requires Valid() && index < |bits|
      ensures value == bits[index]
    {
      assert BitOk(index);
      value := Bit(bytes[index / 8], index % 8);
    }

    /** `bitmap_set_bit` */
    method Set(index: nat, value: bool)
      requires Valid() && index < |bits|
      modifies this, bytes
      ensures Valid() && bits == old(bits)[index := value]
    {
      var q, r := index / 8, index % 8;
      bytes[q] := With(bytes[q], r, value);
      bits := bits[index := value];
      assert bytes[..] == old(bytes[..])[q := With(old(bytes[..])[q], r, value)];
      forall i | 0 <= i < |bits| ensures BitOk(i) {
        assert old(BitOk(i));
        StoreOne(old(bytes[..]), index, value, i);
      }
    }

    /** `bitmap_set_bits` */
    method SetAll(index: nat, count: nat, value: bool)
      requires Valid() && index + count <= |bits|
      modifies this, bytes
      ensures Valid() && bits == Filled(old(bits), index, count, value)
    {
      assert bits == Filled(old(bits), index, 0, value);
      for i := 0 to count
        invariant Valid() && bits == Filled(old(bits), index, i, value)
      {
        Set(index + i, value);
        assert Filled(old(bits), index, i, value)[index + i := value] == Filled(old(bits), index, i + 1, value);
      }
    }

    /** `bitmap_get_set_bit` */
    method Exchange(index: nat, value: bool) returns (before: bool)
      requires Valid() && index < |bits|
      modifies this, bytes
      ensures Valid() && before == old(bits)[index] && bits == old(bits)[index := value]
    {
      before := Get(index);
      if before != value {
        Set(index, value);
      }
    }
  }

  lemma BytesAll(value: bool, k: nat)
    requires k < 8
    ensures Bit(if value then 0xFF else 0, k) == value
  {
  }
}
