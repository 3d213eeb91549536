/** Bitmaps packed eight bits to a byte, changed with shifts and exclusive or. */
module Bitmaps {

  /** The bit `k` places up: `1 & (byte >> k)`. */
  function BitOf(byte: bv8, k: nat): bool
    requires k < 8
  {
    (byte >> k) & 1 == 1
  }

  function Toggled(byte: bv8, k: nat): bv8
    requires k < 8
  {
    byte ^ ((1 as bv8) << k)
  }

  /** Exclusive or works bit by bit. */
  lemma EachBit(byte: bv8, mask: bv8, j: nat)
    requires j < 8
    ensures BitOf(byte ^ mask, j) == (BitOf(byte, j) != BitOf(mask, j))
  {
    ShiftedBit(byte, mask, j as bv8);
  }

  lemma ShiftedBit(byte: bv8, mask: bv8, z: bv8)
    requires z < 8
    ensures ((byte ^ mask) >> z) & 1 == ((byte >> z) & 1) ^ ((mask >> z) & 1)
  {
  }

  /** One shifted `k` places is bit `k` alone. */
  lemma OneBit(k: nat, j: nat)
    requires k < 8 && j < 8
    ensures BitOf((1 as bv8) << k, j) <==> j == k
  {
    var m := [1 as bv8, 2, 4, 8, 16, 32, 64, 128];
    assert (1 as bv8) << k == m[k];
    assert m[k] >> j == if j <= k then m[k - j] else 0;
  }

  /** Toggling flips bit `k` and no other. */
  lemma ToggleFlips(byte: bv8, k: nat, j: nat)
    requires k < 8 && j < 8
    ensures BitOf(Toggled(byte, k), j) == if j == k then !BitOf(byte, j) else BitOf(byte, j)
  {
    hide BitOf;
    EachBit(byte, (1 as bv8) << k, j);
    OneBit(k, j);
  }

  /** The bits of a row of bytes, lowest first. */
  function Bits(bytes: seq<bv8>): (r: seq<bool>)
    ensures |r| == 8 * |bytes|
    ensures forall i :: 0 <= i < |r| ==> r[i] == BitOf(bytes[i / 8], i % 8)
  {
    seq(8 * |bytes|, i requires 0 <= i < 8 * |bytes| => BitOf(bytes[i / 8], i % 8))
  }

  /** Toggling in one byte flips one bit of the row. */
  lemma ToggleOne(bytes: seq<bv8>, index: nat)
    requires index < 8 * |bytes|
    ensures Bits(bytes[index / 8 := Toggled(bytes[index / 8], index % 8)]) == Bits(bytes)[index := !Bits(bytes)[index]]
  {
    hide BitOf, Toggled;
    var after := Bits(bytes[index / 8 := Toggled(bytes[index / 8], index % 8)]);
    forall i | 0 <= i < |after| ensures after[i] == Bits(bytes)[index := !Bits(bytes)[index]][i] {
      ToggleFlips(bytes[index / 8], index % 8, i % 8);
    }
  }

  class Bitmap {
    const bytes: array<bv8>

    ghost function View(): seq<bool>
      reads bytes
    {
      Bits(bytes[..])
    }

    /** A global array of `n` bytes: all clear. */
    constructor (n: nat)
      ensures fresh(bytes) && bytes.Length == n && View() == seq(8 * n, _ => false)
    {
      bytes := new bv8[n](_ => 0);
      new;
      assert forall j: nat :: j < 8 ==> !BitOf(0, j);
    }

    function GetBit(index: nat): (b: bool)
      requires index < 8 * bytes.Length
      reads bytes
      ensures b == View()[index]
    {
      BitOf(bytes[index / 8], index % 8)
    }

    method ToggleBit(index: nat)
      requires index < 8 * bytes.Length
      modifies bytes
      ensures View() == old(View())[index := !old(View())[index]]
    {
      hide BitOf, Toggled;
      ToggleOne(bytes[..], index);
      bytes[index / 8] := Toggled(bytes[index / 8], index % 8);
      assert bytes[..] == old(bytes[..])[index / 8 := Toggled(old(bytes[..])[index / 8], index % 8)];
    }

    /** Flips the bit, and flips it back if that was wrong; a value other than 0 and 1 is ignored. */
    method SetBit(index: nat, value: int)
      requires index < 8 * bytes.Length
      modifies bytes
      ensures View() == if value == 0 || value == 1 then old(View())[index := value == 1] else old(View())
    {
      hide BitOf, Bits;
      if value != 0 && value != 1 {
        return;
      }
      ToggleBit(index);
      if GetBit(index) == (value == 1) {
        return;
      }
      ToggleBit(index);
    }
  }
}
