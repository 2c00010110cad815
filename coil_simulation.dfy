/** unsignedBinary of the coil-inductance application (src/apps/CoilInductance/CoilSimulation.cpp):
    the size-bit binary string of a non-negative number, most significant bit first. */
module CoilSimulation {
  import opened Bits
  import opened Results

  /** A string of '0' and '1' characters. */
  predicate IsBinary(s: string)
  {
    forall i :: 0 <= i < |s| ==> s[i] == '0' || s[i] == '1'
  }

  function BitOf(c: char): nat
  {
    if c == '1' then 1 else 0
  }

  /** The number a binary string spells, read most significant bit first. */
  function BinaryValue(s: string): nat
  {
    if s == [] then 0 else 2 * BinaryValue(s[..|s| - 1]) + BitOf(s[|s| - 1])
  }

  /** unsignedBinary: a negative x ends the program; otherwise po2 starts at 2^size and is halved
      once per output character, which is '1' when what is left of x reaches po2. For
      x < 2^size the output spells x, character i being bit size-1-i. */
  method UnsignedBinary(x: int, size: nat) returns (r: Result<string>)
    ensures r.Err? <==> x < 0
    ensures r.Ok? ==> |r.value| == size && IsBinary(r.value)
    ensures r.Ok? && x < Pow2(size) ==> BinaryValue(r.value) == x
    ensures r.Ok? && x < Pow2(size) ==> forall i :: 0 <= i < size ==> (r.value[i] == '1' <==> Bit(x, size - 1 - i) == 1)
  {
    if x < 0 {
      return Err("unsigned_binary: Positive number expected");
    }
    var s := "";
    var po2 := Pow2(size);
    var number := x;
    for i := 0 to size
      invariant |s| == i && IsBinary(s)
      invariant po2 == Pow2(size - i)
      invariant number >= 0 && number + BinaryValue(s) * po2 == x
      invariant x < Pow2(size) ==> number < po2
    {
      assert Pow2(size - i) == 2 * Pow2(size - i - 1);
      po2 := po2 / 2;
      var bit;
      if number >= po2 {
        bit := '1';
        number := number - po2;
      } else {
        bit := '0';
      }
      assert (s + [bit])[..|s|] == s;
      AppendStep(number, BinaryValue(s), BitOf(bit), po2);
      s := s + [bit];
    }
    if x < Pow2(size) {
      BinaryValueBits(s);
    }
    r := Ok(s);
  }

  lemma AppendStep(number: int, v: int, b: int, p: int)
    ensures number + (2 * v + b) * p == number + b * p + v * (2 * p)
  {
  }

  /** Character i of a binary string is bit |s|-1-i of the number it spells. */
  lemma {:induction false} BinaryValueBits(s: string)
    requires IsBinary(s)
    ensures forall i :: 0 <= i < |s| ==> (s[i] == '1' <==> Bit(BinaryValue(s), |s| - 1 - i) == 1)
  {
    if s != [] {
      var t := s[..|s| - 1];
      BinaryValueBits(t);
      var v, b := BinaryValue(t), BitOf(s[|s| - 1]);
      forall i | 0 <= i < |s|
        ensures s[i] == '1' <==> Bit(BinaryValue(s), |s| - 1 - i) == 1
      {
        if i == |s| - 1 {
          ModUnique(2 * v + b, 1, 2 * v + b, 0);
          ModUnique(2 * v + b, 2, v, b);
        } else {
          assert s[i] == t[i];
          BitShift(v, b, |t| - 1 - i);
        }
      }
    }
  }

  /** Appending bit b to v shifts v's bits up by one. */
  lemma BitShift(v: nat, b: nat, k: nat)
    requires b <= 1
    ensures Bit(2 * v + b, k + 1) == Bit(v, k)
  {
    var p := Pow2(k);
    var q, r := v / p, v % p;
    assert Pow2(k + 1) == 2 * p;
    assert 2 * v + b == q * (2 * p) + (2 * r + b);
    ModUnique(2 * v + b, 2 * p, q, 2 * r + b);
  }
}
