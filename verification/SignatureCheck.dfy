/** The comparison behind `verify`: lengths and bytes folded into one accumulator. */
module SignatureCheck {
  import opened Bytes

  /** Bitwise exclusive or of two naturals, lowest bit first. */
  function Xor(a: nat, b: nat): nat
    decreases a + b
  {
    if a == 0 && b == 0 then 0
    else 2 * Xor(a / 2, b / 2) + if a % 2 == b % 2 then 0 else 1
  }

  function Or(a: nat, b: nat): nat
    decreases a + b
  {
    if a == 0 && b == 0 then 0
    else 2 * Or(a / 2, b / 2) + if a % 2 == 0 && b % 2 == 0 then 0 else 1
  }

  lemma {:induction false} XorZero(a: nat, b: nat)
    ensures Xor(a, b) == 0 <==> a == b
    decreases a + b
  {
    if a != 0 || b != 0 {
      XorZero(a / 2, b / 2);
    }
  }

  lemma {:induction false} OrZero(a: nat, b: nat)
    ensures Or(a, b) == 0 <==> a == 0 && b == 0
    decreases a + b
  {
    if a != 0 || b != 0 {
      OrZero(a / 2, b / 2);
    }
  }

  /** What zip pairs position `i` with: nil, read as 0, past the end. */
  function Zipped(other: Bytes, i: nat): nat {
    if i < |other| then other[i] else 0
  }

  /**
   * The loop returns true exactly on equal byte strings, whatever the lengths; a prefix
   * padded with zero bytes is told apart by the length term alone.
   */
  method Equal(signature: Bytes, other: Bytes) returns (same: bool)
    ensures same <==> signature == other
  {
    var check := Xor(|signature|, |other|);
    XorZero(|signature|, |other|);
    for i := 0 to |signature|
      invariant check == 0 <==>
                |signature| == |other| && forall j :: 0 <= j < i ==> signature[j] == Zipped(other, j)
    {
      var x, y := signature[i], Zipped(other, i);
      XorZero(x, y);
      OrZero(check, Xor(x, y));
      check := Or(check, Xor(x, y));
    }
    same := check == 0;
  }
}
