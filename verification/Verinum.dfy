/** Constants of the compiler: bits together with what is known about their width and sign. */
module Verinums {
  import opened Logic4

  datatype Option<T> = None | Some(value: T)

  /** A constant: its bits, whether it has a definite width, and whether it is signed. */
  datatype Verinum = Verinum(bits: Vec, hasLen: bool, hasSign: bool)
  {
    predicate IsNegative() { hasSign && SignBit(bits) == V1 }
    function Value(): int { ToInt(bits, hasSign) }
  }

  /** Comparing constants bit by bit: signed ones with different signs differ, the shorter one is extended. */
  predicate Equal(left: Verinum, right: Verinum)
  {
    var both := left.hasSign && right.hasSign;
    var l, r := if both then SignBit(left.bits) else V0, if both then SignBit(right.bits) else V0;
    && !(both && l == V1 && r == V0) && !(both && l == V0 && r == V1)
    && forall i :: 0 <= i < Max(|left.bits|, |right.bits|) ==>
         (if i < |left.bits| then left.bits[i] else l) == (if i < |right.bits| then right.bits[i] else r)
  }
}

