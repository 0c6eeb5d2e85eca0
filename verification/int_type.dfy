/** The integer types that numbers are made of. */
module IntTypes {

  // `narrow` says that arithmetic on the type is done in a wider one, as for component types that
  // are narrower than int. `Fit` marks a value that the type must be able to hold: it cannot be
  // applied to one that it cannot.
  datatype IntType = Unbounded | Bounded(lo: int, hi: int, narrow: bool) {

    // An unsigned type, a two's complement type, or the values of a wider type confined to [-hi, hi].
    predicate Valid() {
      Bounded? ==> 0 < hi && (lo == 0 || lo == -hi || lo == -hi - 1)
    }

    predicate Has(x: int) {
      Bounded? ==> lo <= x <= hi
    }

    predicate TwosComplement() {
      Bounded? && lo == -hi - 1
    }

    predicate Symmetric() {
      Bounded? && lo == -hi
    }

    // x == std::numeric_limits::min(), which is zero for unsigned and for unbounded types, and lies
    // outside a range that values are confined to.
    predicate IsLeast(x: int) {
      if Unbounded? then x == 0 else !Symmetric() && x == lo
    }

    function Fit(x: int): (r: int)
      requires Has(x)
      ensures r == x
    {
      x
    }

    // Negation of a value that may have no negative: the least value of a two's complement type
    // stays as it is.
    function Negate(x: int): int
      requires Valid() && Has(x)
    {
      if Has(-x) then -x else x
    }
  }
}
