/** Vocabulary shared by every module: optional values, fallible results, the
    three-way comparison outcome, machine-sized integers and truncating division. */
module Common {

  datatype Option<+T> = None | Some(value: T) {
    predicate IsFailure() { None? }

    function PropagateFailure<U>(): Option<U>
      requires None?
    {
      None
    }

    function Extract(): T
      requires Some?
    {
      value
    }
  }

  /** A result whose error text is not modelled. */
  datatype Result<+T> = Ok(value: T) | Err {
    predicate IsFailure() { Err? }

    function PropagateFailure<U>(): Result<U>
      requires Err?
    {
      Err
    }

    function Extract(): T
      requires Ok?
    {
      value
    }
  }

  /** `std::cmp::Ordering`. */
  datatype Ordering = Less | Equal | Greater {
    function Reverse(): Ordering {
      match this
      case Less => Greater
      case Equal => Equal
      case Greater => Less
    }

    /** Lexicographic chaining: `self.then(next)`. */
    function Then(next: Ordering): Ordering {
      if this == Equal then next else this
    }
  }

  /** What transitivity asks of three outcomes a?b, b?c, a?c of one total preorder. */
  predicate Composes(ab: Ordering, bc: Ordering, ac: Ordering) {
    && (ab == Equal ==> ac == bc)
    && (bc == Equal ==> ac == ab)
    && (ab == bc ==> ac == ab)
  }

  function CmpInt(a: int, b: int): Ordering {
    if a < b then Less else if a > b then Greater else Equal
  }

  function CmpReal(a: real, b: real): Ordering {
    if a < b then Less else if a > b then Greater else Equal
  }

  const TWO_63: int := 0x8000_0000_0000_0000
  const TWO_64: int := 0x1_0000_0000_0000_0000

  type i64 = x: int | -TWO_63 <= x < TWO_63
  type byte = x: int | 0 <= x < 256

  predicate FitsI64(x: int) { -TWO_63 <= x < TWO_63 }

  function Abs(x: int): nat { if x < 0 then -x else x }

  /** Rust's integer `/`: the quotient is truncated toward zero. */
  function TruncDiv(a: int, b: int): int
    requires b != 0
  {
    if a >= 0 then a / b else -((-a) / b)
  }

  /** Rust's integer `%`: the remainder takes the sign of the dividend. */
  function TruncRem(a: int, b: int): int
    requires b != 0
  {
    a - b * TruncDiv(a, b)
  }
}
