/** Fixed-width integers (the C program's __u64, Go's uint64 and int) and a few values shared by the models. */
module Word {
  const TWO_TO_64: int := 0x1_0000_0000_0000_0000
  const TWO_TO_63: int := 0x8000_0000_0000_0000

  type u64 = x: int | 0 <= x < TWO_TO_64

  datatype Option<+T> = None | Some(value: T)

  /** A non-negative measurement or statistic. */
  type Amount = r: real | r >= 0.0

  function Repeat<T>(x: T, n: nat): (xs: seq<T>)
    ensures |xs| == n && forall i :: 0 <= i < n ==> xs[i] == x
  {
    seq(n, _ => x)
  }

  /** The value an unsigned 64-bit operation stores when the exact result is x. */
  function Wrap(x: int): u64 {
    x % TWO_TO_64
  }

  /** Go's int(x) for an unsigned 64-bit x. */
  function ToInt(x: u64): int {
    if x < TWO_TO_63 then x else x - TWO_TO_64
  }

  /** Go's integer division by a positive constant truncates toward zero. */
  function TruncDiv(x: int, d: int): int
    requires d > 0
  {
    if x >= 0 then x / d else -((-x) / d)
  }

  /** ToInt is the signed 64-bit integer with the same bits. */
  lemma ToIntIsSigned(x: u64)
    ensures -TWO_TO_63 <= ToInt(x) < TWO_TO_63 && Wrap(ToInt(x)) == x
  {
  }

  /** q is x / 10 without the fraction, toward zero. */
  predicate WholeTenth(q: int, x: int) {
    if x >= 0 then 0 <= 10 * q <= x < 10 * q + 10 else 10 * q - 10 < x <= 10 * q <= 0
  }

  lemma TruncDivTruncates(x: int)
    ensures WholeTenth(TruncDiv(x, 10), x)
  {
  }

  /** Adding one to a wrapped counter tracks the exact count. */
  lemma WrapSucc(n: int)
    ensures Wrap(Wrap(n) + 1) == Wrap(n + 1)
  {
  }

  /** Adding the signed difference of two counters moves the wrapped sum from the first to the second. */
  lemma WrapTelescopes(sum: int, count: u64)
    ensures Wrap(sum + ToInt(Wrap(count - Wrap(sum)))) == count
  {
  }

  lemma MulLess(a: int, b: int, factor: int)
    requires factor >= 1 && a * factor < b * factor
    ensures a < b
  {
  }

  /** A nonempty set has a member to pick. */
  lemma Member<T>(s: set<T>) returns (x: T)
    requires s != {}
    ensures x in s
  {
    if forall y: T :: y !in s { assert false; }
    x :| x in s;
  }
}
