/** Definitions shared by every part of the model: bytes, fixed-width
    wrap-around, and the outcome type of the loader (a value, an
    `output->fatal` termination, or a read the source performs outside the
    mapped file). */
module Common {

  type byte = b: int | 0 <= b < 256

  const TWO32: nat := 0x1_0000_0000
  const TWO64: nat := 0x1_0000_0000_0000_0000

  /** The value an unsigned C integer of modulus `m` holds after `x` is
      stored into it. */
  function Wrap(x: int, m: nat): (r: nat)
    requires m > 0
    ensures r < m
    ensures 0 <= x < m ==> r == x
    ensures m <= x < 2 * m ==> r == x - m
    ensures x < 0 && 0 <= x + m ==> r == x + m
  {
    x % m
  }

  lemma MulNonneg(a: int, b: int)
    requires a >= 0 && b >= 0
    ensures a * b >= 0
  {
  }

  /** Quotient and remainder are determined by `x == q * m + r`. */
  lemma ModUnique(x: int, m: int, q: int, r: int)
    requires m > 0 && 0 <= r < m && x == q * m + r
    ensures x % m == r && x / m == q
  {
    var q', r' := x / m, x % m;
    assert x == m * q' + r';
    var d := q - q';
    assert d * m == r' - r;
    if d >= 1 {
      MulNonneg(d - 1, m);
      assert false;
    } else if d <= -1 {
      MulNonneg(-d - 1, m);
      assert false;
    }
  }

  datatype Option<+T> = None | Some(value: T)

  /** Outcome of a loader step.  `Fatal` is `output->fatal`, which ends the
      simulation with the given message; `Undefined` is a read the source
      performs beyond the end of the mapped file before any check rejects
      the file. */
  datatype Result<+T> = Ok(value: T) | Fatal(msg: string) | Undefined {

    predicate IsFailure() {
      !Ok?
    }

    function PropagateFailure<U>(): Result<U>
      requires IsFailure()
    {
      if Fatal? then Fatal(msg) else Undefined
    }

    function Extract(): T
      requires Ok?
    {
      value
    }
  }

  /** A read that may fall outside the file. */
  function Read<T>(o: Option<T>): (r: Result<T>)
    ensures r.Ok? <==> o.Some?
    ensures o.None? ==> r == Undefined
  {
    match o
    case Some(v) => Ok(v)
    case None => Undefined
  }

  /** `b` is the failure `a` propagates: the same fatal message, or
      undefined behaviour for both. */
  predicate SameFailure<T, U>(a: Result<T>, b: Result<U>) {
    (a.Fatal? && b.Fatal? && a.msg == b.msg) || (a.Undefined? && b.Undefined?)
  }

  /** A `for` loop from `i` up to `n` whose body either yields a value or
      ends the loader: the values of every iteration, or the outcome of
      the first one that fails. */
  function Collect<T>(step: nat -> Result<T>, i: nat, n: nat): (r: Result<seq<T>>)
    requires i <= n
    ensures r.Ok? ==> |r.value| == n - i
    decreases n - i
  {
    if i == n then Ok([])
    else
      var s :- step(i);
      var rest :- Collect(step, i + 1, n);
      Ok([s] + rest)
  }

  /** Entry `k - i` of a completed loop is what iteration `k` yields. */
  lemma {:induction false} CollectAt<T>(step: nat -> Result<T>, i: nat, n: nat, k: nat)
    requires i <= k < n && Collect(step, i, n).Ok?
    ensures step(k) == Ok(Collect(step, i, n).value[k - i])
    decreases n - i
  {
    var s := step(i);
    var rest := Collect(step, i + 1, n);
    assert s.Ok? && rest.Ok?;
    assert Collect(step, i, n).value == [s.value] + rest.value;
    if k > i {
      CollectAt(step, i + 1, n, k);
    }
  }

  /** The loop completes exactly when every iteration succeeds. */
  lemma {:induction false} CollectOk<T>(step: nat -> Result<T>, i: nat, n: nat)
    requires i <= n
    ensures Collect(step, i, n).Ok? <==> forall k :: i <= k < n ==> step(k).Ok?
    decreases n - i
  {
    if Collect(step, i, n).Ok? {
      forall k | i <= k < n
        ensures step(k).Ok?
      {
        CollectAt(step, i, n, k);
      }
    } else if i < n && step(i).Ok? {
      CollectOk(step, i + 1, n);
    }
  }

  /** A loop that does not complete ends the way its first failing
      iteration does. */
  lemma {:induction false} CollectFailure<T>(step: nat -> Result<T>, i: nat, n: nat)
    requires i <= n && !Collect(step, i, n).Ok?
    ensures exists k :: i <= k < n && (forall j :: i <= j < k ==> step(j).Ok?) && SameFailure(step(k), Collect(step, i, n))
    decreases n - i
  {
    if step(i).Ok? {
      CollectFailure(step, i + 1, n);
      var k :| i + 1 <= k < n && (forall j :: i + 1 <= j < k ==> step(j).Ok?) && SameFailure(step(k), Collect(step, i + 1, n));
      assert forall j :: i <= j < k ==> step(j).Ok?;
    } else {
      assert SameFailure(step(i), Collect(step, i, n));
    }
  }

  /** Index of the last element of `xs` that satisfies `p`. */
  function LastWhere<T>(xs: seq<T>, p: T -> bool): (r: Option<nat>)
    ensures r.Some? ==> r.value < |xs| && p(xs[r.value])
    ensures r.Some? ==> forall k :: r.value < k < |xs| ==> !p(xs[k])
    ensures r.None? ==> forall k :: 0 <= k < |xs| ==> !p(xs[k])
  {
    if xs == [] then None
    else if p(xs[|xs| - 1]) then Some(|xs| - 1)
    else
      var r := LastWhere(xs[..|xs| - 1], p);
      assert forall k :: 0 <= k < |xs| - 1 ==> xs[..|xs| - 1][k] == xs[k];
      r
  }

  /** A loop `for x in xs: if p(x) then acc := f(x)`: the value noted for
      the last match, or the initial one when nothing matches. */
  function ScanLast<T, U>(xs: seq<T>, p: T -> bool, f: T -> U, acc: U): U {
    if xs == [] then acc else ScanLast(xs[1..], p, f, if p(xs[0]) then f(xs[0]) else acc)
  }

  /** The last match is determined by the last element and the rest. */
  lemma LastWhereCons<T>(xs: seq<T>, p: T -> bool)
    requires xs != []
    ensures LastWhere(xs[1..], p).Some? ==> LastWhere(xs, p) == Some(LastWhere(xs[1..], p).value + 1)
    ensures LastWhere(xs[1..], p).None? && p(xs[0]) ==> LastWhere(xs, p) == Some(0)
    ensures LastWhere(xs[1..], p).None? && !p(xs[0]) ==> LastWhere(xs, p).None?
  {
    var r := LastWhere(xs, p);
    var r1 := LastWhere(xs[1..], p);
    if r1.Some? {
      assert xs[1..][r1.value] == xs[r1.value + 1];
    }
  }

  /** The front-to-back loop keeps exactly the last match. */
  lemma {:induction false} ScanLastIsLast<T, U>(xs: seq<T>, p: T -> bool, f: T -> U, acc: U)
    ensures LastWhere(xs, p).Some? ==> ScanLast(xs, p, f, acc) == f(xs[LastWhere(xs, p).value])
    ensures LastWhere(xs, p).None? ==> ScanLast(xs, p, f, acc) == acc
  {
    if xs != [] {
      var acc' := if p(xs[0]) then f(xs[0]) else acc;
      ScanLastIsLast(xs[1..], p, f, acc');
      LastWhereCons(xs, p);
      if LastWhere(xs[1..], p).Some? {
        assert xs[1..][LastWhere(xs[1..], p).value] == xs[LastWhere(xs, p).value];
      }
    }
  }
}
