/** Small value types and arithmetic shared by the models. */
module Common {

  datatype Option<+T> = None | Some(value: T)

  datatype Result<+T, +E> = Success(value: T) | Failure(error: E)

  /** The staff and socket keys of the back end; 0 is falsy in the source and never a logged-in user. */
  type UserId = nat

  datatype ConversationType = Channel | PrivateChannel | Direct | GroupDirect

  ghost predicate Distinct<T(!new)>(xs: seq<T>) {
    forall i, j | 0 <= i < j < |xs| :: xs[i] != xs[j]
  }

  /** Taking out the one place of a value takes out that value and no other. */
  lemma WithoutAt<T>(xs: seq<T>, i: nat)
    requires i < |xs| && forall k | 0 <= k < |xs| && k != i :: xs[k] != xs[i]
    ensures forall x :: x in xs[..i] + xs[i + 1..] <==> x in xs && x != xs[i]
  {
    var rest := xs[..i] + xs[i + 1..];
    forall x ensures x in rest <==> x in xs && x != xs[i] {
      if x in xs && x != xs[i] {
        var k :| 0 <= k < |xs| && xs[k] == x;
        assert rest[if k < i then k else k - 1] == x;
      }
      if x in rest {
        var k :| 0 <= k < |rest| && rest[k] == x;
        assert xs[if k < i then k else k + 1] == x;
      }
    }
  }

  lemma ReplacedAt<T>(xs: seq<T>, i: nat, y: T)
    requires i < |xs| && forall k | 0 <= k < |xs| && k != i :: xs[k] != xs[i]
    ensures forall x :: x in xs[i := y] <==> (x in xs && x != xs[i]) || x == y
  {
    forall x ensures x in xs[i := y] <==> (x in xs && x != xs[i]) || x == y {
      if x in xs && x != xs[i] {
        var k :| 0 <= k < |xs| && xs[k] == x;
        assert xs[i := y][k] == x;
      }
      assert xs[i := y][i] == y;
    }
  }

  /** Rounds num/den to the nearest integer, halves upwards, as `Math.round` does on exact rationals. */
  function RoundDiv(num: int, den: int): (r: int)
    requires den > 0
    ensures 2 * (den * r) - den <= 2 * num < 2 * (den * r) + den
  {
    var r := (2 * num + den) / (2 * den);
    assert (2 * num + den) == (2 * den) * r + (2 * num + den) % (2 * den);
    assert (2 * den) * r == 2 * (den * r) by { MulAssoc(den, r); }
    r
  }

  lemma MulAssoc(a: int, b: int)
    ensures (2 * a) * b == 2 * (a * b)
  {
  }

  lemma MulGap(d: int, low: int, high: int)
    requires d > 0 && low < high
    ensures d * low + d <= d * high
    decreases high - low
  {
    if high == low + 1 {
      assert d * (low + 1) == d * low + d;
    } else {
      MulGap(d, low, high - 1);
      assert d * high == d * (high - 1) + d;
    }
  }

  /** A value the rounding brackets is the rounded value. */
  lemma RoundDivUnique(num: int, den: int, r: int)
    requires den > 0
    requires 2 * (den * r) - den <= 2 * num < 2 * (den * r) + den
    ensures RoundDiv(num, den) == r
  {
    var q := RoundDiv(num, den);
    if q < r {
      MulGap(den, q, r);
    } else if r < q {
      MulGap(den, r, q);
    }
  }

  /** The number of positions of xs whose element satisfies p. */
  function Count<T>(xs: seq<T>, p: T -> bool): (n: nat)
    ensures n <= |xs|
  {
    if xs == [] then 0
    else Count(xs[..|xs| - 1], p) + if p(xs[|xs| - 1]) then 1 else 0
  }

  lemma CountAppend<T>(xs: seq<T>, x: T, p: T -> bool)
    ensures Count(xs + [x], p) == Count(xs, p) + if p(x) then 1 else 0
  {
    assert (xs + [x])[..|xs|] == xs;
  }

  /** Predicates that agree on the elements give the same count. */
  lemma {:induction false} CountSame<T>(xs: seq<T>, p: T -> bool, q: T -> bool)
    requires forall x | x in xs :: p(x) == q(x)
    ensures Count(xs, p) == Count(xs, q)
  {
    if xs != [] {
      CountSame(xs[..|xs| - 1], p, q);
    }
  }

  lemma {:induction false} CountNone<T>(xs: seq<T>, p: T -> bool)
    requires forall x | x in xs :: !p(x)
    ensures Count(xs, p) == 0
  {
    if xs != [] {
      CountNone(xs[..|xs| - 1], p);
    }
  }

  lemma {:induction false} CountAll<T>(xs: seq<T>, p: T -> bool)
    requires forall x | x in xs :: p(x)
    ensures Count(xs, p) == |xs|
  {
    if xs != [] {
      CountAll(xs[..|xs| - 1], p);
    }
  }

  /** A count is the number of positions of its kind. */
  lemma {:induction false} CountIsSize<T>(xs: seq<T>, p: T -> bool, positions: set<int>)
    requires forall i :: i in positions <==> 0 <= i < |xs| && p(xs[i])
    ensures Count(xs, p) == |positions|
  {
    if xs == [] {
      assert forall i :: i !in positions;
    } else {
      var last := |xs| - 1;
      CountIsSize(xs[..last], p, positions - {last});
    }
  }
}
