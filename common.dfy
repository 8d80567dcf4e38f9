/**
 * Small helpers shared by the modules of this model: an optional value,
 * the `Math::AlignUp`/`Min`/`Max` arithmetic used by the allocators and the
 * shader binding table, and the "drain the front of a FIFO while a predicate
 * holds" count used by every fence-released queue.
 */
module Common {

  datatype Option<+T> = None | Some(value: T) {
    function GetOr(default: T): T {
      match this
      case Some(v) => v
      case None => default
    }
  }

  /** Two to the power `n`. */
  function Pow2(n: nat): (r: nat)
    ensures r >= 1
  {
    if n == 0 then 1 else 2 * Pow2(n - 1)
  }

  /** `d * a` is at least `a` for a positive factor `d`. */
  lemma MulAtLeast(d: int, a: nat)
    requires a > 0 && d >= 1
    ensures d * a >= a
  {}

  /** Multiplying by the same factor keeps the order. */
  lemma MulMonotone(a: nat, b: nat, c: nat)
    requires a <= b
    ensures a * c <= b * c
  {
    assert b * c == a * c + (b - a) * c;
  }

  /** Dividing `q * a + r` by `a` leaves quotient `q` and remainder `r`
      when `r < a`. */
  lemma ModOfMultiplePlus(q: nat, r: nat, a: nat)
    requires a > 0 && r < a
    ensures (q * a + r) % a == r
    ensures (q * a + r) / a == q
  {
    var x := q * a + r;
    var d := q - x / a;
    assert d * a == x % a - r by {
      assert x == (x / a) * a + x % a;
      assert q * a - (x / a) * a == d * a;
    }
    if d >= 1 {
      MulAtLeast(d, a);
    } else if d <= -1 {
      assert (-d) * a == -(d * a);
      MulAtLeast(-d, a);
    }
  }

  /** `Math::AlignUp(value, alignment)`: the smallest multiple of
      `alignment` that is not below `value`. */
  function AlignUp(value: nat, alignment: nat): (r: nat)
    requires alignment > 0
    ensures r % alignment == 0
    ensures value <= r < value + alignment
  {
    var q := value / alignment;
    var m := value % alignment;
    assert value == q * alignment + m;
    if m == 0 then value
    else
      assert value + (alignment - m) == (q + 1) * alignment + 0;
      ModOfMultiplePlus(q + 1, 0, alignment);
      value + (alignment - m)
  }

  /** No multiple of the alignment lies between `value` and AlignUp(value). */
  lemma AlignUpIsSmallest(value: nat, alignment: nat, m: nat)
    requires alignment > 0
    requires m % alignment == 0 && value <= m
    ensures AlignUp(value, alignment) <= m
  {
    var r := AlignUp(value, alignment);
    if m < r {
      var qr := r / alignment;
      var qm := m / alignment;
      assert r == qr * alignment && m == qm * alignment;
      assert (qr - qm) * alignment == r - m;
      MulAtLeast(qr - qm, alignment);
      assert false;
    }
  }

  /** AlignUp is monotone in its value. */
  lemma AlignUpMonotone(a: nat, b: nat, alignment: nat)
    requires alignment > 0
    requires a <= b
    ensures AlignUp(a, alignment) <= AlignUp(b, alignment)
  {
    AlignUpIsSmallest(a, alignment, AlignUp(b, alignment));
  }

  function Min(a: int, b: int): int { if a < b then a else b }

  function Max(a: int, b: int): int { if a < b then b else a }

  /** The number of entries at the front of `s` that satisfy `p`: how far a
      loop of the shape `while (!q.empty() && p(q.front())) q.pop();` gets. */
  function LeadingCount<T>(s: seq<T>, p: T -> bool): (k: nat)
    ensures k <= |s|
    ensures forall i :: 0 <= i < k ==> p(s[i])
    ensures k < |s| ==> !p(s[k])
  {
    if s == [] || !p(s[0]) then 0 else 1 + LeadingCount(s[1..], p)
  }

  /** Stepping one satisfied entry off the front advances the count by one. */
  lemma LeadingCountStep<T>(s: seq<T>, p: T -> bool, i: nat)
    requires i < |s| && p(s[i])
    ensures LeadingCount(s[i..], p) == LeadingCount(s[i + 1..], p) + 1
  {
    assert s[i..][0] == s[i];
    assert s[i..][1..] == s[i + 1..];
  }

  /** The count is the first position whose entry fails `p`. */
  lemma {:induction false} LeadingCountExact<T>(s: seq<T>, p: T -> bool, k: nat)
    requires k <= |s|
    requires forall i :: 0 <= i < k ==> p(s[i])
    requires k < |s| ==> !p(s[k])
    ensures LeadingCount(s, p) == k
  {
    if k > 0 {
      assert p(s[0]);
      assert forall i :: 0 <= i < k - 1 ==> s[1..][i] == s[i + 1];
      LeadingCountExact(s[1..], p, k - 1);
    }
  }
}
