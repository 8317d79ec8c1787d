/** What every other module shares: bytes, optional values and one fact about division. */
module Common {

  type byte = x: int | 0 <= x < 256 witness 0

  datatype Option<+T> = None | Some(value: T)

  /** The ordinary total of some numbers. */
  function Total(s: seq<int>): int {
    if s == [] then 0 else s[0] + Total(s[1..])
  }

  lemma {:induction false} TotalConcat(a: seq<int>, b: seq<int>)
    ensures Total(a + b) == Total(a) + Total(b)
  {
    if a == [] {
      assert a + b == b;
    } else {
      assert (a + b)[1..] == a[1..] + b;
      TotalConcat(a[1..], b);
    }
  }

  lemma TotalNext(s: seq<int>, x: int)
    ensures Total(s + [x]) == Total(s) + x
  {
    TotalConcat(s, [x]);
    assert [x][1..] == [];
  }

  lemma RemainderIsUnique(x: nat, q: int, r: nat, m: nat)
    requires m > 0 && x == q * m + r && r < m
    ensures x % m == r && x / m == q
  {
    var d := x / m - q;
    assert d * m == r - x % m by {
      assert x == (x / m) * m + x % m;
      assert d * m == (x / m) * m - q * m;
    }
    MultipleIsFar(d, m);
  }

  lemma MultipleIsFar(d: int, m: int)
    requires m > 0
    ensures d >= 1 ==> d * m >= m
    ensures d <= -1 ==> d * m <= 0 - m
  {
  }
}
