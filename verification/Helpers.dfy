/** What several modules share. */
module Helpers {
  datatype Option<T> = None | Some(value: T)

  function Min(a: int, b: int): int { if a < b then a else b }

  lemma DivUnique(a: int, d: nat, k: int, r: nat)
    requires d > 0 && a == d * k + r && r < d
    ensures a / d == k
  {
    var t := k - a / d;
    assert d * t == d * k - d * (a / d);
    Multiple(d, t);
  }

  lemma Multiple(d: nat, t: int)
    ensures t >= 1 ==> d * t >= d
    ensures t <= -1 ==> d * t <= -1 * d
  {
    assert d * t == d + d * (t - 1) && d * t == -1 * d + d * (t + 1);
    if t >= 1 {
      assert d * (t - 1) >= 0;
    } else if t <= -1 {
      assert d * (t + 1) <= 0;
    }
  }
}
