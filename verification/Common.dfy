/** What several parts of the model share: bytes, ring positions, and how many elements a set has. */
module Common {

  type Byte = x: int | 0 <= x < 256

  const UINT := 0x1_0000_0000       // unsigned ints wrap here

  function Min(a: int, b: int): (m: int) { if a < b then a else b }

  function Max(a: int, b: int): (m: int) { if a < b then b else a }

  /** The place of x in xs. */
  ghost function IndexIn<T>(xs: seq<T>, x: T): (i: nat)
    requires x in xs
    ensures i < |xs| && xs[i] == x
  {
    if xs[0] == x then 0 else 1 + IndexIn(xs[1..], x)
  }

  /** Positions less than one turn apart fall on different slots of a ring of m. */
  lemma OtherSlot(j: nat, n: nat, m: nat)
    requires j < n < j + m
    ensures j % m != n % m
  {
    var turns := n / m - j / m;
    assert n - j == turns * m + (n % m - j % m);
  }

  lemma CardLe<T>(a: set<T>, b: set<T>)
    requires a <= b
    ensures |a| <= |b|
  {
    assert b == a + (b - a);
  }

  lemma UnionCard<T>(a: set<T>, b: set<T>)
    ensures |a + b| <= |a| + |b|
    ensures a !! b ==> |a + b| == |a| + |b|
  {
    assert a + b == a + (b - a);
    CardLe(b - a, b);
  }

  ghost function Elements<T>(xs: seq<T>): (s: set<T>)
  {
    set x | x in xs
  }

  lemma {:induction false} ElementsCard<T>(xs: seq<T>)
    ensures |Elements(xs)| <= |xs|
    ensures (forall i, j | 0 <= i < j < |xs| :: xs[i] != xs[j]) ==> |Elements(xs)| == |xs|
  {
    if xs != [] {
      var rest, last := xs[..|xs| - 1], xs[|xs| - 1];
      ElementsCard(rest);
      assert Elements(xs) == Elements(rest) + {last};
      if forall i, j | 0 <= i < j < |xs| :: xs[i] != xs[j] {
        assert last !in Elements(rest);
      }
    }
  }
}
