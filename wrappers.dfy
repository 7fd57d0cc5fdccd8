/** Small shared vocabulary: an optional value (Java's nullable reference) and occurrence counting. */
module Wrappers {

  /** A Java reference that may be null: None stands for null. */
  datatype Option<+T> = None | Some(value: T)

  /** Number of occurrences of x in s. */
  function Count<T(==)>(s: seq<T>, x: T): (r: nat)
    decreases |s|
  {
    if s == [] then 0 else Count(s[..|s| - 1], x) + (if s[|s| - 1] == x then 1 else 0)
  }

  lemma {:induction false} CountAppend<T>(a: seq<T>, b: seq<T>, x: T)
    ensures Count(a + b, x) == Count(a, x) + Count(b, x)
    decreases |b|
  {
    if b == [] {
      assert a + b == a;
    } else {
      assert (a + b)[..|a + b| - 1] == a + b[..|b| - 1];
      CountAppend(a, b[..|b| - 1], x);
    }
  }

  lemma CountSingleton<T>(y: T, x: T)
    ensures Count([y], x) == if y == x then 1 else 0
  {
    assert [y][..0] == [];
  }

  lemma CountAbsent<T>(s: seq<T>, x: T)
    requires x !in s
    ensures Count(s, x) == 0
    decreases |s|
  {
    if s != [] {
      assert x !in s[..|s| - 1];
      CountAbsent(s[..|s| - 1], x);
    }
  }
}
