/** Types and sequence facts shared by the whole model. */
module Common {

  datatype Option<+T> = None | Some(value: T)

  type byte = x: int | 0 <= x < 256

  function Min(a: int, b: int): int {
    if a <= b then a else b
  }

  function Max(a: int, b: int): int {
    if a <= b then b else a
  }

  /** The slice `s[:n]` as Python means it: no error when `s` is shorter. */
  function Take<T>(s: seq<T>, n: nat): (r: seq<T>)
    ensures r <= s && |r| == Min(|s|, n)
  {
    if |s| <= n then s else s[..n]
  }

  function Flatten<T>(ss: seq<seq<T>>): seq<T> {
    if ss == [] then [] else ss[0] + Flatten(ss[1..])
  }

  lemma {:induction false} FlattenAppend<T>(a: seq<seq<T>>, b: seq<seq<T>>)
    ensures Flatten(a + b) == Flatten(a) + Flatten(b)
  {
    if a == [] {
      assert a + b == b;
    } else {
      FlattenAppend(a[1..], b);
      assert (a + b)[1..] == a[1..] + b;
      Associate(a[0], Flatten(a[1..]), Flatten(b));
    }
  }

  lemma Associate<T>(a: seq<T>, b: seq<T>, c: seq<T>)
    ensures a + (b + c) == a + b + c
  {
  }

  /** Cutting as the pieces arrive is cutting at the end: the step every capped buffer takes. */
  lemma TakeExtend<T>(seen: seq<T>, chunk: seq<T>, n: nat)
    ensures Take(seen + chunk, n) == Take(seen, n) + Take(chunk, n - |Take(seen, n)|)
  {
  }

  lemma TakeTake<T>(s: seq<T>, n: nat, m: nat)
    ensures Take(Take(s, n), m) == Take(s, Min(n, m))
  {
  }
}
