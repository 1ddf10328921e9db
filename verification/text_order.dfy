/** Python's ordering of `str` values (code point by code point, a proper
    prefix first) and the builtins `min` and `max` over a list of strings. */
module TextOrder {

  /** `a <= b` on Python strings. */
  predicate Le(a: string, b: string)
    decreases |a|
  {
    if |a| == 0 then true
    else if |b| == 0 then false
    else if a[0] != b[0] then a[0] < b[0]
    else Le(a[1..], b[1..])
  }

  /** `a < b` on Python strings. */
  predicate Lt(a: string, b: string) {
    Le(a, b) && a != b
  }

  lemma {:induction false} LeReflexive(a: string)
    ensures Le(a, a)
    decreases |a|
  {
    if |a| > 0 {
      LeReflexive(a[1..]);
    }
  }

  lemma {:induction false} LeAntisymmetric(a: string, b: string)
    requires Le(a, b) && Le(b, a)
    ensures a == b
    decreases |a|
  {
    if |a| > 0 {
      LeAntisymmetric(a[1..], b[1..]);
      assert a == [a[0]] + a[1..] && b == [b[0]] + b[1..];
    }
  }

  lemma {:induction false} LeTransitive(a: string, b: string, c: string)
    requires Le(a, b) && Le(b, c)
    ensures Le(a, c)
    decreases |a|
  {
    if |a| > 0 && a[0] == b[0] && b[0] == c[0] {
      LeTransitive(a[1..], b[1..], c[1..]);
    }
  }

  lemma {:induction false} LeTotal(a: string, b: string)
    ensures Le(a, b) || Le(b, a)
    decreases |a|
  {
    if |a| > 0 && |b| > 0 && a[0] == b[0] {
      LeTotal(a[1..], b[1..]);
    }
  }

  /** Comparing two texts that start with equally long prefixes: the prefixes
      decide unless they are equal, and then the remainders decide. */
  lemma {:induction false} LeAppend(p: string, q: string, x: string, y: string)
    requires |p| == |q|
    ensures Le(p + x, q + y) <==> Lt(p, q) || (p == q && Le(x, y))
    decreases |p|
  {
    if |p| > 0 {
      assert (p + x)[1..] == p[1..] + x && (q + y)[1..] == q[1..] + y;
      LeAppend(p[1..], q[1..], x, y);
      assert p == [p[0]] + p[1..] && q == [q[0]] + q[1..];
    } else {
      assert p + x == x && q + y == y;
      LeReflexive(x);
    }
  }

  /** The loop of Python's `min`: keep the current value, replace it by an
      item only when the item is strictly smaller. */
  function MinFrom(current: string, rest: seq<string>): (m: string)
    ensures m == current || m in rest
    ensures Le(m, current) && forall s :: s in rest ==> Le(m, s)
    decreases |rest|
  {
    if |rest| == 0 then
      LeReflexive(current);
      current
    else
      var next := if Lt(rest[0], current) then rest[0] else current;
      var m := MinFrom(next, rest[1..]);
      LeTotal(rest[0], current);
      LeReflexive(next);
      LeTransitive(m, next, current);
      LeTransitive(m, next, rest[0]);
      assert forall s :: s in rest ==> s == rest[0] || s in rest[1..];
      m
  }

  /** The loop of Python's `max`: replace only by a strictly greater item. */
  function MaxFrom(current: string, rest: seq<string>): (m: string)
    ensures m == current || m in rest
    ensures Le(current, m) && forall s :: s in rest ==> Le(s, m)
    decreases |rest|
  {
    if |rest| == 0 then
      LeReflexive(current);
      current
    else
      var next := if Lt(current, rest[0]) then rest[0] else current;
      var m := MaxFrom(next, rest[1..]);
      LeTotal(rest[0], current);
      LeReflexive(next);
      LeTransitive(current, next, m);
      LeTransitive(rest[0], next, m);
      assert forall s :: s in rest ==> s == rest[0] || s in rest[1..];
      m
  }

  /** `min(ss)`: a member of the list that no member is below. */
  function Min(ss: seq<string>): (m: string)
    requires |ss| > 0
    ensures m in ss && forall s :: s in ss ==> Le(m, s)
  {
    assert forall s :: s in ss ==> s == ss[0] || s in ss[1..];
    MinFrom(ss[0], ss[1..])
  }

  /** `max(ss)`: a member of the list that no member is above. */
  function Max(ss: seq<string>): (m: string)
    requires |ss| > 0
    ensures m in ss && forall s :: s in ss ==> Le(s, m)
  {
    assert forall s :: s in ss ==> s == ss[0] || s in ss[1..];
    MaxFrom(ss[0], ss[1..])
  }

  /** `min` depends only on which strings occur in the list: not on their
      order, nor on how often each occurs. */
  lemma MinDependsOnlyOnMembers(a: seq<string>, b: seq<string>)
    requires |a| > 0 && |b| > 0
    requires forall s :: s in a <==> s in b
    ensures Min(a) == Min(b)
  {
    LeAntisymmetric(Min(a), Min(b));
  }

  /** `max` depends only on which strings occur in the list. */
  lemma MaxDependsOnlyOnMembers(a: seq<string>, b: seq<string>)
    requires |a| > 0 && |b| > 0
    requires forall s :: s in a <==> s in b
    ensures Max(a) == Max(b)
  {
    LeAntisymmetric(Max(a), Max(b));
  }
}
