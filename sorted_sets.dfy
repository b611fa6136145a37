/** `sorted(set(xs))` on integers: the distinct values of a list in ascending order. */
module SortedSets {

  predicate StrictlyIncreasing(s: seq<int>) {
    forall i, j :: 0 <= i < j < |s| ==> s[i] < s[j]
  }

  function Elems(s: seq<int>): set<int> {
    set x | x in s
  }

  /** Adds `x` to an ascending duplicate-free list, keeping it so. */
  function Insert(s: seq<int>, x: int): (r: seq<int>)
    requires StrictlyIncreasing(s)
    ensures StrictlyIncreasing(r)
    ensures Elems(r) == Elems(s) + {x}
    decreases |s|
  {
    if s == [] then
      ConsElems(x, []);
      [x]
    else if x < s[0] then
      InsertFront(s, x);
      [x] + s
    else if x == s[0] then
      assert s[0] in s;
      s
    else
      var tail := Insert(s[1..], x);
      InsertBehind(s, x, tail);
      [s[0]] + tail
  }

  lemma InsertFront(s: seq<int>, x: int)
    requires StrictlyIncreasing(s) && s != [] && x < s[0]
    ensures StrictlyIncreasing([x] + s)
    ensures Elems([x] + s) == Elems(s) + {x}
  {
    forall k | 0 <= k < |s| ensures x < s[k] {
      assert k == 0 || s[0] < s[k];
    }
    ConsElems(x, s);
  }

  lemma InsertBehind(s: seq<int>, x: int, tail: seq<int>)
    requires StrictlyIncreasing(s) && s != [] && s[0] < x
    requires StrictlyIncreasing(tail) && Elems(tail) == Elems(s[1..]) + {x}
    ensures StrictlyIncreasing([s[0]] + tail)
    ensures Elems([s[0]] + tail) == Elems(s) + {x}
  {
    forall k | 0 <= k < |tail| ensures s[0] < tail[k] {
      assert tail[k] in Elems(s[1..]) + {x};
    }
    assert s == [s[0]] + s[1..];
    ConsElems(s[0], s[1..]);
    ConsElems(s[0], tail);
  }

  lemma ElemsAppend(a: seq<int>, b: seq<int>)
    ensures Elems(a + b) == Elems(a) + Elems(b)
  {
  }

  /** Putting a smaller value in front keeps a list ascending and adds that value. */
  lemma ConsElems(h: int, tail: seq<int>)
    requires StrictlyIncreasing(tail)
    requires forall k :: 0 <= k < |tail| ==> h < tail[k]
    ensures StrictlyIncreasing([h] + tail)
    ensures Elems([h] + tail) == {h} + Elems(tail)
  {
  }

  /** `sorted(set(xs))`. */
  function SortedUnique(xs: seq<int>): (r: seq<int>)
    ensures StrictlyIncreasing(r)
    ensures Elems(r) == Elems(xs)
    decreases |xs|
  {
    if xs == [] then []
    else
      var init := xs[..|xs| - 1];
      assert xs == init + [xs[|xs| - 1]];
      assert Elems(xs) == Elems(init) + {xs[|xs| - 1]};
      Insert(SortedUnique(init), xs[|xs| - 1])
  }

  /** An ascending duplicate-free list is determined by its set of values. */
  lemma {:induction false} IncreasingUnique(a: seq<int>, b: seq<int>)
    requires StrictlyIncreasing(a) && StrictlyIncreasing(b)
    requires Elems(a) == Elems(b)
    ensures a == b
    decreases |a|
  {
    if b != [] {
      assert b[0] in Elems(a);
    }
    if a != [] {
      assert a[0] in Elems(b);
      assert b != [];
      assert b[0] in Elems(a);
      assert a[0] == b[0] by {
        var i :| 0 <= i < |b| && b[i] == a[0];
        var j :| 0 <= j < |a| && a[j] == b[0];
        assert b[0] <= a[0] && a[0] <= b[0];
      }
      assert Elems(a[1..]) == Elems(a) - {a[0]} by {
        assert a == [a[0]] + a[1..];
      }
      assert Elems(b[1..]) == Elems(b) - {b[0]} by {
        assert b == [b[0]] + b[1..];
      }
      IncreasingUnique(a[1..], b[1..]);
      assert a == [a[0]] + a[1..] && b == [b[0]] + b[1..];
    }
  }
}
