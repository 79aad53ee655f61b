/** The two stream primitives: `repeat`, the iterate stream
    `a, f(a), f(f(a)), ...`, and `within`, which reads a stream two elements at
    a time and yields the second element of every pair closer than `esp`.

    A stream is given as the finite part a consumer reads of it: `Repeat`
    produces the first `count` elements, and `Within` reads a given prefix
    until it runs out. */
module LazyUtils {

  /** `f` applied `k` times to `a`: element `k` of `repeat(f, a)`. */
  function Iterate<A>(f: A -> A, a: A, k: nat): A
    decreases k
  {
    if k == 0 then a else f(Iterate(f, a, k - 1))
  }

  /** The first `count` values `repeat(f, a)` yields: `acc` starts at `a`, is
      yielded, then replaced by `f(acc)`. */
  method Repeat<A>(f: A -> A, a: A, count: nat) returns (s: seq<A>)
    ensures |s| == count
    ensures forall k :: 0 <= k < count ==> s[k] == Iterate(f, a, k)
  {
    var acc := a;
    s := [];
    while |s| < count
      invariant |s| <= count
      invariant acc == Iterate(f, a, |s|)
      invariant forall k :: 0 <= k < |s| ==> s[k] == Iterate(f, a, k)
    {
      s := s + [acc];
      acc := f(acc);
    }
  }

  /** Dropping the first element of `repeat(f, a)` leaves `repeat(f, f(a))`. */
  lemma {:induction false} IterateShift<A>(f: A -> A, a: A, k: nat)
    ensures Iterate(f, a, k + 1) == Iterate(f, f(a), k)
    decreases k
  {
    if k > 0 {
      IterateShift(f, a, k - 1);
    }
  }

  /** Counting up by one from 0: element `k` is `k`. */
  lemma {:induction false} IterateSuccessor(k: nat)
    ensures Iterate((n: int) => n + 1, 0, k) == k
    decreases k
  {
    if k > 0 {
      IterateSuccessor(k - 1);
    }
  }

  // ---------------------------------------------------------------------------
  // within

  function Abs(x: int): nat { if x < 0 then -x else x }

  /** Pair `i` of the stream, elements `2i` and `2i + 1`, is fully read and
      closer than `esp` (strictly). */
  predicate Qualifies(esp: int, xs: seq<int>, i: nat)
  {
    2 * i + 1 < |xs| && Abs(xs[2 * i] - xs[2 * i + 1]) < esp
  }

  /** Everything `within(esp, xs)` yields before `xs` runs out. */
  function WithinYields(esp: int, xs: seq<int>): seq<int>
    decreases |xs|
  {
    if |xs| < 2 then []
    else (if Abs(xs[0] - xs[1]) < esp then [xs[1]] else []) + WithinYields(esp, xs[2..])
  }

  /** Runs `within(esp, xs)` to the end: each round reads two elements and
      yields the second when the two are closer than `esp`. The round that
      finds fewer than two elements left ends the method; the Python
      generator raises at that point. */
  method Within(esp: int, xs: seq<int>) returns (ys: seq<int>)
    ensures ys == WithinYields(esp, xs)
  {
    ys := [];
    var pos := 0;
    while pos + 2 <= |xs|
      invariant 0 <= pos <= |xs|
      invariant ys + WithinYields(esp, xs[pos..]) == WithinYields(esp, xs)
    {
      var a := xs[pos];
      var b := xs[pos + 1];
      assert xs[pos..][2..] == xs[pos + 2..];
      if Abs(a - b) < esp {
        ys := ys + [b];
      }
      pos := pos + 2;
    }
  }

  /** The stream is read in disjoint pairs: cutting it after an even number of
      elements splits the yields exactly. */
  lemma {:induction false} WithinSplit(esp: int, xs: seq<int>, k: nat)
    requires 2 * k <= |xs|
    ensures WithinYields(esp, xs) == WithinYields(esp, xs[..2 * k]) + WithinYields(esp, xs[2 * k..])
    decreases k
  {
    if k > 0 {
      var front := xs[..2 * k];
      var head := if Abs(xs[0] - xs[1]) < esp then [xs[1]] else [];
      WithinSplit(esp, xs[2..], k - 1);
      assert xs[2..][..2 * (k - 1)] == front[2..];
      assert xs[2..][2 * (k - 1)..] == xs[2 * k..];
      assert WithinYields(esp, front) == head + WithinYields(esp, front[2..]);
      assert WithinYields(esp, xs) == head + WithinYields(esp, xs[2..]);
    } else {
      assert xs[2 * k..] == xs;
    }
  }

  /** Reading pair `i` adds `xs[2i + 1]` to the yields when it qualifies and
      nothing otherwise. */
  lemma WithinStep(esp: int, xs: seq<int>, i: nat)
    requires 2 * i + 2 <= |xs|
    ensures WithinYields(esp, xs[..2 * i + 2]) ==
      WithinYields(esp, xs[..2 * i]) + (if Qualifies(esp, xs, i) then [xs[2 * i + 1]] else [])
  {
    var ys := xs[..2 * i + 2];
    WithinSplit(esp, ys, i);
    assert ys[..2 * i] == xs[..2 * i];
    assert ys[2 * i..][2..] == [];
  }

  /** Pair `j + 1` of a stream is pair `j` of the stream without its first pair. */
  lemma QualifiesShift(esp: int, xs: seq<int>, j: nat)
    requires |xs| >= 2
    ensures Qualifies(esp, xs, j + 1) == Qualifies(esp, xs[2..], j)
    ensures Qualifies(esp, xs[2..], j) ==> xs[2..][2 * j + 1] == xs[2 * (j + 1) + 1]
  {
    if 2 * j + 1 < |xs[2..]| {
      assert xs[2..][2 * j] == xs[2 * (j + 1)];
      assert xs[2..][2 * j + 1] == xs[2 * (j + 1) + 1];
    }
  }

  /** Every value yielded is the second element of a qualifying pair, and the
      second element of every qualifying pair is yielded. */
  lemma {:induction false} WithinYieldsQualifying(esp: int, xs: seq<int>, v: int)
    ensures v in WithinYields(esp, xs) <==> exists i: nat :: Qualifies(esp, xs, i) && v == xs[2 * i + 1]
    decreases |xs|
  {
    if |xs| >= 2 {
      var head := if Abs(xs[0] - xs[1]) < esp then [xs[1]] else [];
      var tail := WithinYields(esp, xs[2..]);
      assert WithinYields(esp, xs) == head + tail;
      WithinYieldsQualifying(esp, xs[2..], v);
      if v in WithinYields(esp, xs) {
        if v in head {
          assert Qualifies(esp, xs, 0) && v == xs[2 * 0 + 1];
        } else {
          assert v in tail;
          var i: nat :| Qualifies(esp, xs[2..], i) && v == xs[2..][2 * i + 1];
          QualifiesShift(esp, xs, i);
          assert Qualifies(esp, xs, i + 1) && v == xs[2 * (i + 1) + 1];
        }
      }
      if exists i: nat :: Qualifies(esp, xs, i) && v == xs[2 * i + 1] {
        var i: nat :| Qualifies(esp, xs, i) && v == xs[2 * i + 1];
        if i == 0 {
          assert v in head;
        } else {
          QualifiesShift(esp, xs, i - 1);
          assert Qualifies(esp, xs[2..], i - 1) && v == xs[2..][2 * (i - 1) + 1];
          assert v in tail;
        }
      }
    }
  }

  /** `within` yields nothing before the input runs out exactly when no pair
      of the input qualifies. */
  lemma WithinNone(esp: int, xs: seq<int>)
    ensures WithinYields(esp, xs) == [] <==> forall j: nat :: !Qualifies(esp, xs, j)
  {
    var ys := WithinYields(esp, xs);
    if ys != [] {
      WithinYieldsQualifying(esp, xs, ys[0]);
    }
    if exists j: nat :: Qualifies(esp, xs, j) {
      var j: nat :| Qualifies(esp, xs, j);
      WithinYieldsQualifying(esp, xs, xs[2 * j + 1]);
    }
  }

  /** A first pair that does not qualify contributes nothing. */
  lemma WithinSkip(esp: int, xs: seq<int>)
    requires |xs| >= 2 && !Qualifies(esp, xs, 0)
    ensures WithinYields(esp, xs) == WithinYields(esp, xs[2..])
  {
  }

  /** A first pair that qualifies contributes the first value. */
  lemma WithinHead(esp: int, xs: seq<int>)
    requires Qualifies(esp, xs, 0)
    ensures WithinYields(esp, xs) != [] && WithinYields(esp, xs)[0] == xs[1]
  {
  }

  /** The first value `within` yields is the second element of the first
      qualifying pair. */
  lemma {:induction false} WithinFirst(esp: int, xs: seq<int>, i: nat)
    requires Qualifies(esp, xs, i)
    requires forall j: nat :: j < i ==> !Qualifies(esp, xs, j)
    ensures WithinYields(esp, xs) != [] && WithinYields(esp, xs)[0] == xs[2 * i + 1]
    decreases i
  {
    if i == 0 {
      WithinHead(esp, xs);
    } else {
      assert !Qualifies(esp, xs, 0);
      WithinSkip(esp, xs);
      QualifiesShift(esp, xs, i - 1);
      forall j: nat | j < i - 1 ensures !Qualifies(esp, xs[2..], j) {
        QualifiesShift(esp, xs, j);
      }
      WithinFirst(esp, xs[2..], i - 1);
    }
  }

  /** Pairs are disjoint, not a sliding window: the close neighbours 0, 0 at
      positions 1 and 2 are never compared. The comparison is strict: the
      pair 3, 4 is exactly 1 apart and yields nothing. */
  lemma WithinDisjointPairs()
    ensures WithinYields(1, [3, 0, 0, 7]) == []
    ensures WithinYields(1, [3, 3, 0, 7]) == [3]
    ensures WithinYields(1, [3, 4]) == []
  {
  }
}
