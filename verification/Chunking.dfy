/** Cutting a sequence into pieces of a fixed size. */
module Chunking {
  function Chunks<T>(s: seq<T>, size: nat): (pieces: seq<seq<T>>)
    requires size > 0
  {
    if s == [] then []
    else if |s| <= size then [s]
    else [s[..size]] + Chunks(s[size..], size)
  }

  function Flatten<T>(pieces: seq<seq<T>>): seq<T> {
    if pieces == [] then [] else pieces[0] + Flatten(pieces[1..])
  }

  /** Ceiling division, as `(n + size - 1) / size`. */
  function CeilDiv(n: nat, size: nat): nat
    requires size > 0
  {
    (n + size - 1) / size
  }

  lemma MulMonotone(a: int, b: int, d: int)
    requires a <= b && d > 0
    ensures a * d <= b * d
  {
    assert (b - a) * d >= 0;
  }

  lemma DivUnique(x: int, d: int, q: int)
    requires d > 0 && q * d <= x < q * d + d
    ensures x / d == q
  {
    var p := x / d;
    assert p * d <= x < p * d + d;
    if p < q {
      MulMonotone(p + 1, q, d);
      assert false;
    } else if p > q {
      MulMonotone(q + 1, p, d);
      assert false;
    }
  }

  lemma CeilDivStep(n: nat, size: nat)
    requires size > 0
    ensures n == 0 ==> CeilDiv(n, size) == 0
    ensures 0 < n <= size ==> CeilDiv(n, size) == 1
    ensures n > size ==> CeilDiv(n, size) == 1 + CeilDiv(n - size, size)
  {
    var m := n - size + size - 1;
    if n == 0 {
      DivUnique(size - 1, size, 0);
    } else if n <= size {
      DivUnique(n + size - 1, size, 1);
    } else {
      var q := m / size;
      assert q * size <= m < q * size + size;
      assert (q + 1) * size == q * size + size;
      DivUnique(m + size, size, q + 1);
    }
  }

  /** Nothing is lost, every piece but the last is full, and the last is within the size. */
  lemma {:induction false} ChunksCover<T>(s: seq<T>, size: nat)
    requires size > 0
    ensures Flatten(Chunks(s, size)) == s
    ensures |Chunks(s, size)| == CeilDiv(|s|, size)
    ensures forall i | 0 <= i < |Chunks(s, size)| :: 1 <= |Chunks(s, size)[i]| <= size
    ensures forall i | 0 <= i < |Chunks(s, size)| - 1 :: |Chunks(s, size)[i]| == size
  {
    CeilDivStep(|s|, size);
    if s == [] {
    } else if |s| <= size {
      assert Flatten([s]) == s + Flatten([]);
    } else {
      ChunksCover(s[size..], size);
      assert Chunks(s, size)[1..] == Chunks(s[size..], size);
    }
  }

  lemma {:induction false} FlattenAppend<T>(xs: seq<seq<T>>, x: seq<T>)
    ensures Flatten(xs + [x]) == Flatten(xs) + x
  {
    if xs == [] {
      assert Flatten([x]) == x + Flatten([]);
    } else {
      assert (xs + [x])[1..] == xs[1..] + [x];
      FlattenAppend(xs[1..], x);
    }
  }

  /** Two lists of pieces in which no piece of the first is longer have the same
      concatenation only if they are the same list. */
  lemma {:induction false} SamePieces<T>(xs: seq<seq<T>>, ys: seq<seq<T>>)
    requires |xs| == |ys|
    requires forall i | 0 <= i < |xs| :: |xs[i]| <= |ys[i]|
    ensures |Flatten(xs)| <= |Flatten(ys)|
    ensures Flatten(xs) == Flatten(ys) <==> xs == ys
  {
    if xs != [] {
      var x, y := Flatten(xs[1..]), Flatten(ys[1..]);
      SamePieces(xs[1..], ys[1..]);
      if Flatten(xs) == Flatten(ys) {
        assert |xs[0]| == |ys[0]|;
        assert xs[0] == (xs[0] + x)[..|xs[0]|] == (ys[0] + y)[..|xs[0]|];
        assert x == (xs[0] + x)[|xs[0]|..] == (ys[0] + y)[|xs[0]|..];
        assert xs == [xs[0]] + xs[1..] && ys == [ys[0]] + ys[1..];
      }
    }
  }

  /** Every element is good, and marked ones stand at the end only. */
  ghost predicate MarkedLast<T(!new)>(s: seq<T>, good: T -> bool, mark: T -> bool) {
    forall i | 0 <= i < |s| :: good(s[i]) && (mark(s[i]) ==> i == |s| - 1)
  }

  /** Every element is good, and marked ones stand where a piece of the size ends. */
  ghost predicate MarkedEnds<T(!new)>(s: seq<T>, size: nat, good: T -> bool, mark: T -> bool)
    requires size > 0
  {
    forall i | 0 <= i < |s| :: good(s[i]) && (mark(s[i]) ==> i % size == size - 1 || i == |s| - 1)
  }

  lemma Remainder(i: nat, size: nat)
    requires size > 0
    ensures i < size ==> i % size == i
    ensures (i + size) % size == i % size
  {
    var q := i / size;
    if i < size {
      DivUnique(i, size, 0);
    }
    assert (q + 1) * size == q * size + size;
    DivUnique(i + size, size, q + 1);
  }

  lemma MarkedPiece<T(!new)>(s: seq<T>, size: nat, good: T -> bool, mark: T -> bool)
    requires |s| <= size && size > 0
    ensures MarkedLast(s, good, mark) <==> MarkedEnds(s, size, good, mark)
  {
    forall i | 0 <= i < |s| ensures i % size == i { Remainder(i, size); }
  }

  lemma MarkedSplit<T(!new)>(s: seq<T>, size: nat, good: T -> bool, mark: T -> bool)
    requires |s| > size > 0
    ensures MarkedEnds(s, size, good, mark) <==>
            MarkedLast(s[..size], good, mark) && MarkedEnds(s[size..], size, good, mark)
  {
    var head, tail := s[..size], s[size..];
    forall i | 0 <= i < |tail| ensures tail[i] == s[i + size] && i % size == (i + size) % size {
      Remainder(i, size);
    }
    forall i | 0 <= i < size ensures head[i] == s[i] && i % size == i { Remainder(i, size); }
    forall i | size <= i < |s| ensures tail[i - size] == s[i] {}
  }

  /** Marks stand last in their pieces exactly when they stand at piece ends of the whole. */
  lemma {:induction false} MarkedPieces<T(!new)>(s: seq<T>, size: nat, good: T -> bool, mark: T -> bool)
    requires size > 0
    ensures (forall piece | piece in Chunks(s, size) :: MarkedLast(piece, good, mark)) <==>
            MarkedEnds(s, size, good, mark)
  {
    if |s| > size {
      assert forall piece :: piece in Chunks(s, size) <==> piece == s[..size] || piece in Chunks(s[size..], size);
      MarkedPieces(s[size..], size, good, mark);
      MarkedSplit(s, size, good, mark);
    } else if s != [] {
      assert forall piece :: piece in Chunks(s, size) <==> piece == s;
      MarkedPiece(s, size, good, mark);
    }
  }
}
