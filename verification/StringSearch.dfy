/** `strings.Index` and what a first-occurrence search finds in texts built from labels and words. */
module StringSearch {
  import opened GoStrings
  import opened Messages

  const SPACE: byte := 0x20
  const COLON: byte := 0x3A

  // ---------------------------------------------------------------- strings.Index

  /** The first place where p occurs in s, or -1. */
  function Index(s: GoString, p: GoString): (k: int)
    ensures -1 <= k && (k >= 0 ==> k + |p| <= |s|)
  {
    if |s| < |p| then -1
    else if s[..|p|] == p then 0
    else if s == [] then -1
    else
      var k := Index(s[1..], p);
      if k < 0 then -1 else k + 1
  }

  predicate OccursAt(s: GoString, p: GoString, i: nat) {
    i + |p| <= |s| && s[i..i + |p|] == p
  }

  lemma SliceOfTail(s: GoString, k: nat, n: nat)
    requires k + 1 + n <= |s|
    ensures s[1..][k..k + n] == s[k + 1..k + 1 + n]
  {
  }

  lemma {:induction false} IndexIsFirst(s: GoString, p: GoString)
    ensures Index(s, p) >= 0 ==> OccursAt(s, p, Index(s, p))
    ensures forall i: nat | OccursAt(s, p, i) :: 0 <= Index(s, p) <= i
  {
    if s != [] && |s| >= |p| {
      IndexIsFirst(s[1..], p);
      var k := Index(s[1..], p);
      if k >= 0 {
        SliceOfTail(s, k, |p|);
      }
      forall i: nat | OccursAt(s, p, i) && i > 0 ensures OccursAt(s[1..], p, i - 1) {
        SliceOfTail(s, i - 1, |p|);
      }
      assert forall i: nat | OccursAt(s, p, i) && i > 0 :: 0 <= k <= i - 1;
    }
  }

  function Later(offset: nat, k: int): int {
    if k < 0 then -1 else offset + k
  }

  predicate EndsWith(x: GoString, q: GoString) {
    |q| <= |x| && x[|x| - |q|..] == q
  }

  /** A label ends at a colon, so it is found in a colon-free segment only as its end. */
  lemma {:induction false} SkipSegment(x: GoString, rest: GoString, q: GoString)
    requires COLON !in x && COLON !in q && q != [] && !EndsWith(x, q)
    ensures Index(x + [COLON] + rest, q + [COLON]) == Later(|x| + 1, Index(rest, q + [COLON]))
  {
    var s, p := x + [COLON] + rest, q + [COLON];
    NoMatchHere(x, rest, q);
    if x == [] {
      assert s[1..] == rest;
    } else {
      assert s[1..] == x[1..] + [COLON] + rest;
      EndsWithTail(x, q);
      SkipSegment(x[1..], rest, q);
    }
  }

  lemma EndsWithTail(x: GoString, q: GoString)
    requires x != []
    ensures EndsWith(x[1..], q) ==> EndsWith(x, q)
  {
    if EndsWith(x[1..], q) {
      assert x[|x| - |q|..] == x[1..][|x| - 1 - |q|..];
    }
  }

  lemma NoMatchHere(x: GoString, rest: GoString, q: GoString)
    requires COLON !in x && COLON !in q && q != [] && x != q
    ensures |x + [COLON] + rest| >= |q| + 1 ==> (x + [COLON] + rest)[..|q| + 1] != q + [COLON]
  {
    var s, p := x + [COLON] + rest, q + [COLON];
    if |s| >= |p| && s[..|p|] == p {
      MatchIsSegment(x, rest, q);
    }
  }

  lemma FirstColon(x: GoString, rest: GoString, i: nat)
    requires COLON !in x && i <= |x|
    ensures (x + [COLON] + rest)[i] == COLON <==> i == |x|
  {
  }

  lemma MatchIsSegment(x: GoString, rest: GoString, q: GoString)
    requires COLON !in x && COLON !in q
    requires |x + [COLON] + rest| >= |q| + 1 && (x + [COLON] + rest)[..|q| + 1] == q + [COLON]
    ensures x == q
  {
    var s, p := x + [COLON] + rest, q + [COLON];
    assert p == q + [COLON] + [];
    assert forall i | 0 <= i < |p| :: s[i] == s[..|p|][i] == p[i];
    if |q| <= |x| {
      FirstColon(x, rest, |q|);
    } else {
      FirstColon(q, [], |x|);
      FirstColon(x, rest, |x|);
    }
    assert forall i | 0 <= i < |q| :: x[i] == s[i] && p[i] == q[i];
  }

  lemma {:induction false} FindInSegment(x: GoString, rest: GoString, q: GoString)
    requires COLON !in x && COLON !in q && q != [] && EndsWith(x, q)
    ensures Index(x + [COLON] + rest, q + [COLON]) == |x| - |q|
  {
    var s, p := x + [COLON] + rest, q + [COLON];
    if x == q {
      assert s[..|p|] == p;
    } else {
      NoMatchHere(x, rest, q);
      assert s[1..] == x[1..] + [COLON] + rest;
      assert x[1..][|x| - 1 - |q|..] == x[|x| - |q|..];
      FindInSegment(x[1..], rest, q);
    }
  }

  // ---------------------------------------------------------------- what follows a label

  /** What follows the first occurrence of p. */
  function Following(s: GoString, p: GoString): (r: Option<GoString>) {
    CutAfter(s, Index(s, p), |p|)
  }

  function CutAfter(s: GoString, k: int, n: nat): (r: Option<GoString>)
    requires k >= 0 ==> k + n <= |s|
  {
    if k < 0 then None else Some(s[k + n..])
  }

  lemma SkipLabel(x: GoString, rest: GoString, q: GoString)
    requires COLON !in x && COLON !in q && q != [] && !EndsWith(x, q)
    ensures Following(x + [COLON] + rest, q + [COLON]) == Following(rest, q + [COLON])
  {
    var s, p := x + [COLON] + rest, q + [COLON];
    SkipSegment(x, rest, q);
    var k := Index(rest, p);
    if k >= 0 {
      assert s[|x| + 1 + k + |p|..] == rest[k + |p|..];
    }
  }

  lemma FindLabel(x: GoString, rest: GoString, q: GoString)
    requires COLON !in x && COLON !in q && q != [] && EndsWith(x, q)
    ensures Following(x + [COLON] + rest, q + [COLON]) == Some(rest)
  {
    FindInSegment(x, rest, q);
    assert (x + [COLON] + rest)[|x| + 1..] == rest;
  }

  predicate StartsWith(s: GoString, p: GoString) {
    |s| >= |p| && s[..|p|] == p
  }

  lemma DiffersAt(s: GoString, p: GoString, i: nat)
    requires i < |s| && i < |p| && s[i] != p[i]
    ensures !StartsWith(s, p)
  {
    assert |s| >= |p| ==> s[..|p|][i] == s[i];
  }

  /** If p has a space at i, a letter other than next comes behind it. */
  predicate SpaceBeforeOther(p: GoString, i: nat, next: byte)
    requires i < |p|
  {
    p[i] == SPACE ==> i + 1 < |p| && p[i + 1] != next
  }

  /** A pattern that cannot begin inside a word and end behind it. */
  predicate CannotCross(p: GoString, rest: GoString) {
    && p != [] && |rest| >= 2 && rest[0] == SPACE
    && forall i | 0 <= i < |p| :: SpaceBeforeOther(p, i, rest[1])
  }

  lemma NoCrossing(word: GoString, rest: GoString, p: GoString)
    requires CannotCross(p, rest) && word != []
    ensures StartsWith(word + rest, p) <==> StartsWith(word, p)
  {
    var s := word + rest;
    if |p| <= |word| {
      assert word[..|p|] == s[..|p|];
    } else if p[|word|] == SPACE {
      assert SpaceBeforeOther(p, |word|, rest[1]);
      assert s[|word| + 1] == rest[1];
      DiffersAt(s, p, |word| + 1);
    } else {
      assert s[|word|] == SPACE;
      DiffersAt(s, p, |word|);
    }
  }

  lemma FollowingStep(s: GoString, p: GoString)
    requires s != [] && p != []
    ensures Following(s, p) == if StartsWith(s, p) then Some(s[|p|..]) else Following(s[1..], p)
  {
    var k := Index(s[1..], p);
    if !StartsWith(s, p) && k >= 0 {
      assert s[1..][k + |p|..] == s[k + 1 + |p|..];
    }
  }

  /** A search in word and rest finds what a search in word finds, and otherwise what a search
      in rest finds. */
  lemma {:induction false} FollowingWord(word: GoString, rest: GoString, p: GoString)
    requires CannotCross(p, rest)
    ensures Following(word + rest, p) ==
            var f := Following(word, p); if f.Some? then Some(f.value + rest) else Following(rest, p)
  {
    var s := word + rest;
    if word == [] {
      assert s == rest;
    } else {
      NoCrossing(word, rest, p);
      FollowingStep(s, p);
      FollowingStep(word, p);
      if StartsWith(word, p) {
        assert s[|p|..] == word[|p|..] + rest;
      } else {
        assert s[1..] == word[1..] + rest;
        FollowingWord(word[1..], rest, p);
      }
    }
  }

  // ---------------------------------------------------------------- words and dates

  /** Up to the first space; everything when there is none or the first octet is one. */
  function Word(s: GoString): GoString {
    var k := Index(s, [SPACE]);
    if k > 0 then s[..k] else s
  }

  /** Up to the first space, or everything when there is none. */
  function FirstWord(s: GoString): GoString {
    var k := Index(s, [SPACE]);
    if k < 0 then s else s[..k]
  }

  lemma {:induction false} FirstSpaceExactly(s: GoString)
    ensures SPACE !in s ==> Index(s, [SPACE]) == -1
    ensures SPACE in s ==> 0 <= Index(s, [SPACE]) < |s| && s[Index(s, [SPACE])] == SPACE && SPACE !in s[..Index(s, [SPACE])]
  {
    IndexIsFirst(s, [SPACE]);
    forall i | 0 <= i < |s| && s[i] == SPACE ensures OccursAt(s, [SPACE], i) {
      assert s[i..i + 1] == [SPACE];
    }
    var k := Index(s, [SPACE]);
    if k >= 0 {
      assert s[k..k + 1][0] == s[k];
    }
  }

  /** In front of a space, a word is read when the first word is it. */
  lemma FirstWordExactly(s: GoString, rest: GoString, word: GoString)
    requires rest != [] && rest[0] == SPACE && word != [] && SPACE !in word
    ensures Word(s + rest) == word <==> FirstWord(s) == word
  {
    var t, k := s + rest, Index(s, [SPACE]);
    FirstSpaceExactly(s);
    AcrossSpace(s, rest);
    if k < 0 {
      assert t[..|s|] == s;
    } else {
      assert t[..k] == s[..k];
      assert t[|s|] == SPACE && t[|s|] in t;
    }
  }

  /** The first space of a string in front of one: its own first, or that one. */
  lemma {:induction false} AcrossSpace(s: GoString, rest: GoString)
    requires rest != [] && rest[0] == SPACE
    ensures Index(s + rest, [SPACE]) == if Index(s, [SPACE]) >= 0 then Index(s, [SPACE]) else |s|
  {
    if s == [] {
      assert s + rest == rest && rest[..1] == [SPACE];
    } else {
      assert (s + rest)[..1] == s[..1] == [s[0]];
      assert (s + rest)[1..] == s[1..] + rest;
      AcrossSpace(s[1..], rest);
    }
  }

  /** A word is read back exactly when it is one. */
  lemma WordExactly(word: GoString, rest: GoString)
    requires rest != [] && rest[0] == SPACE
    ensures Word(word + rest) == word <==> word != [] && SPACE !in word
  {
    FirstSpaceExactly(word);
    AcrossSpace(word, rest);
    if SPACE !in word {
      assert (word + rest)[..|word|] == word;
    }
  }
}
