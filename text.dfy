/**
  The few Python string operations the scripts lean on: `str.split` with a
  one-character separator and its inverse `str.join`, the substring test
  `p in s`, `str.startswith` and `str.lower` on ASCII labels.
 */
module Text {

  /** The number of occurrences of `x` in `s`. */
  function Count(s: string, x: char): nat {
    if s == [] then 0 else (if s[0] == x then 1 else 0) + Count(s[1..], x)
  }

  /** `sep.join(pieces)`: the pieces with one separator between neighbours. */
  function Join(pieces: seq<string>, sep: char): string {
    if |pieces| == 0 then []
    else if |pieces| == 1 then pieces[0]
    else pieces[0] + [sep] + Join(pieces[1..], sep)
  }

  /**
    `s.split(sep)`: the maximal separator-free runs of `s`, in order. There is
    always one more piece than there are separators, so the empty string
    gives one empty piece.
   */
  function Split(s: string, sep: char): (pieces: seq<string>)
    ensures |pieces| == Count(s, sep) + 1
    ensures forall k :: 0 <= k < |pieces| ==> sep !in pieces[k]
    ensures Join(pieces, sep) == s
  {
    if s == [] then
      [[]]
    else
      var rest := Split(s[1..], sep);
      if s[0] == sep then
        assert s == [sep] + s[1..];
        [[]] + rest
      else
        var pieces := [[s[0]] + rest[0]] + rest[1..];
        assert pieces[1..] == rest[1..];
        assert s == [s[0]] + s[1..];
        assert |rest| > 1 ==> Join(rest, sep) == rest[0] + [sep] + Join(rest[1..], sep);
        assert |rest| > 1 ==> Join(pieces, sep) == ([s[0]] + rest[0]) + [sep] + Join(rest[1..], sep);
        pieces
  }

  /** Splitting undoes joining: separator-free pieces come back unchanged. */
  lemma {:induction false} SplitJoin(pieces: seq<string>, sep: char)
    requires |pieces| >= 1
    requires forall k :: 0 <= k < |pieces| ==> sep !in pieces[k]
    ensures Split(Join(pieces, sep), sep) == pieces
  {
    if |pieces| == 1 {
      SplitPlain(pieces[0], sep);
    } else {
      var tail := Join(pieces[1..], sep);
      SplitJoin(pieces[1..], sep);
      SplitAfterPlain(pieces[0], tail, sep);
      assert pieces == [pieces[0]] + pieces[1..];
    }
  }

  /**
    A separator-free string is one piece. The contract of `Split` already
    forces this: a join of two or more pieces contains the separator.
   */
  lemma SplitPlain(s: string, sep: char)
    requires sep !in s
    ensures Split(s, sep) == [s]
  {
  }

  /** A separator-free head followed by a separator starts a new piece. */
  lemma {:induction false} SplitAfterPlain(head: string, tail: string, sep: char)
    requires sep !in head
    ensures Split(head + [sep] + tail, sep) == [head] + Split(tail, sep)
  {
    if head == [] {
      assert head + [sep] + tail == [sep] + tail;
      assert ([sep] + tail)[1..] == tail;
    } else {
      var s := head + [sep] + tail;
      assert s[1..] == head[1..] + [sep] + tail;
      SplitAfterPlain(head[1..], tail, sep);
      assert head == [head[0]] + head[1..];
    }
  }

  /** `p` occurs in `s` starting at index `k`. */
  predicate OccursAt(p: string, s: string, k: int) {
    0 <= k && k + |p| <= |s| && s[k..k + |p|] == p
  }

  /** `p` occurs in `s` as a contiguous substring (Python's `p in s`). */
  ghost predicate OccursIn(p: string, s: string) {
    exists k :: OccursAt(p, s, k)
  }

  /** The substring test, by trying every start position from the left. */
  function Contains(s: string, p: string): bool
    decreases |s|
  {
    if p <= s then true
    else if s == [] then false
    else Contains(s[1..], p)
  }

  /** An occurrence at the front is a prefix. */
  lemma OccursAtFront(p: string, s: string)
    ensures OccursAt(p, s, 0) <==> p <= s
  {
  }

  /** Dropping the first character moves every later occurrence one place to the left. */
  lemma OccursAfterFront(p: string, s: string, k: int)
    requires |s| > 0 && k > 0
    ensures OccursAt(p, s[1..], k - 1) <==> OccursAt(p, s, k)
  {
  }

  /** The executable substring test agrees with the definition of an occurrence. */
  lemma {:induction false} ContainsIsOccurs(s: string, p: string)
    ensures Contains(s, p) <==> OccursIn(p, s)
    decreases |s|
  {
    OccursAtFront(p, s);
    if !(p <= s) && s != [] {
      var t := s[1..];
      ContainsIsOccurs(t, p);
      if OccursIn(p, t) {
        var k :| OccursAt(p, t, k);
        OccursAfterFront(p, s, k + 1);
      }
      if OccursIn(p, s) {
        var k :| OccursAt(p, s, k);
        assert k != 0;
        OccursAfterFront(p, s, k);
      }
    }
  }

  /** The empty string occurs in every string. */
  lemma EmptyOccurs(s: string)
    ensures OccursIn([], s)
  {
    assert OccursAt([], s, 0);
  }

  /** A one-character pattern occurs exactly where that character does. */
  lemma OccursSingle(c: char, s: string)
    ensures OccursIn([c], s) <==> c in s
  {
    if c in s {
      var k :| 0 <= k < |s| && s[k] == c;
      assert OccursAt([c], s, k);
    }
    if OccursIn([c], s) {
      var k :| OccursAt([c], s, k);
      assert s[k] == s[k..k + 1][0];
    }
  }

  /** An occurrence of `p` places its first character in `s`. */
  lemma OccursHead(p: string, s: string)
    requires |p| > 0 && OccursIn(p, s)
    ensures p[0] in s
  {
  }

  lemma OccursInPrefix(p: string, a: string, c: string, k: int)
    requires OccursAt(p, a, k)
    ensures OccursAt(p, a + c, k)
  {
  }

  lemma OccursInSuffix(p: string, c: string, b: string, k: int)
    requires OccursAt(p, b, k)
    ensures OccursAt(p, c + b, |c| + k)
  {
  }

  /** An occurrence of a separator-free pattern lies wholly before or wholly after the separator. */
  lemma OccursBesideSeparator(p: string, a: string, b: string, sep: char, k: int)
    requires sep !in p
    requires OccursAt(p, a + [sep] + b, k)
    ensures k + |p| <= |a| ==> OccursAt(p, a, k)
    ensures k + |p| > |a| ==> OccursAt(p, b, k - |a| - 1)
  {
    var s := a + [sep] + b;
    forall i | k <= i < k + |p|
      ensures s[i] in p
    {
      assert s[i] == s[k..k + |p|][i - k];
    }
    assert s[|a|] == sep;
    if k + |p| <= |a| {
      assert a[k..k + |p|] == s[k..k + |p|];
    } else {
      assert b[k - |a| - 1..k - |a| - 1 + |p|] == s[k..k + |p|];
    }
  }

  /**
    A pattern free of the separator occurs in `a + [sep] + b` exactly when it
    occurs in `a` or in `b`: no occurrence can straddle the separator.
   */
  lemma OccursAcrossSeparator(p: string, a: string, b: string, sep: char)
    requires sep !in p
    ensures OccursIn(p, a + [sep] + b) <==> OccursIn(p, a) || OccursIn(p, b)
  {
    if OccursIn(p, a + [sep] + b) {
      var k :| OccursAt(p, a + [sep] + b, k);
      OccursBesideSeparator(p, a, b, sep, k);
    }
    if OccursIn(p, a) {
      var k :| OccursAt(p, a, k);
      OccursInPrefix(p, a, [sep] + b, k);
      assert a + [sep] + b == a + ([sep] + b);
    }
    if OccursIn(p, b) {
      var k :| OccursAt(p, b, k);
      OccursInSuffix(p, a + [sep], b, k);
    }
  }

  /** A separator-free pattern occurs in a joined text exactly when it occurs in one of the pieces. */
  lemma {:induction false} OccursInJoin(p: string, pieces: seq<string>, sep: char)
    requires |pieces| >= 1
    requires sep !in p
    ensures OccursIn(p, Join(pieces, sep)) <==> exists k :: 0 <= k < |pieces| && OccursIn(p, pieces[k])
  {
    if |pieces| > 1 {
      OccursInJoin(p, pieces[1..], sep);
      OccursAcrossSeparator(p, pieces[0], Join(pieces[1..], sep), sep);
      if exists k :: 1 <= k < |pieces| && OccursIn(p, pieces[k]) {
        var k :| 1 <= k < |pieces| && OccursIn(p, pieces[k]);
        assert pieces[1..][k - 1] == pieces[k];
      }
    }
  }

  /** The ASCII lower-case form of one character; every other character is unchanged. */
  function LowerChar(c: char): char {
    if 'A' <= c <= 'Z' then (c as int + 32) as char else c
  }

  /** `s.lower()` on an ASCII label. */
  function Lower(s: string): (r: string)
    ensures |r| == |s|
    ensures forall i :: 0 <= i < |s| ==> r[i] == LowerChar(s[i])
  {
    seq(|s|, i requires 0 <= i < |s| => LowerChar(s[i]))
  }

  /** Lower-casing twice is lower-casing once. */
  lemma LowerIdempotent(s: string)
    ensures Lower(Lower(s)) == Lower(s)
  {
  }

  /** `s.startswith(prefix)`. */
  predicate StartsWith(s: string, prefix: string) {
    prefix <= s
  }
}
