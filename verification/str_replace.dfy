/**
 * Python's `str.replace(old, new)` and `str.count(sub)` on strings, with the
 * semantics the bundler relies on: occurrences are found left to right and do
 * not overlap; after a match the scan resumes just past it. For an empty
 * pattern Python inserts the replacement before every character and at the
 * end, and counts `len(s) + 1` occurrences; both are modelled too.
 *
 * The lemmas are about "commenting out": replacing `pat` with `c + pat`,
 * where `c` is a marker such as "// ".
 */
module StrReplace {

  /** `pat` occurs in `s` starting at index `i`. */
  predicate OccursAt(s: string, pat: string, i: nat) {
    i <= |s| && pat <= s[i..]
  }

  /** Python's `s.count(pat)`: the number of non-overlapping occurrences, found left to right. */
  function Count(s: string, pat: string): (n: nat)
    ensures pat == [] ==> n == |s| + 1
    ensures pat != [] ==> n <= |s|
    decreases |s|
  {
    if pat == [] then |s| + 1
    else if s == [] then 0
    else if pat <= s then 1 + Count(s[|pat|..], pat)
    else Count(s[1..], pat)
  }

  /** Python's `s.replace(pat, rep)`. */
  function Replace(s: string, pat: string, rep: string): (r: string)
    ensures Count(s, pat) == 0 ==> r == s
    decreases |s|
  {
    if pat == [] then
      if s == [] then rep else rep + [s[0]] + Replace(s[1..], pat, rep)
    else if s == [] then []
    else if pat <= s then rep + Replace(s[|pat|..], pat, rep)
    else [s[0]] + Replace(s[1..], pat, rep)
  }

  /** Each match grows or shrinks the text by the difference between the replacement and the pattern. */
  lemma {:induction false} ReplaceLength(s: string, pat: string, rep: string)
    ensures |Replace(s, pat, rep)| == |s| + Count(s, pat) * (|rep| - |pat|)
    decreases |s|
  {
    var d := |rep| - |pat|;
    if pat == [] {
      if s != [] {
        ReplaceLength(s[1..], pat, rep);
        assert (|s| + 1) * d == d + |s| * d;
      }
    } else if s == [] {
    } else if pat <= s {
      ReplaceLength(s[|pat|..], pat, rep);
      assert (1 + Count(s[|pat|..], pat)) * d == d + Count(s[|pat|..], pat) * d;
    } else {
      ReplaceLength(s[1..], pat, rep);
    }
  }

  /** A non-empty pattern has no match exactly when it does not occur at all. */
  lemma {:induction false} CountZeroIffAbsent(s: string, pat: string)
    requires pat != []
    ensures Count(s, pat) == 0 <==> forall i: nat :: !OccursAt(s, pat, i)
    decreases |s|
  {
    if s == [] {
      forall i: nat ensures !OccursAt(s, pat, i) {
        if OccursAt(s, pat, i) { assert false; }
      }
    } else if pat <= s {
      assert OccursAt(s, pat, 0);
    } else {
      CountZeroIffAbsent(s[1..], pat);
      if Count(s, pat) == 0 {
        forall i: nat ensures !OccursAt(s, pat, i) {
          if i > 0 && OccursAt(s, pat, i) {
            assert s[1..][i - 1..] == s[i..];
            assert OccursAt(s[1..], pat, i - 1);
          }
        }
      } else {
        var j: nat :| OccursAt(s[1..], pat, j);
        assert s[1..][j..] == s[j + 1..];
        assert OccursAt(s, pat, j + 1);
      }
    }
  }

  /**
   * Conditions under which `c` can be inserted in front of every `pat`
   * without confusing later scans: both are non-empty, the first character
   * of `pat` never appears in `c`, and the first character of `c` never
   * appears in `pat`.
   */
  predicate Insertable(pat: string, c: string) {
    pat != [] && c != [] && pat[0] !in c && c[0] !in pat
  }

  /** The character `ch` occurs in `s`, if at all, only as its first character. */
  predicate OnlyAtStart(ch: char, s: string) {
    forall i :: 0 < i < |s| ==> s[i] != ch
  }

  /** Past its first character, `s` does not contain `ch`. */
  lemma OnlyAtStartTail(ch: char, s: string)
    requires s != [] && OnlyAtStart(ch, s)
    ensures ch !in s[1..]
  {
    forall i | 0 <= i < |s[1..]| ensures s[1..][i] != ch {
      assert s[1..][i] == s[i + 1];
    }
  }

  // Regrouping concatenations, stated on plain sequences so that the proofs
  // below need not regroup around replacement results themselves.

  lemma ConsBack(p: string, r: string)
    requires p != []
    ensures [p[0]] + (p[1..] + r) == p + r
  {
    assert p == [p[0]] + p[1..];
  }

  lemma Assoc(a: string, b: string, c: string)
    ensures a + b + c == a + (b + c)
  {
  }

  // Single steps of the scan, stated once so that the proofs below can use them by name.

  lemma ReplaceMatchFirst(t: string, pat: string, rep: string)
    requires pat != []
    ensures Replace(pat + t, pat, rep) == rep + Replace(t, pat, rep)
    ensures Count(pat + t, pat) == 1 + Count(t, pat)
  {
    assert pat <= pat + t;
    assert (pat + t)[|pat|..] == t;
  }

  lemma ReplaceSkipFirst(a: char, t: string, pat: string, rep: string)
    requires pat != [] && !(pat <= [a] + t)
    ensures Replace([a] + t, pat, rep) == [a] + Replace(t, pat, rep)
    ensures Count([a] + t, pat) == Count(t, pat)
  {
    assert ([a] + t)[1..] == t;
  }

  /** A prefix that does not contain the pattern's first character is copied unchanged and adds no match. */
  lemma {:induction false} KeepsPrefix(w: string, z: string, pat: string, rep: string)
    requires pat != [] && pat[0] !in w
    ensures Replace(w + z, pat, rep) == w + Replace(z, pat, rep)
    ensures Count(w + z, pat) == Count(z, pat)
    decreases |w|
  {
    if w == [] {
      assert w + z == z;
    } else {
      assert w + z == [w[0]] + (w[1..] + z);
      ReplaceSkipFirst(w[0], w[1..] + z, pat, rep);
      KeepsPrefix(w[1..], z, pat, rep);
      ConsBack(w, Replace(z, pat, rep));
    }
  }

  /** A character that is not part of the pattern splits the replacement in two. */
  lemma {:induction false} SplitAt(a: string, x: char, b: string, pat: string, rep: string)
    requires pat != [] && x !in pat
    ensures Replace(a + [x] + b, pat, rep) == Replace(a, pat, rep) + [x] + Replace(b, pat, rep)
    decreases |a|
  {
    var s := a + [x] + b;
    var rb := Replace(b, pat, rep);
    if a == [] {
      assert Replace(s, pat, rep) == [x] + rb by {
        assert s == [x] + b;
        assert pat[0] != x;
        ReplaceSkipFirst(x, b, pat, rep);
      }
    } else {
      var n := if pat <= s then |pat| else 1;
      var h := if pat <= s then rep else [a[0]];
      assert n <= |a| by {
        SplitStep(a, x, b, pat, rep, n);
      }
      var a' := a[n..];
      var ra' := Replace(a', pat, rep);
      assert Replace(s, pat, rep) == h + Replace(a' + [x] + b, pat, rep) by {
        SplitStep(a, x, b, pat, rep, n);
      }
      assert Replace(a' + [x] + b, pat, rep) == ra' + [x] + rb by {
        SplitAt(a', x, b, pat, rep);
      }
      assert Replace(a, pat, rep) == h + ra' by {
        SplitStep(a, x, b, pat, rep, n);
      }
      Assoc(h, ra' + [x], rb);
      Assoc(h, ra', [x]);
    }
  }

  /** A prefix of `a + [x] + b` either lies within `a` or has `x` at position `|a|`. */
  lemma PatternBeforeOrAt(a: string, x: char, b: string, pat: string)
    requires pat <= a + [x] + b
    ensures |pat| <= |a| || pat[|a|] == x
  {
  }

  /** The first step of the scan over `a + [x] + b` is the same as the first step over `a`. */
  lemma SplitStep(a: string, x: char, b: string, pat: string, rep: string, n: nat)
    requires pat != [] && x !in pat && a != []
    requires n == if pat <= a + [x] + b then |pat| else 1
    ensures n <= |a|
    ensures pat <= a + [x] + b ==> pat <= a
    ensures Replace(a + [x] + b, pat, rep) == (if pat <= a then rep else [a[0]]) + Replace(a[n..] + [x] + b, pat, rep)
    ensures Replace(a, pat, rep) == (if pat <= a then rep else [a[0]]) + Replace(a[n..], pat, rep)
  {
    var y := [x] + b;
    Assoc(a, [x], b);
    if pat <= a + y {
      PatternBeforeOrAt(a, x, b, pat);
    }
    var a' := a[n..];
    Assoc(a', [x], b);
    if pat <= a + y {
      PrefixWithin(pat, a, y);
      ReplaceMatchFirst(a' + y, pat, rep);
      ReplaceMatchFirst(a', pat, rep);
    } else {
      PrefixWithin(pat, a, y);
      ConsBack(a, y);
      ReplaceSkipFirst(a[0], a' + y, pat, rep);
      ConsBack(a, []);
      assert a' + [] == a' && a + [] == a;
      ReplaceSkipFirst(a[0], a', pat, rep);
    }
  }

  /** A prefix of `a + y` no longer than `a` is a prefix of `a`, and the rest of `a` follows it. */
  lemma PrefixWithin(pat: string, a: string, y: string)
    ensures pat <= a ==> pat <= a + y
    ensures pat <= a + y && |pat| <= |a| ==> pat <= a && a == pat + a[|pat|..] && a + y == pat + (a[|pat|..] + y)
  {
    if pat <= a + y && |pat| <= |a| {
      assert a == pat + a[|pat|..];
    }
  }

  /** Replacement distributes over a join whose right part starts with a character outside the pattern. */
  lemma JoinAt(a: string, b: string, pat: string, rep: string)
    requires pat != [] && b != [] && b[0] !in pat
    ensures Replace(a + b, pat, rep) == Replace(a, pat, rep) + Replace(b, pat, rep)
    ensures Replace(b, pat, rep) == [b[0]] + Replace(b[1..], pat, rep)
  {
    var x, b' := b[0], b[1..];
    assert Replace(b, pat, rep) == [x] + Replace(b', pat, rep) by {
      assert [] + [x] + b' == b;
      SplitAt([], x, b', pat, rep);
    }
    assert Replace(a + b, pat, rep) == Replace(a, pat, rep) + [x] + Replace(b', pat, rep) by {
      assert a + b == a + [x] + b';
      SplitAt(a, x, b', pat, rep);
    }
    Assoc(Replace(a, pat, rep), [x], Replace(b', pat, rep));
  }

  /** The first character of a non-empty prefix, and what is left of the prefix after it. */
  lemma PrefixHead(q: string, r: string)
    ensures q != [] && q <= r ==> r != [] && q[0] == r[0] && q[1..] <= r[1..]
  {
  }

  /** A prefix agrees with the longer sequence at each of its positions. */
  lemma PrefixAt(q: string, r: string, k: nat)
    ensures q <= r && k < |q| ==> q[k] == r[k]
  {
  }

  /**
   * When commenting out, a prefix of the output that avoids the marker's
   * first character is a prefix of the input as well.
   */
  lemma {:induction false} PrefixOfOutput(z: string, pat: string, c: string, q: string)
    requires pat != [] && c != [] && c[0] !in q
    requires q <= Replace(z, pat, c + pat)
    ensures q <= z
    decreases |z|
  {
    if q != [] && z != [] {
      var z' := z[1..];
      if pat <= z {
        PrefixHead(q, Replace(z, pat, c + pat));
        assert false;
      } else {
        assert z == [z[0]] + z';
        ReplaceSkipFirst(z[0], z', pat, c + pat);
        PrefixHead(q, Replace(z, pat, c + pat));
        PrefixOfOutput(z', pat, c, q[1..]);
        assert q == [q[0]] + q[1..];
      }
    }
  }

  /**
   * When commenting out, the output never starts with a proper suffix of the
   * marker followed by the pattern; with `k == |c|` this says no bare `pat`
   * starts the output.
   */
  lemma {:induction false} NoMarkerTailStart(y: string, pat: string, c: string, k: nat)
    requires Insertable(pat, c) && 0 < k <= |c|
    ensures !(c[k..] + pat <= Replace(y, pat, c + pat))
    decreases |y|
  {
    var w := c[k..];
    var r := Replace(y, pat, c + pat);
    if y == [] {
    } else if pat <= y {
      var t := Replace(y[|pat|..], pat, c + pat);
      assert r == c + (pat + t) by {
        PrefixWithin(pat, y, []);
        assert y == pat + y[|pat|..];
        ReplaceMatchFirst(y[|pat|..], pat, c + pat);
        Assoc(c, pat, t);
      }
      MarkerTailMismatch(c, k, pat, pat + t);
    } else {
      var y' := y[1..];
      var t := Replace(y', pat, c + pat);
      assert r == [y[0]] + t by {
        ConsBack(y, []);
        assert y + [] == y && y' + [] == y';
        ReplaceSkipFirst(y[0], y', pat, c + pat);
      }
      TailOfCons(y[0], t);
      PrefixHead(w + pat, r);
      if w + pat <= r {
        if k < |c| {
          assert (w + pat)[1..] == c[k + 1..] + pat;
          NoMarkerTailStart(y', pat, c, k + 1);
          assert false;
        } else {
          assert w + pat == pat;
          PrefixOfOutput(y', pat, c, pat[1..]);
          PrefixFromHead(pat, y);
          assert false;
        }
      }
    }
  }

  /** A proper suffix of the marker followed by the pattern cannot start the marker followed by anything. */
  lemma MarkerTailMismatch(c: string, k: nat, pat: string, z: string)
    requires pat != [] && pat[0] !in c && 0 < k <= |c|
    ensures !(c[k..] + pat <= c + z)
  {
    var w := c[k..];
    PrefixAt(w + pat, c + z, |w|);
    assert (w + pat)[|w|] == pat[0];
    assert (c + z)[|w|] == c[|w|];
  }

  lemma TailOfCons(a: char, t: string)
    ensures ([a] + t)[1..] == t
  {
  }

  /** A sequence whose head and tail agree with those of `r` is a prefix of `r`. */
  lemma PrefixFromHead(q: string, r: string)
    ensures q != [] && r != [] && q[0] == r[0] && q[1..] <= r[1..] ==> q <= r
  {
    if q != [] && r != [] && q[0] == r[0] && q[1..] <= r[1..] {
      forall i | 0 <= i < |q| ensures q[i] == r[i] {
        if i > 0 {
          assert q[i] == q[1..][i - 1];
          assert r[i] == r[1..][i - 1];
        }
      }
    }
  }

  /** When commenting out, no bare pattern starts the output. */
  lemma NoBareFirst(y: string, pat: string, c: string)
    requires Insertable(pat, c)
    ensures !(pat <= Replace(y, pat, c + pat))
  {
    assert c[|c|..] + pat == pat;
    NoMarkerTailStart(y, pat, c, |c|);
  }

  /**
   * Commenting out is undone by replacing `c + pat` back with `pat`: the
   * inserted markers are the only change.
   */
  lemma {:induction false} CommentOutRoundTrip(s: string, pat: string, c: string)
    requires Insertable(pat, c)
    ensures Replace(Replace(s, pat, c + pat), c + pat, pat) == s
    decreases |s|
  {
    var cp := c + pat;
    if s == [] {
    } else if pat <= s {
      var s' := s[|pat|..];
      assert s == pat + s';
      ReplaceMatchFirst(s', pat, cp);
      ReplaceMatchFirst(Replace(s', pat, cp), cp, pat);
      CommentOutRoundTrip(s', pat, c);
    } else {
      var s' := s[1..];
      assert s == [s[0]] + s';
      var t := Replace(s', pat, cp);
      ReplaceSkipFirst(s[0], s', pat, cp);
      assert !(cp <= [s[0]] + t) by {
        NoMarkerTailStart(s', pat, c, 1);
        PrefixHead(cp, [s[0]] + t);
        assert cp[1..] == c[1..] + pat;
        assert ([s[0]] + t)[1..] == t;
      }
      ReplaceSkipFirst(s[0], t, cp, pat);
      CommentOutRoundTrip(s', pat, c);
    }
  }

  /** A product of two positive numbers is positive. */
  lemma PositiveProduct(n: nat, d: nat)
    requires 0 < n && 0 < d
    ensures 0 < n * d
  {
  }

  /** Commenting out changes the text exactly when the pattern occurs in it. */
  lemma CommentOutChangesIffOccurs(s: string, pat: string, c: string)
    requires pat != [] && c != []
    ensures Replace(s, pat, c + pat) == s <==> forall i: nat :: !OccursAt(s, pat, i)
  {
    var n := Count(s, pat);
    CountZeroIffAbsent(s, pat);
    assert |Replace(s, pat, c + pat)| == |s| + n * |c| by {
      ReplaceLength(s, pat, c + pat);
      assert |c + pat| - |pat| == |c|;
    }
    if n > 0 {
      PositiveProduct(n, |c|);
    }
  }

  /**
   * After commenting out, every occurrence of `pat` in the output is
   * immediately preceded by the marker `c`, provided `pat`'s first
   * character occurs nowhere else in it.
   */
  lemma {:induction false} EveryOccurrenceMarked(s: string, pat: string, c: string)
    requires Insertable(pat, c) && OnlyAtStart(pat[0], pat)
    ensures forall i: nat :: OccursAt(Replace(s, pat, c + pat), pat, i) ==>
              |c| <= i && Replace(s, pat, c + pat)[i - |c|..i] == c
    decreases |s|
  {
    var r := Replace(s, pat, c + pat);
    if s == [] {
    } else if pat <= s {
      var s' := s[|pat|..];
      var t := Replace(s', pat, c + pat);
      assert s == pat + s';
      ReplaceMatchFirst(s', pat, c + pat);
      EveryOccurrenceMarked(s', pat, c);
      forall i: nat | OccursAt(r, pat, i) ensures |c| <= i && r[i - |c|..i] == c {
        MarkedAfterMatch(c, pat, t, i);
      }
    } else {
      var s' := s[1..];
      var t := Replace(s', pat, c + pat);
      assert s == [s[0]] + s';
      ReplaceSkipFirst(s[0], s', pat, c + pat);
      EveryOccurrenceMarked(s', pat, c);
      NoBareFirst(s, pat, c);
      forall i: nat | OccursAt(r, pat, i) ensures |c| <= i && r[i - |c|..i] == c {
        MarkedAfterSkip(s[0], c, pat, t, i);
      }
    }
  }

  /** One step of EveryOccurrenceMarked: an occurrence in `c + pat + t` is the inserted one or one in `t`. */
  lemma MarkedAfterMatch(c: string, pat: string, t: string, i: nat)
    requires Insertable(pat, c) && OnlyAtStart(pat[0], pat)
    requires forall j: nat :: OccursAt(t, pat, j) ==> |c| <= j && t[j - |c|..j] == c
    requires OccursAt(c + pat + t, pat, i)
    ensures |c| <= i && (c + pat + t)[i - |c|..i] == c
  {
    var r := c + pat + t;
    PrefixHead(pat, r[i..]);
    if i < |c| {
      assert false;
    } else if i == |c| {
      assert r[..|c|] == c;
    } else if i < |c| + |pat| {
      assert false;
    } else {
      var j := i - |c| - |pat|;
      assert r[i..] == t[j..];
      assert OccursAt(t, pat, j);
      assert r[i - |c|..i] == t[j - |c|..j];
    }
  }

  /** The other step of EveryOccurrenceMarked: an occurrence in `[a] + t` past the start is one in `t`. */
  lemma MarkedAfterSkip(a: char, c: string, pat: string, t: string, i: nat)
    requires forall j: nat :: OccursAt(t, pat, j) ==> |c| <= j && t[j - |c|..j] == c
    requires !(pat <= [a] + t)
    requires OccursAt([a] + t, pat, i)
    ensures |c| <= i && ([a] + t)[i - |c|..i] == c
  {
    var r := [a] + t;
    if i == 0 {
      assert false;
    } else {
      assert r[i..] == t[i - 1..];
      assert OccursAt(t, pat, i - 1);
      assert r[i - |c|..i] == t[i - 1 - |c|..i - 1];
    }
  }

  /** Commenting out keeps every occurrence of the pattern: none is deleted or added. */
  lemma {:induction false} CommentOutKeepsCount(s: string, pat: string, c: string)
    requires Insertable(pat, c)
    ensures Count(Replace(s, pat, c + pat), pat) == Count(s, pat)
    decreases |s|
  {
    if s == [] {
    } else if pat <= s {
      var s' := s[|pat|..];
      var t := Replace(s', pat, c + pat);
      assert s == pat + s';
      ReplaceMatchFirst(s', pat, c + pat);
      Assoc(c, pat, t);
      KeepsPrefix(c, pat + t, pat, c + pat);
      ReplaceMatchFirst(t, pat, c + pat);
      CommentOutKeepsCount(s', pat, c);
    } else {
      var s' := s[1..];
      var t := Replace(s', pat, c + pat);
      assert s == [s[0]] + s';
      ReplaceSkipFirst(s[0], s', pat, c + pat);
      NoBareFirst(s, pat, c);
      ReplaceSkipFirst(s[0], t, pat, c + pat);
      CommentOutKeepsCount(s', pat, c);
    }
  }

  /**
   * Two patterns that can be commented out with the same marker without
   * interfering: neither is a prefix of the other, and neither's first
   * character occurs after the first position of the other.
   */
  predicate Independent(p: string, q: string, c: string) {
    Insertable(p, c) && Insertable(q, c) && !(p <= q) && !(q <= p) &&
    OnlyAtStart(p[0], q) && OnlyAtStart(q[0], p)
  }

  /** Two strings neither of which is a prefix of the other cannot both start a third. */
  lemma NotBothPrefixes(p: string, q: string, s: string)
    requires !(p <= q) && !(q <= p) && p <= s
    ensures !(q <= s)
  {
  }

  /**
   * What PatternThenRest needs of `p` and `q`: neither is a prefix of the
   * other, and `q`'s first character does not occur in `p` past its start.
   */
  predicate Unconfused(p: string, q: string) {
    p != [] && q != [] && !(p <= q) && !(q <= p) && q[0] !in p[1..]
  }

  /** Independent patterns are unconfused in both directions. */
  lemma IndependentUnconfused(p: string, q: string, c: string)
    requires Independent(p, q, c)
    ensures Unconfused(p, q) && Unconfused(q, p)
  {
    OnlyAtStartTail(q[0], p);
    OnlyAtStartTail(p[0], q);
  }

  /** The text `p + x` has no match of `q` before `x`. */
  lemma PatternThenRest(p: string, q: string, x: string, rep: string)
    requires Unconfused(p, q)
    ensures Replace(p + x, q, rep) == p + Replace(x, q, rep)
    ensures Count(p + x, q) == Count(x, q)
  {
    var p' := p[1..];
    ConsBack(p, x);
    NotBothPrefixes(p, q, p + x);
    ReplaceSkipFirst(p[0], p' + x, q, rep);
    KeepsPrefix(p', x, q, rep);
    ConsBack(p, Replace(x, q, rep));
  }

  /** Marker, pattern `p`, then the rest: no match of `q` before the rest. */
  lemma MarkedPatternThenRest(p: string, q: string, c: string, x: string, rep: string)
    requires Unconfused(p, q) && q[0] !in c
    ensures Replace(c + p + x, q, rep) == c + p + Replace(x, q, rep)
    ensures Count(c + p + x, q) == Count(x, q)
  {
    var rx := Replace(x, q, rep);
    Assoc(c, p, x);
    KeepsPrefix(c, p + x, q, rep);
    PatternThenRest(p, q, x, rep);
    Assoc(c, p, rx);
  }

  /** After commenting out `p`, a match of an independent `q` at the start was already there. */
  lemma OtherAtStart(a: char, x: string, p: string, q: string, c: string)
    requires Independent(p, q, c)
    requires !(q <= [a] + x)
    ensures !(q <= [a] + Replace(x, p, c + p))
  {
    PrefixHead(q, [a] + Replace(x, p, c + p));
    if q <= [a] + Replace(x, p, c + p) {
      PrefixOfOutput(x, p, c, q[1..]);
      assert false;
    }
  }

  /** Commenting out `p` neither creates nor destroys a match of an independent `q`. */
  lemma {:induction false} CommentOutKeepsOtherCount(s: string, p: string, q: string, c: string)
    requires Independent(p, q, c)
    ensures Count(Replace(s, p, c + p), q) == Count(s, q)
    decreases |s|
  {
    IndependentUnconfused(p, q, c);
    if s == [] {
    } else if p <= s {
      var s' := s[|p|..];
      assert s == p + s';
      ReplaceMatchFirst(s', p, c + p);
      MarkedPatternThenRest(p, q, c, Replace(s', p, c + p), c + q);
      PatternThenRest(p, q, s', c + q);
      CommentOutKeepsOtherCount(s', p, q, c);
    } else if q <= s {
      var s' := s[|q|..];
      assert s == q + s';
      PatternThenRest(q, p, s', c + p);
      ReplaceMatchFirst(s', q, c + q);
      ReplaceMatchFirst(Replace(s', p, c + p), q, c + q);
      CommentOutKeepsOtherCount(s', p, q, c);
    } else {
      var s' := s[1..];
      var t := Replace(s', p, c + p);
      assert s == [s[0]] + s';
      ReplaceSkipFirst(s[0], s', p, c + p);
      ReplaceSkipFirst(s[0], s', q, c + q);
      OtherAtStart(s[0], s', p, q, c);
      ReplaceSkipFirst(s[0], t, q, c + q);
      CommentOutKeepsOtherCount(s', p, q, c);
    }
  }

  /** Commenting out two independent patterns gives the same text in either order. */
  lemma {:induction false} CommentOutCommutes(s: string, p: string, q: string, c: string)
    requires Independent(p, q, c)
    ensures Replace(Replace(s, p, c + p), q, c + q) == Replace(Replace(s, q, c + q), p, c + p)
    decreases |s|
  {
    IndependentUnconfused(p, q, c);
    if s == [] {
    } else if p <= s {
      var x := s[|p|..];
      assert s == p + x;
      ReplaceMatchFirst(x, p, c + p);
      MarkedPatternThenRest(p, q, c, Replace(x, p, c + p), c + q);
      PatternThenRest(p, q, x, c + q);
      ReplaceMatchFirst(Replace(x, q, c + q), p, c + p);
      CommentOutCommutes(x, p, q, c);
    } else if q <= s {
      var x := s[|q|..];
      assert s == q + x;
      ReplaceMatchFirst(x, q, c + q);
      MarkedPatternThenRest(q, p, c, Replace(x, q, c + q), c + p);
      PatternThenRest(q, p, x, c + p);
      ReplaceMatchFirst(Replace(x, p, c + p), q, c + q);
      CommentOutCommutes(x, p, q, c);
    } else {
      var x := s[1..];
      assert s == [s[0]] + x;
      ReplaceSkipFirst(s[0], x, p, c + p);
      ReplaceSkipFirst(s[0], x, q, c + q);
      OtherAtStart(s[0], x, p, q, c);
      OtherAtStart(s[0], x, q, p, c);
      ReplaceSkipFirst(s[0], Replace(x, p, c + p), q, c + q);
      ReplaceSkipFirst(s[0], Replace(x, q, c + q), p, c + p);
      CommentOutCommutes(x, p, q, c);
    }
  }
}
