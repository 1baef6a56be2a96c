/** String operations the handlers use: lower-casing, ordering, global
    literal replacement (`s.replace(/lit/g, rep)`) and removing one anchored
    trailing character (`s.replace(/c$/, "")`). Strings are sequences of
    characters (Unicode scalar values); lower-casing and ordering are the
    ASCII / code-point approximations of `toLowerCase` and `localeCompare`. */
module Text {

  /** `toLowerCase` on one character, for ASCII letters. */
  function LowerChar(c: char): char {
    if 'A' <= c <= 'Z' then (c as int + 32) as char else c
  }

  function Lower(s: string): (r: string)
    ensures |r| == |s|
    ensures forall i :: 0 <= i < |s| ==> r[i] == LowerChar(s[i])
  {
    seq(|s|, i requires 0 <= i < |s| => LowerChar(s[i]))
  }

  /** Lower-casing leaves no upper-case ASCII letter behind. */
  lemma LowerHasNoUpper(s: string)
    ensures forall i :: 0 <= i < |Lower(s)| ==> !('A' <= Lower(s)[i] <= 'Z')
  {
  }

  /** Lower-casing twice is lower-casing once. */
  lemma LowerIdempotent(s: string)
    ensures Lower(Lower(s)) == Lower(s)
  {
    assert forall i :: 0 <= i < |s| ==> LowerChar(LowerChar(s[i])) == LowerChar(s[i]);
  }

  /** Lexicographic order on code points; a proper prefix comes first. */
  predicate StrLess(a: string, b: string)
    decreases |a|
  {
    |b| > 0 && (|a| == 0 || a[0] < b[0] || (a[0] == b[0] && StrLess(a[1..], b[1..])))
  }

  lemma {:induction false} StrLessIrreflexive(a: string)
    ensures !StrLess(a, a)
    decreases |a|
  {
    if |a| > 0 {
      StrLessIrreflexive(a[1..]);
    }
  }

  lemma {:induction false} StrLessAsymmetric(a: string, b: string)
    ensures StrLess(a, b) ==> !StrLess(b, a)
    decreases |a|
  {
    if |a| > 0 && |b| > 0 && a[0] == b[0] {
      StrLessAsymmetric(a[1..], b[1..]);
    }
  }

  lemma {:induction false} StrLessTransitive(a: string, b: string, c: string)
    requires StrLess(a, b) && StrLess(b, c)
    ensures StrLess(a, c)
    decreases |a|
  {
    if |a| > 0 && a[0] == b[0] && b[0] == c[0] {
      StrLessTransitive(a[1..], b[1..], c[1..]);
    }
  }

  lemma {:induction false} StrLessTotal(a: string, b: string)
    ensures a == b || StrLess(a, b) || StrLess(b, a)
    decreases |a|
  {
    if |a| > 0 && |b| > 0 && a[0] == b[0] {
      StrLessTotal(a[1..], b[1..]);
      if a[1..] == b[1..] {
        assert a == [a[0]] + a[1..] && b == [b[0]] + b[1..];
      }
    }
  }

  /** `s.replace(/c$/, "")`: without the `m` flag `$` matches only at the
      very end, so at most one final `c` is removed. */
  function DropTrailing(s: string, c: char): (r: string)
    ensures r == s || (s == r + [c])
    ensures |s| > 0 && s[|s| - 1] == c ==> |r| == |s| - 1
  {
    if |s| > 0 && s[|s| - 1] == c then s[..|s| - 1] else s
  }

  /** `s.replace(/pat/g, rep)` for a literal pattern: matches are found left to
      right and never overlap. */
  function ReplaceAll(s: string, pat: string, rep: string): string
    requires |pat| > 0
    decreases |s|
  {
    if |s| < |pat| then s
    else if s[..|pat|] == pat then rep + ReplaceAll(s[|pat|..], pat, rep)
    else [s[0]] + ReplaceAll(s[1..], pat, rep)
  }

  /** `p` occurs somewhere in `s`. */
  predicate Occurs(p: string, s: string)
    decreases |s|
  {
    (|p| <= |s| && s[..|p|] == p) || (|s| > 0 && Occurs(p, s[1..]))
  }

  lemma {:induction false} OccursInSuffix(p: string, s: string, k: nat)
    requires k <= |s| && Occurs(p, s[k..])
    ensures Occurs(p, s)
    decreases k
  {
    if k > 0 {
      assert s[1..][k - 1..] == s[k..];
      OccursInSuffix(p, s[1..], k - 1);
    }
  }

  /** A pattern of one character is replaced character by character, so the
      replacement distributes over concatenation. */
  lemma {:induction false} ReplaceAllSingleConcat(a: string, b: string, pat: string, rep: string)
    requires |pat| == 1
    ensures ReplaceAll(a + b, pat, rep) == ReplaceAll(a, pat, rep) + ReplaceAll(b, pat, rep)
    decreases |a|
  {
    if a != [] {
      assert (a + b)[..1] == a[..1];
      assert (a + b)[1..] == a[1..] + b;
      ReplaceAllSingleConcat(a[1..], b, pat, rep);
      var head := if a[..1] == pat then rep else [a[0]];
      assert ReplaceAll(a, pat, rep) == head + ReplaceAll(a[1..], pat, rep);
      assert ReplaceAll(a + b, pat, rep) == head + ReplaceAll(a[1..] + b, pat, rep);
    } else {
      assert a + b == b;
    }
  }

  /** When the replacement is one character `c` that does not occur in `p`,
      any text `p` that starts the result already started the input. */
  lemma {:induction false} PrefixSurvivesReplace(t: string, pat: string, c: char, p: string)
    requires |pat| > 0
    requires forall i :: 0 <= i < |p| ==> p[i] != c
    requires |p| <= |ReplaceAll(t, pat, [c])| && ReplaceAll(t, pat, [c])[..|p|] == p
    ensures |p| <= |t| && t[..|p|] == p
    decreases |t|
  {
    if |p| > 0 && |t| >= |pat| {
      var whole := ReplaceAll(t, pat, [c]);
      assert whole[0] == p[0];
      if t[..|pat|] == pat {
        assert false;
      } else {
        var r := ReplaceAll(t[1..], pat, [c]);
        assert whole == [t[0]] + r;
        assert forall i :: 0 <= i < |p| - 1 ==> r[i] == whole[i + 1] == p[i + 1];
        assert r[..|p| - 1] == p[1..];
        PrefixSurvivesReplace(t[1..], pat, c, p[1..]);
        assert t == [t[0]] + t[1..];
      }
    }
  }

  /** Replacing every `pat` by a character that `pat` does not contain leaves
      no `pat` behind. */
  lemma {:induction false} ReplaceAllRemoves(s: string, pat: string, c: char)
    requires |pat| > 0
    requires forall i :: 0 <= i < |pat| ==> pat[i] != c
    ensures !Occurs(pat, ReplaceAll(s, pat, [c]))
    decreases |s|
  {
    var r := ReplaceAll(s, pat, [c]);
    if |s| < |pat| {
      NoRoomNoOccurrence(pat, s);
    } else if s[..|pat|] == pat {
      var rest := ReplaceAll(s[|pat|..], pat, [c]);
      assert r == [c] + rest && r[1..] == rest;
      ReplaceAllRemoves(s[|pat|..], pat, c);
      assert r[0] != pat[0];
    } else {
      var rest := ReplaceAll(s[1..], pat, [c]);
      assert r == [s[0]] + rest && r[1..] == rest;
      ReplaceAllRemoves(s[1..], pat, c);
      if |pat| <= |r| && r[..|pat|] == pat {
        assert rest[..|pat| - 1] == pat[1..];
        assert s[..|pat|] == [s[0]] + s[1..][..|pat| - 1];
        PrefixSurvivesReplace(s[1..], pat, c, pat[1..]);
      }
    }
  }

  /** Replacing `pat` by a character that `q` does not contain creates no new `q`. */
  lemma {:induction false} ReplaceAllKeepsAbsent(s: string, pat: string, c: char, q: string)
    requires |pat| > 0 && |q| > 0
    requires forall i :: 0 <= i < |q| ==> q[i] != c
    requires !Occurs(q, s)
    ensures !Occurs(q, ReplaceAll(s, pat, [c]))
    decreases |s|
  {
    var r := ReplaceAll(s, pat, [c]);
    if |s| < |pat| {
    } else if s[..|pat|] == pat {
      var rest := ReplaceAll(s[|pat|..], pat, [c]);
      assert r == [c] + rest && r[1..] == rest;
      if Occurs(q, s[|pat|..]) {
        OccursInSuffix(q, s, |pat|);
      }
      ReplaceAllKeepsAbsent(s[|pat|..], pat, c, q);
      assert r[0] != q[0];
    } else {
      var rest := ReplaceAll(s[1..], pat, [c]);
      assert r == [s[0]] + rest && r[1..] == rest;
      ReplaceAllKeepsAbsent(s[1..], pat, c, q);
      if |q| <= |r| && r[..|q|] == q {
        assert rest[..|q| - 1] == q[1..];
        assert |s| >= |q| ==> s[..|q|] == [s[0]] + s[1..][..|q| - 1];
        PrefixSurvivesReplace(s[1..], pat, c, q[1..]);
      }
    }
  }

  lemma {:induction false} NoRoomNoOccurrence(p: string, s: string)
    requires |s| < |p|
    ensures !Occurs(p, s)
    decreases |s|
  {
    if |s| > 0 {
      NoRoomNoOccurrence(p, s[1..]);
    }
  }

  /** Text without the pattern's first character is left as it is. */
  lemma {:induction false} ReplaceAllAbsent(s: string, pat: string, rep: string)
    requires |pat| > 0
    requires forall i :: 0 <= i < |s| ==> s[i] != pat[0]
    ensures ReplaceAll(s, pat, rep) == s
    decreases |s|
  {
    if |s| >= |pat| {
      assert s[..|pat|][0] != pat[0];
      ReplaceAllAbsent(s[1..], pat, rep);
      assert s == [s[0]] + s[1..];
    }
  }

  /** A match at the front is replaced and the scan resumes after it. */
  lemma {:induction false} ReplaceAllMatchFirst(s: string, pat: string, rep: string)
    requires |pat| > 0
    ensures ReplaceAll(pat + s, pat, rep) == rep + ReplaceAll(s, pat, rep)
  {
    assert (pat + s)[..|pat|] == pat;
    assert (pat + s)[|pat|..] == s;
  }

  /** A character that does not start a match is kept and the scan moves
      one character on. */
  lemma {:induction false} ReplaceAllSkipFirst(c: char, s: string, pat: string, rep: string)
    requires |pat| > 0
    requires |pat| <= |s| + 1 ==> ([c] + s)[..|pat|] != pat
    ensures ReplaceAll([c] + s, pat, rep) == [c] + ReplaceAll(s, pat, rep)
  {
    assert ([c] + s)[1..] == s;
  }

  /** A prefix none of whose characters starts the pattern is kept as it is. */
  lemma {:induction false} ReplaceAllKeepsPrefix(u: string, s: string, pat: string, rep: string)
    requires |pat| > 0
    requires forall i :: 0 <= i < |u| ==> u[i] != pat[0]
    ensures ReplaceAll(u + s, pat, rep) == u + ReplaceAll(s, pat, rep)
    decreases |u|
  {
    if u != [] {
      var t := u[1..] + s;
      assert u + s == [u[0]] + t;
      assert |pat| <= |t| + 1 ==> ([u[0]] + t)[..|pat|][0] == u[0];
      ReplaceAllSkipFirst(u[0], t, pat, rep);
      ReplaceAllKeepsPrefix(u[1..], s, pat, rep);
      calc {
        ReplaceAll(u + s, pat, rep);
        [u[0]] + ReplaceAll(t, pat, rep);
        [u[0]] + (u[1..] + ReplaceAll(s, pat, rep));
        { assert u == [u[0]] + u[1..]; }
        u + ReplaceAll(s, pat, rep);
      }
    } else {
      assert u + s == s;
    }
  }
}
