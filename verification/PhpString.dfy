/** Models of the three PHP string built-ins the label formatter relies on:
    `str_replace` with one search string, and `ltrim` / `rtrim` with a
    character mask. Strings are sequences of characters; PHP's byte strings
    are not distinguished from them here. */
module PhpString {

  /** `pat` occurs in `s` starting at index `i`. */
  predicate MatchAt(s: string, pat: string, i: nat) {
    i + |pat| <= |s| && s[i..i + |pat|] == pat
  }

  /** `pat` occurs somewhere in `s` as a contiguous block. */
  predicate Occurs(s: string, pat: string) {
    exists i: nat | i <= |s| :: MatchAt(s, pat, i)
  }

  /** The set of characters of a trim character list (a list without `..` ranges). */
  function CharSet(list: string): (m: set<char>)
    ensures forall c :: c in m <==> c in list
  {
    set c | c in list
  }

  /** `str_replace(pat, rep, s)`: scan `s` from the left; wherever `pat` starts,
      emit `rep` and continue after the match, otherwise keep the character.
      Inserted text is never rescanned. An empty search string leaves the subject
      unchanged, as PHP does. */
  function ReplaceAll(s: string, pat: string, rep: string): (r: string)
    ensures pat == [] ==> r == s
    ensures pat == rep ==> r == s
    decreases |s|
  {
    if pat == [] || s == [] then s
    else if pat <= s then rep + ReplaceAll(s[|pat|..], pat, rep)
    else [s[0]] + ReplaceAll(s[1..], pat, rep)
  }

  /** `ltrim(s, mask)`: drop the longest prefix made of mask characters. */
  function LTrimSet(s: string, mask: set<char>): (r: string)
    ensures |r| <= |s| && r == s[|s| - |r|..]
    ensures forall k :: 0 <= k < |s| - |r| ==> s[k] in mask
    ensures r != [] ==> r[0] !in mask
    decreases |s|
  {
    if s != [] && s[0] in mask then LTrimSet(s[1..], mask) else s
  }

  /** `rtrim(s, mask)`: drop the longest suffix made of mask characters. */
  function RTrimSet(s: string, mask: set<char>): (r: string)
    ensures |r| <= |s| && r == s[..|r|]
    ensures forall k :: |r| <= k < |s| ==> s[k] in mask
    ensures r != [] ==> r[|r| - 1] !in mask
    decreases |s|
  {
    if s != [] && s[|s| - 1] in mask then RTrimSet(s[..|s| - 1], mask) else s
  }

  /** Both trims: the result is empty exactly when every character is in the mask. */
  lemma TrimEmptyIff(s: string, mask: set<char>)
    ensures RTrimSet(LTrimSet(s, mask), mask) == [] <==> forall k :: 0 <= k < |s| ==> s[k] in mask
  {
    var l := LTrimSet(s, mask);
    var r := RTrimSet(l, mask);
    if l != [] {
      assert s[|s| - |l|] == l[0] && l[0] !in mask;
      assert r != [];
    }
  }

  /** Both trims: a non-empty result starts and ends outside the mask. */
  lemma TrimEnds(s: string, mask: set<char>)
    ensures var r := RTrimSet(LTrimSet(s, mask), mask);
            r != [] ==> r[0] !in mask && r[|r| - 1] !in mask
  {
    var l := LTrimSet(s, mask);
    var r := RTrimSet(l, mask);
    if r != [] {
      assert r[0] == l[0];
    }
  }

  /** A string already free of mask characters at both ends is left unchanged. */
  lemma TrimIdentity(s: string, mask: set<char>)
    requires s == [] || (s[0] !in mask && s[|s| - 1] !in mask)
    ensures RTrimSet(LTrimSet(s, mask), mask) == s
  {
  }

  /** Appending mask characters does not change what `rtrim` keeps. */
  lemma {:induction false} RTrimMaskedTail(s: string, t: string, mask: set<char>)
    requires forall k :: 0 <= k < |t| ==> t[k] in mask
    ensures RTrimSet(s + t, mask) == RTrimSet(s, mask)
    decreases |t|
  {
    if t != [] {
      var u := s + t;
      assert u[|u| - 1] == t[|t| - 1];
      assert u[..|u| - 1] == s + t[..|t| - 1];
      RTrimMaskedTail(s, t[..|t| - 1], mask);
    } else {
      assert s + t == s;
    }
  }

  /** Matches in the tail of `s` are the matches in `s` shifted by one. */
  lemma ShiftMatch(s: string, pat: string, i: nat)
    requires s != []
    ensures MatchAt(s[1..], pat, i) <==> MatchAt(s, pat, i + 1)
  {
    if i + |pat| <= |s[1..]| {
      assert s[1..][i..i + |pat|] == s[i + 1..i + 1 + |pat|];
    }
  }

  /** A search string absent from `s` is absent from its tail, and `s` does
      not start with it. */
  lemma AbsentFromTail(s: string, pat: string)
    requires s != [] && !Occurs(s, pat)
    ensures !(pat <= s)
    ensures !Occurs(s[1..], pat)
  {
    assert !MatchAt(s, pat, 0);
    forall i: nat | i <= |s[1..]| ensures !MatchAt(s[1..], pat, i) {
      ShiftMatch(s, pat, i);
    }
  }

  /** A search string that does not occur is a no-op. */
  lemma {:induction false} ReplaceAllAbsent(s: string, pat: string, rep: string)
    requires !Occurs(s, pat)
    ensures ReplaceAll(s, pat, rep) == s
    decreases |s|
  {
    if pat != [] && s != [] {
      AbsentFromTail(s, pat);
      ReplaceAllAbsent(s[1..], pat, rep);
    }
  }

  /** A subject that starts with the search string starts with the replacement. */
  lemma ReplaceAllLeading(pat: string, t: string, rep: string)
    requires pat != []
    ensures ReplaceAll(pat + t, pat, rep) == rep + ReplaceAll(t, pat, rep)
  {
    assert (pat + t)[|pat|..] == t;
  }

  /** A subject without the first character of the search string is unchanged. */
  lemma {:induction false} ReplaceAllNoHead(s: string, pat: string, rep: string)
    requires pat != [] && pat[0] !in s
    ensures ReplaceAll(s, pat, rep) == s
    decreases |s|
  {
    if s != [] {
      assert s[0] != pat[0];
      ReplaceAllNoHead(s[1..], pat, rep);
    }
  }

  /** A subject whose first character is the only possible match start, and
      which does not start with the search string, is unchanged. */
  lemma ReplaceAllHeadOnly(s: string, pat: string, rep: string)
    requires pat != [] && s != [] && !(pat <= s)
    requires pat[0] !in s[1..]
    ensures ReplaceAll(s, pat, rep) == s
  {
    ReplaceAllNoHead(s[1..], pat, rep);
  }

  /** A piece `t` that starts like the search string but parts from it at its
      second character, surrounded by text without the search string's first
      character, survives a replace-all pass together with its surroundings. */
  lemma ReplaceAllKeepsMismatch(a: string, t: string, b: string, pat: string, rep: string)
    requires |pat| >= 2 && pat[0] !in pat[1..]
    requires |t| >= 2 && t[0] == pat[0] && t[1] != pat[1] && pat[0] !in t[1..]
    requires pat[0] !in a && pat[0] !in b
    ensures ReplaceAll(a + t + b, pat, rep) == a + t + b
  {
    assert a + t + b == a + (t + b);
    ReplaceAllSplit(a, t + b, pat, rep);
    ReplaceAllNoHead(a, pat, rep);
    assert (t + b)[1] == t[1];
    assert (t + b)[1..] == t[1..] + b;
    ReplaceAllHeadOnly(t + b, pat, rep);
  }

  /** A first character absent from the rest differs from every later one. */
  lemma HeadNotRepeated(pat: string)
    requires pat != [] && pat[0] !in pat[1..]
    ensures forall j :: 0 < j < |pat| ==> pat[j] != pat[0]
  {
    forall j | 0 < j < |pat| ensures pat[j] != pat[0] {
      assert pat[1..][j - 1] == pat[j];
    }
  }

  /** A match at the cut position of `a + b` lies inside `a` when `b` starts
      with the search string's unrepeated first character. */
  lemma MatchBeforeCut(a: string, b: string, pat: string)
    requires pat != [] && pat[0] !in pat[1..]
    requires a != [] && (b == [] || b[0] == pat[0])
    requires pat <= a + b
    ensures pat <= a
  {
    HeadNotRepeated(pat);
    assert b != [] ==> (a + b)[|a|] == b[0];
    assert forall i :: 0 <= i < |pat| ==> pat[i] == (a + b)[i];
    assert |pat| <= |a|;
    assert a[..|pat|] == (a + b)[..|pat|];
  }

  /** When the search string's first character occurs nowhere else in it, a
      subject may be cut before any occurrence of that character and the two
      parts processed separately: no match can straddle the cut. */
  lemma {:induction false} ReplaceAllSplit(a: string, b: string, pat: string, rep: string)
    requires pat != [] && pat[0] !in pat[1..]
    requires b == [] || b[0] == pat[0]
    ensures ReplaceAll(a + b, pat, rep) == ReplaceAll(a, pat, rep) + ReplaceAll(b, pat, rep)
    decreases |a|
  {
    if a == [] {
      assert a + b == b;
    } else if pat <= a + b {
      MatchBeforeCut(a, b, pat);
      assert (a + b)[|pat|..] == a[|pat|..] + b;
      ReplaceAllSplit(a[|pat|..], b, pat, rep);
    } else {
      assert !(pat <= a) by {
        assert |pat| <= |a| ==> (a + b)[..|pat|] == a[..|pat|];
      }
      assert (a + b)[1..] == a[1..] + b;
      ReplaceAllSplit(a[1..], b, pat, rep);
    }
  }

  /** Characters of the output that are not replacement characters are copied
      from the subject: a prefix of the output free of `rep` characters is also a
      prefix of the subject. */
  lemma {:induction false} UntouchedPrefix(u: string, pat: string, rep: string, m: nat)
    requires pat != [] && rep != []
    requires m <= |ReplaceAll(u, pat, rep)|
    requires forall k :: 0 <= k < m ==> ReplaceAll(u, pat, rep)[k] !in rep
    ensures m <= |u| && ReplaceAll(u, pat, rep)[..m] == u[..m]
    decreases |u|
  {
    if m > 0 {
      var r := ReplaceAll(u, pat, rep);
      assert u != [];
      assert r[0] !in rep;
      assert !(pat <= u);
      var t := ReplaceAll(u[1..], pat, rep);
      assert r == [u[0]] + t;
      forall k | 0 <= k < m - 1 ensures t[k] !in rep {
        assert t[k] == r[k + 1];
      }
      UntouchedPrefix(u[1..], pat, rep, m - 1);
      assert r[..m] == [u[0]] + t[..m - 1];
      assert u[..m] == [u[0]] + u[1..][..m - 1];
    }
  }

  /** If the output of a step that keeps the first character starts with `pat`,
      then so did the subject. */
  lemma KeptHeadMatch(s: string, pat: string, rep: string)
    requires pat != [] && rep != [] && s != []
    requires forall c :: c in rep ==> c !in pat
    ensures MatchAt([s[0]] + ReplaceAll(s[1..], pat, rep), pat, 0) ==> pat <= s
  {
    var t := ReplaceAll(s[1..], pat, rep);
    var r := [s[0]] + t;
    if MatchAt(r, pat, 0) {
      var m := |pat| - 1;
      forall k | 0 <= k < m ensures t[k] !in rep {
        assert t[k] == r[k + 1] == pat[k + 1];
        assert pat[k + 1] in pat;
      }
      UntouchedPrefix(s[1..], pat, rep, m);
      assert s[..|pat|] == [s[0]] + s[1..][..m];
      assert t[..m] == r[1..|pat|] == pat[1..];
      assert s[..|pat|] == pat;
    }
  }

  /** Replacing every occurrence of `pat` by a non-empty `rep` that shares no
      character with `pat` leaves no occurrence of `pat` behind: a new one can
      neither start inside an inserted `rep` nor straddle one. */
  lemma {:induction false} ReplaceAllLeavesNone(s: string, pat: string, rep: string)
    requires pat != [] && rep != []
    requires forall c :: c in rep ==> c !in pat
    ensures !Occurs(ReplaceAll(s, pat, rep), pat)
    decreases |s|
  {
    var r := ReplaceAll(s, pat, rep);
    if s != [] {
      if pat <= s {
        var t := ReplaceAll(s[|pat|..], pat, rep);
        ReplaceAllLeavesNone(s[|pat|..], pat, rep);
        assert r == rep + t;
        forall i: nat ensures !MatchAt(r, pat, i) {
          if i < |rep| {
            assert rep[i] !in pat;
            assert pat[0] in pat;
            assert i + |pat| <= |r| ==> r[i..i + |pat|][0] == rep[i];
          } else if i + |pat| <= |r| {
            assert r[i..i + |pat|] == t[i - |rep|..i - |rep| + |pat|];
            assert !MatchAt(t, pat, i - |rep|);
          }
        }
      } else {
        var t := ReplaceAll(s[1..], pat, rep);
        ReplaceAllLeavesNone(s[1..], pat, rep);
        assert r == [s[0]] + t;
        KeptHeadMatch(s, pat, rep);
        forall i: nat ensures !MatchAt(r, pat, i) {
          if i > 0 {
            ShiftMatch(r, pat, i - 1);
            assert r[1..] == t;
            assert !MatchAt(t, pat, i - 1);
          }
        }
      }
    }
  }

  /** Dropping a prefix cannot create an occurrence. */
  lemma DropKeepsAbsence(s: string, lo: nat, pat: string)
    requires lo <= |s|
    requires !Occurs(s, pat)
    ensures !Occurs(s[lo..], pat)
  {
    forall i: nat ensures !MatchAt(s[lo..], pat, i) {
      if i + |pat| <= |s| - lo {
        assert s[lo..][i..i + |pat|] == s[lo + i..lo + i + |pat|];
        assert !MatchAt(s, pat, lo + i);
      }
    }
  }

  /** Dropping a suffix cannot create an occurrence. */
  lemma TakeKeepsAbsence(s: string, hi: nat, pat: string)
    requires hi <= |s|
    requires !Occurs(s, pat)
    ensures !Occurs(s[..hi], pat)
  {
    forall i: nat ensures !MatchAt(s[..hi], pat, i) {
      if i + |pat| <= hi {
        assert s[..hi][i..i + |pat|] == s[i..i + |pat|];
        assert !MatchAt(s, pat, i);
      }
    }
  }
}
