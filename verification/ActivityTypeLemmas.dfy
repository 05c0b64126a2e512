/** Properties of the activity label formatter and of the grouping and
    attribute callbacks. */
module ActivityFormLemmas {
  import opened Wrappers
  import opened PhpString
  import opened Entities
  import opened ActivityForm

  // ---------------------------------------------------------------------
  // Pattern resolution

  /** Resolving an already resolved pattern changes nothing, so the cache
      could be refilled from itself without effect. */
  lemma EffectivePatternIdempotent(configured: Option<string>)
    ensures EffectivePattern(Some(EffectivePattern(configured))) == EffectivePattern(configured)
  {
  }

  /** A configured value without any brace, and a missing value, fall back to
      the name-only pattern; a braced value is kept even without a known token. */
  lemma StaticPatternFallsBack()
    ensures EffectivePattern(Some("static")) == PatternName
    ensures EffectivePattern(None) == PatternName
    ensures EffectivePattern(Some("{foo}")) == "{foo}"
  {
    assert '{' !in "static";
  }

  // ---------------------------------------------------------------------
  // Trimming and the fallback

  /** The `=== ' - '` test in the fallback condition can never succeed:
      trimming spaces and hyphens cannot leave a string that starts with a space. */
  lemma TrimNeverSpacer(s: string)
    ensures Trim(s) != Spacer
  {
    assert Spacer[0] in SpacerMask;
  }

  /** The label falls back to the raw name exactly when the substituted
      pattern consists of spaces and hyphens only; otherwise it is the trimmed
      substitution. */
  lemma FallbackExactly(pattern: string, name: string, comment: Option<string>)
    ensures var s := Substitute(pattern, name, comment);
            ((forall k :: 0 <= k < |s| ==> s[k] in SpacerMask) ==> Label(pattern, name, comment) == name) &&
            (!(forall k :: 0 <= k < |s| ==> s[k] in SpacerMask) ==> Label(pattern, name, comment) == Trim(s))
  {
    TrimNeverSpacer(Substitute(pattern, name, comment));
  }

  /** Unless it falls back to the name, a label holds no `{spacer}`: it is a
      block of the substitution, which holds none. */
  lemma LabelHasNoSpacerToken(pattern: string, name: string, comment: Option<string>)
    ensures Label(pattern, name, comment) == name || !Occurs(Label(pattern, name, comment), PatternSpacer)
  {
    var s := Substitute(pattern, name, comment);
    var l := LTrimSet(s, SpacerMask);
    DropKeepsAbsence(s, |s| - |l|, PatternSpacer);
    TakeKeepsAbsence(l, |Trim(s)|, PatternSpacer);
  }

  /** A substitution with no space or hyphen at its ends is the label. */
  lemma LabelOfCleanSubstitution(pattern: string, name: string, comment: Option<string>, s: string)
    requires Substitute(pattern, name, comment) == s
    requires s != [] && s[0] !in SpacerMask && s[|s| - 1] !in SpacerMask
    ensures Label(pattern, name, comment) == s
  {
    TrimIdentity(s, SpacerMask);
    TrimNeverSpacer(s);
  }

  /** A substitution that ends in spaces and hyphens loses them. */
  lemma LabelOfTrailingMask(pattern: string, name: string, comment: Option<string>, core: string, tail: string)
    requires Substitute(pattern, name, comment) == core + tail
    requires core != [] && core[0] !in SpacerMask && core[|core| - 1] !in SpacerMask
    requires forall k :: 0 <= k < |tail| ==> tail[k] in SpacerMask
    ensures Label(pattern, name, comment) == core
  {
    var s := core + tail;
    assert s[0] == core[0];
    assert LTrimSet(s, SpacerMask) == s;
    RTrimMaskedTail(core, tail, SpacerMask);
    TrimIdentity(core, SpacerMask);
    assert Trim(s) == core;
  }

  // ---------------------------------------------------------------------
  // The replace-all passes, piece by piece

  /** Each token starts with `{` and has no other `{`, so a replace-all pass
      may be applied piecewise to text cut before a token. */
  lemma TokensStartAlone()
    ensures PatternName[0] == '{' && '{' !in PatternName[1..]
    ensures PatternComment[0] == '{' && '{' !in PatternComment[1..]
    ensures PatternSpacer[0] == '{' && '{' !in PatternSpacer[1..]
  {
  }

  /** A pass for one token leaves another token alone. */
  lemma OtherTokenKept(token: string, pat: string, rep: string)
    requires token in {PatternName, PatternComment, PatternSpacer}
    requires pat in {PatternName, PatternComment, PatternSpacer}
    requires token != pat
    ensures ReplaceAll(token, pat, rep) == token
  {
    TokensStartAlone();
    assert pat[1] != token[1];
    ReplaceAllHeadOnly(token, pat, rep);
  }

  /** A pass replaces a token standing alone by its value. */
  lemma OwnTokenReplaced(pat: string, rep: string)
    requires pat != []
    ensures ReplaceAll(pat, pat, rep) == rep
  {
    assert pat + [] == pat;
    ReplaceAllLeading(pat, [], rep);
  }

  /** A pass over its own token surrounded by brace-free text rewrites just
      that token. */
  lemma PassOverOwnToken(a: string, b: string, pat: string, rep: string)
    requires '{' !in a && '{' !in b
    requires pat in {PatternName, PatternComment, PatternSpacer}
    ensures ReplaceAll(a + pat + b, pat, rep) == a + rep + b
  {
    TokensStartAlone();
    assert a + pat + b == a + (pat + b);
    ReplaceAllSplit(a, pat + b, pat, rep);
    ReplaceAllNoHead(a, pat, rep);
    ReplaceAllLeading(pat, b, rep);
    ReplaceAllNoHead(b, pat, rep);
  }

  /** A pass over another token surrounded by brace-free text changes
      nothing. */
  lemma PassOverOtherToken(a: string, token: string, b: string, pat: string, rep: string)
    requires '{' !in a && '{' !in b
    requires token in {PatternName, PatternComment, PatternSpacer}
    requires pat in {PatternName, PatternComment, PatternSpacer}
    requires token != pat
    ensures ReplaceAll(a + token + b, pat, rep) == a + token + b
  {
    TokensStartAlone();
    assert pat[1] != token[1];
    ReplaceAllKeepsMismatch(a, token, b, pat, rep);
  }

  /** A pass over one token surrounded by brace-free text rewrites that token
      if it is the pass's own and leaves everything else as it is. */
  lemma PassAroundToken(a: string, token: string, b: string, pat: string, rep: string)
    requires '{' !in a && '{' !in b
    requires token in {PatternName, PatternComment, PatternSpacer}
    requires pat in {PatternName, PatternComment, PatternSpacer}
    ensures ReplaceAll(a + token + b, pat, rep) == a + (if token == pat then rep else token) + b
  {
    if token == pat {
      PassOverOwnToken(a, b, pat, rep);
    } else {
      PassOverOtherToken(a, token, b, pat, rep);
    }
  }

  /** The substitution, given the outcome of each of its three passes. */
  lemma SubstituteByPasses(pattern: string, name: string, comment: Option<string>, w1: string, w2: string, w3: string)
    requires ReplaceAll(pattern, PatternName, name) == w1
    requires ReplaceAll(w1, PatternComment, comment.GetOr("")) == w2
    requires ReplaceAll(w2, PatternSpacer, Spacer) == w3
    ensures Substitute(pattern, name, comment) == w3
  {
  }

  // ---------------------------------------------------------------------
  // The pattern `{name}{spacer}{comment}`

  /** The name pass over `{name}{spacer}{comment}`. */
  lemma NamePassOnJoinPattern(name: string)
    ensures ReplaceAll(PatternName + PatternSpacer + PatternComment, PatternName, name)
            == name + PatternSpacer + PatternComment
  {
    var n, sp, cm := PatternName, PatternSpacer, PatternComment;
    TokensStartAlone();
    ReplaceAllSplit(n + sp, cm, n, name);
    ReplaceAllSplit(n, sp, n, name);
    OwnTokenReplaced(n, name);
    OtherTokenKept(sp, n, name);
    OtherTokenKept(cm, n, name);
  }

  /** The comment pass after the name pass. */
  lemma CommentPassOnJoinPattern(name: string, comment: string)
    requires '{' !in name
    ensures ReplaceAll(name + PatternSpacer + PatternComment, PatternComment, comment)
            == name + PatternSpacer + comment
  {
    var sp, cm := PatternSpacer, PatternComment;
    TokensStartAlone();
    ReplaceAllSplit(name + sp, cm, cm, comment);
    ReplaceAllSplit(name, sp, cm, comment);
    ReplaceAllNoHead(name, cm, comment);
    OtherTokenKept(sp, cm, comment);
    OwnTokenReplaced(cm, comment);
  }

  /** With the pattern `{name}{spacer}{comment}` and a name and comment free of
      `{`, the substitution is the name, the spacer and the comment, in that
      order. */
  lemma NameSpacerComment(pattern: string, name: string, comment: Option<string>)
    requires pattern == PatternName + PatternSpacer + PatternComment
    requires '{' !in name && '{' !in comment.GetOr("")
    ensures Substitute(pattern, name, comment) == name + Spacer + comment.GetOr("")
  {
    var c := comment.GetOr("");
    NamePassOnJoinPattern(name);
    CommentPassOnJoinPattern(name, c);
    PassAroundToken(name, PatternSpacer, c, PatternSpacer, Spacer);
    SubstituteByPasses(pattern, name, comment,
                       name + PatternSpacer + PatternComment, name + PatternSpacer + c, name + Spacer + c);
  }

  /** With the pattern `{name}{spacer}{comment}`, a name and a comment that are
      free of `{` and have no space or hyphen at their outer ends are joined by
      the spacer. */
  lemma JoinedLabel(pattern: string, name: string, comment: string)
    requires pattern == PatternName + PatternSpacer + PatternComment
    requires '{' !in name && '{' !in comment
    requires name != [] && name[0] !in SpacerMask
    requires comment != [] && comment[|comment| - 1] !in SpacerMask
    ensures Label(pattern, name, Some(comment)) == name + Spacer + comment
  {
    NameSpacerComment(pattern, name, Some(comment));
    LabelOfCleanSubstitution(pattern, name, Some(comment), name + Spacer + comment);
  }

  /** With the pattern `{name}{spacer}{comment}` and a null or empty comment,
      the trailing spacer is trimmed and the name alone remains. */
  lemma JoinedLabelWithoutComment(pattern: string, name: string, comment: Option<string>)
    requires pattern == PatternName + PatternSpacer + PatternComment
    requires comment.GetOr("") == ""
    requires '{' !in name
    requires name != [] && name[0] !in SpacerMask && name[|name| - 1] !in SpacerMask
    ensures Label(pattern, name, comment) == name
  {
    NameSpacerComment(pattern, name, comment);
    assert name + Spacer + comment.GetOr("") == name + Spacer;
    LabelOfTrailingMask(pattern, name, comment, name, Spacer);
  }

  /** `Coding` and `bugfix` give `Coding - bugfix`. */
  lemma CodingBugfix(pattern: string, name: string, comment: string)
    requires pattern == "{name}{spacer}{comment}" && name == "Coding" && comment == "bugfix"
    ensures Label(pattern, name, Some(comment)) == "Coding - bugfix"
  {
    assert name + Spacer + comment == "Coding - bugfix";
    assert pattern == PatternName + PatternSpacer + PatternComment;
    JoinedLabel(pattern, name, comment);
  }

  /** `Coding` without a comment, or with an empty one, gives `Coding`. */
  lemma CodingWithoutComment(pattern: string, name: string, comment: Option<string>)
    requires pattern == "{name}{spacer}{comment}" && name == "Coding"
    requires comment == None || comment == Some("")
    ensures Label(pattern, name, comment) == "Coding"
  {
    assert pattern == PatternName + PatternSpacer + PatternComment;
    JoinedLabelWithoutComment(pattern, name, comment);
  }

  // ---------------------------------------------------------------------
  // Other patterns

  /** A pattern that is only the spacer always falls back to the name. */
  lemma SpacerOnlyPattern(name: string, comment: Option<string>)
    ensures Label(PatternSpacer, name, comment) == name
  {
    OtherTokenKept(PatternSpacer, PatternName, name);
    OtherTokenKept(PatternSpacer, PatternComment, comment.GetOr(""));
    OwnTokenReplaced(PatternSpacer, Spacer);
    SubstituteByPasses(PatternSpacer, name, comment, PatternSpacer, PatternSpacer, Spacer);
    assert forall k :: 0 <= k < |Spacer| ==> Spacer[k] in SpacerMask;
    FallbackExactly(PatternSpacer, name, comment);
  }

  /** Under the name-only pattern the label is the name, provided the name holds
      no `{comment}` or `{spacer}` token and does not start or end with a space
      or hyphen. */
  lemma NamePatternGivesName(name: string, comment: Option<string>)
    requires !Occurs(name, PatternComment) && !Occurs(name, PatternSpacer)
    requires name == [] || (name[0] !in SpacerMask && name[|name| - 1] !in SpacerMask)
    ensures Label(PatternName, name, comment) == name
  {
    OwnTokenReplaced(PatternName, name);
    ReplaceAllAbsent(name, PatternComment, comment.GetOr(""));
    ReplaceAllAbsent(name, PatternSpacer, Spacer);
    SubstituteByPasses(PatternName, name, comment, name, name, name);
    if name != [] {
      LabelOfCleanSubstitution(PatternName, name, comment, name);
    }
  }

  /** Under the name-only pattern, a name without `{` comes back unchanged
      exactly when it is made of spaces and hyphens only (the fallback returns
      it) or has no space or hyphen at either end (the trims keep it). */
  lemma NamePatternIff(name: string, comment: Option<string>)
    requires '{' !in name
    ensures Label(PatternName, name, comment) == name <==>
            (forall k :: 0 <= k < |name| ==> name[k] in SpacerMask) ||
            (name[0] !in SpacerMask && name[|name| - 1] !in SpacerMask)
  {
    OwnTokenReplaced(PatternName, name);
    ReplaceAllNoHead(name, PatternComment, comment.GetOr(""));
    ReplaceAllNoHead(name, PatternSpacer, Spacer);
    SubstituteByPasses(PatternName, name, comment, name, name, name);
    FallbackExactly(PatternName, name, comment);
    if name != [] && name[0] !in SpacerMask && name[|name| - 1] !in SpacerMask {
      TrimIdentity(name, SpacerMask);
    }
  }

  /** The name-only pattern does not always give the name back: a trailing
      hyphen is trimmed, so `Coding-` is shown as `Coding`. */
  lemma NamePatternTrimsName(name: string)
    requires name == "Coding-"
    ensures Label(PatternName, name, None) == "Coding"
  {
    OwnTokenReplaced(PatternName, name);
    ReplaceAllNoHead(name, PatternComment, "");
    ReplaceAllNoHead(name, PatternSpacer, Spacer);
    SubstituteByPasses(PatternName, name, None, name, name, name);
    assert name == "Coding" + "-";
    LabelOfTrailingMask(PatternName, name, None, "Coding", "-");
  }

  /** The passes are chained: a `{spacer}` written inside a name is expanded by
      the later spacer pass. */
  lemma SpacerInNameIsExpanded(a: string, b: string)
    requires '{' !in a && '{' !in b
    requires a != [] && a[0] !in SpacerMask
    requires b != [] && b[|b| - 1] !in SpacerMask
    ensures Label(PatternName, a + PatternSpacer + b, None) == a + Spacer + b
  {
    var name := a + PatternSpacer + b;
    OwnTokenReplaced(PatternName, name);
    PassAroundToken(a, PatternSpacer, b, PatternComment, "");
    PassAroundToken(a, PatternSpacer, b, PatternSpacer, Spacer);
    SubstituteByPasses(PatternName, name, None, name, name, a + Spacer + b);
    LabelOfCleanSubstitution(PatternName, name, None, a + Spacer + b);
  }

  /** A pass leaves none of its own token behind when the inserted value is
      non-empty and shares no character with the token; the spacer pass is
      one such pass. */
  lemma OwnTokenGone(s: string, token: string, value: string)
    requires token in {PatternName, PatternComment, PatternSpacer}
    requires value != [] && forall c :: c in value ==> c !in token
    ensures !Occurs(ReplaceAll(s, token, value), token)
  {
    ReplaceAllLeavesNone(s, token, value);
  }

  /** The passes are chained: a `{comment}` written inside a name is replaced
      by the comment in the later comment pass. */
  lemma CommentInNameIsExpanded(a: string, b: string, c: string)
    requires '{' !in a && '{' !in b && '{' !in c
    requires a != [] && a[0] !in SpacerMask
    requires b != [] && b[|b| - 1] !in SpacerMask
    ensures Label(PatternName, a + PatternComment + b, Some(c)) == a + c + b
  {
    var name := a + PatternComment + b;
    OwnTokenReplaced(PatternName, name);
    PassAroundToken(a, PatternComment, b, PatternComment, c);
    ReplaceAllNoHead(a + c + b, PatternSpacer, Spacer);
    SubstituteByPasses(PatternName, name, Some(c), name, a + c + b, a + c + b);
    assert (a + c + b)[0] == a[0];
    assert (a + c + b)[|a + c + b| - 1] == b[|b| - 1];
    LabelOfCleanSubstitution(PatternName, name, Some(c), a + c + b);
  }

  /** The name pass of `{{name}me}` with the name `na` rebuilds `{name}` from
      the text around the replaced token. */
  lemma NamePassRebuildsToken(pattern: string, name: string)
    requires pattern == "{{name}me}" && name == "na"
    ensures ReplaceAll(pattern, PatternName, name) == PatternName
  {
    var n := PatternName;
    var head, tail := pattern[..1], pattern[7..];
    assert head == "{" && tail == "me}";
    assert head + name + tail == n;
    assert pattern == head + (n + tail);
    TokensStartAlone();
    ReplaceAllSplit(head, n + tail, n, name);
    ReplaceAllHeadOnly(head, n, name);
    ReplaceAllLeading(n, tail, name);
    ReplaceAllNoHead(tail, n, name);
  }

  /** A replacement value that does not itself contain `{name}` can still leave
      a `{name}` behind, by joining the text around it: with the pattern
      `{{name}me}` and the name `na` the label is `{name}`. */
  lemma NameTokenCanReappear(pattern: string, name: string)
    requires pattern == "{{name}me}" && name == "na"
    ensures !Occurs(name, PatternName)
    ensures Label(pattern, name, None) == PatternName
  {
    NamePassRebuildsToken(pattern, name);
    OtherTokenKept(PatternName, PatternComment, "");
    OtherTokenKept(PatternName, PatternSpacer, Spacer);
    SubstituteByPasses(pattern, name, None, PatternName, PatternName, PatternName);
    LabelOfCleanSubstitution(pattern, name, None, PatternName);
  }

  // ---------------------------------------------------------------------
  // Grouping and attributes

  /** Grouping and attributes agree on which activities belong to a project. */
  lemma GroupAndAttributesAgree(activity: Activity)
    ensures GroupBy(activity).None? <==> ChoiceAttributes(activity) == map[]
  {
    if activity.project.Some? {
      assert "data-project" in ChoiceAttributes(activity);
    }
  }

  /** Activities of one project share their group and their attributes. */
  lemma SameProjectSameGroup(a: Activity, b: Activity)
    requires a.project.Some? && a.project == b.project
    ensures GroupBy(a) == GroupBy(b) == Some(a.project.value.name)
    ensures ChoiceAttributes(a) == ChoiceAttributes(b)
  {
  }
}
