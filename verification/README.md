# Activity choice field of the Kimai time tracker

This project models the activity form field type of Kimai (`ActivityType`).
The field lists activities as choices. Each choice gets a label, a group
heading and a few HTML data attributes.

- **Label formatter.** It reads the configured pattern
  (`activity.choice_pattern`) once and caches it in the instance field
  `pattern`.
  - A missing pattern falls back to `{name}`, and so does a pattern without
    both a `{` and a `}`.
  - The label is built in three chained replace-all passes: `{name}`, then
    `{comment}`, then `{spacer}`, which becomes `" - "`.
  - The result is trimmed with `ltrim` and `rtrim`. Their character list
    `" - "` stands for the *set* {space, hyphen}.
  - If the trimmed result is empty (or `" - "`), the label is the raw
    activity name.
- **`groupBy`.** Activities are grouped under their project's name (no group
  for an activity without a project).
- **`getChoiceAttributes`.** Each activity carries its project id and the
  currency of the project's customer (no attributes for an activity without
  a project).

## Files

- `Wrappers.dfy`: the `Option` type. PHP's `null` is `None`.
- `Entities.dfy`: the read-only parts of `Activity`, `Project` and `Customer`
  that the field type uses.
- `PhpString.dfy`: models of the PHP built-ins `str_replace` (one search
  string), `ltrim` and `rtrim` (character mask), with lemmas about them.
- `ActivityType.dfy`: the form type.
  - the class `ActivityType`, with its configuration and its pattern cache
  - the imperative `GetChoiceLabel`, proved against the pure `Label`
  - `GroupBy` and `ChoiceAttributes`
- `ActivityTypeLemmas.dfy`: properties of the formatter and the callbacks.

The configuration store is a value fixed when the object is built. It is the
answer `SystemConfiguration::find('activity.choice_pattern')` would give.

`str_replace` is modelled as a left-to-right scan. Where the search string
starts, it emits the replacement and continues after the match. Replaced
text is never rescanned. An empty search string leaves the subject unchanged.

## Model

| member | source | states |
|---|---|---|
| ActivityForm.SpacerMaskIsSpacerChars | src/Form/Type/ActivityType.php:29 | the characters `ltrim`/`rtrim` strip with the list `" - "` are exactly space and hyphen |
| PhpString.CharSet | src/Form/Type/ActivityType.php:54-55 | a trim character list denotes the set of its characters |
| PhpString.ReplaceAll | src/Form/Type/ActivityType.php:50-52 | `str_replace` with an empty search string, or with a search string equal to the replacement, returns the subject unchanged |
| PhpString.LTrimSet | src/Form/Type/ActivityType.php:54 | `ltrim` keeps a suffix of its input; every dropped character is in the mask; a non-empty result starts outside the mask |
| PhpString.RTrimSet | src/Form/Type/ActivityType.php:55 | `rtrim` keeps a prefix of its input; every dropped character is in the mask; a non-empty result ends outside the mask |
| PhpString.TrimEmptyIff | src/Form/Type/ActivityType.php:54-55 | trimming both ends leaves nothing exactly when every character is in the mask |
| PhpString.TrimEnds | src/Form/Type/ActivityType.php:54-55 | a non-empty result of both trims starts and ends outside the mask |
| PhpString.TrimIdentity | src/Form/Type/ActivityType.php:54-55 | a string whose ends are outside the mask is not changed by the trims |
| PhpString.RTrimMaskedTail | src/Form/Type/ActivityType.php:55 | appending mask characters does not change what `rtrim` keeps |
| PhpString.ShiftMatch | src/Form/Type/ActivityType.php:50-52 | matches in the tail of a string are its matches shifted by one |
| PhpString.AbsentFromTail | src/Form/Type/ActivityType.php:50-52 | a search string absent from a string is absent from its tail and not a prefix of it |
| PhpString.ReplaceAllAbsent | src/Form/Type/ActivityType.php:50-52 | replacing a search string that does not occur changes nothing |
| PhpString.ReplaceAllLeading | src/Form/Type/ActivityType.php:50-52 | a subject starting with the search string starts with the replacement, and the rest is processed on its own |
| PhpString.ReplaceAllNoHead | src/Form/Type/ActivityType.php:50-52 | a subject without the search string's first character is unchanged |
| PhpString.ReplaceAllHeadOnly | src/Form/Type/ActivityType.php:50-52 | a subject that does not start with the search string, and holds its first character only at the front, is unchanged |
| PhpString.ReplaceAllKeepsMismatch | src/Form/Type/ActivityType.php:50-52 | a piece that parts from the search string at its second character survives a pass along with text around it that lacks the first character |
| PhpString.HeadNotRepeated | src/Form/Type/ActivityType.php:50-52 | a first character absent from the rest differs from each later one |
| PhpString.MatchBeforeCut | src/Form/Type/ActivityType.php:50-52 | a match at the front of `a + b`, where `b` starts with the unrepeated first character, lies inside `a` |
| PhpString.ReplaceAllSplit | src/Form/Type/ActivityType.php:50-52 | a pass may be applied separately to the parts of a subject cut before the search string's unrepeated first character |
| PhpString.UntouchedPrefix | src/Form/Type/ActivityType.php:50-52 | a prefix of the output free of replacement characters is the same prefix of the subject |
| PhpString.KeptHeadMatch | src/Form/Type/ActivityType.php:50-52 | when the first character is kept and the output starts with the search string, so did the subject |
| PhpString.ReplaceAllLeavesNone | src/Form/Type/ActivityType.php:50-52 | with a non-empty replacement that shares no character with the search string, no occurrence of the search string is left |
| PhpString.DropKeepsAbsence | src/Form/Type/ActivityType.php:54 | dropping a prefix cannot create an occurrence |
| PhpString.TakeKeepsAbsence | src/Form/Type/ActivityType.php:55 | keeping a prefix cannot create an occurrence |
| ActivityForm.EffectivePattern | src/Form/Type/ActivityType.php:42-46 | a missing pattern, or one without a `{` or without a `}`, resolves to `{name}`; any other is kept verbatim; the result always holds both braces |
| ActivityForm.Substitute | src/Form/Type/ActivityType.php:49-52 | after the three chained passes no `{spacer}` remains |
| ActivityForm.Trim | src/Form/Type/ActivityType.php:54-55 | the trimmed string is empty exactly when the input is all spaces and hyphens; otherwise it starts and ends with neither |
| ActivityForm.Label | src/Form/Type/ActivityType.php:49-61 | the label is the activity name, or is non-empty without a space or hyphen at either end; a substitution of spaces and hyphens only gives the name |
| ActivityForm.GroupBy | src/Form/Type/ActivityType.php:67-74 | no group exactly when the activity has no project; otherwise the project's name |
| ActivityForm.ChoiceAttributes | src/Form/Type/ActivityType.php:82-89 | no attributes without a project; otherwise exactly `data-project` (the project id) and `data-currency` (the customer's currency) |
| ActivityForm.ActivityType.constructor | src/Form/Type/ActivityType.php:31-37 | a new formatter keeps its configuration and has an empty cache |
| ActivityForm.ActivityType.GetChoiceLabel | src/Form/Type/ActivityType.php:39-62 | fills the cache with the resolved pattern, never changes a filled cache, and returns `Label` of the cached pattern, the name and the comment |
| ActivityForm.LabelTwice | src/Form/Type/ActivityType.php:41-47 | two calls on one formatter with the same activity return the same label |
| ActivityFormLemmas.EffectivePatternIdempotent | src/Form/Type/ActivityType.php:44-46 | resolving a resolved pattern changes nothing |
| ActivityFormLemmas.StaticPatternFallsBack | src/Form/Type/ActivityType.php:44-46 | `static` and a missing value fall back to `{name}`; `{foo}` is kept verbatim |
| ActivityFormLemmas.TrimNeverSpacer | src/Form/Type/ActivityType.php:54-57 | a trimmed string is never `" - "`, so that half of the fallback test cannot fire |
| ActivityFormLemmas.FallbackExactly | src/Form/Type/ActivityType.php:54-59 | the label is the raw name when the substitution is all spaces and hyphens, and the trimmed substitution otherwise |
| ActivityFormLemmas.LabelHasNoSpacerToken | src/Form/Type/ActivityType.php:52-61 | a label that is not the fallback name holds no `{spacer}` |
| ActivityFormLemmas.LabelOfCleanSubstitution | src/Form/Type/ActivityType.php:54-61 | a substitution with clean ends is the label |
| ActivityFormLemmas.LabelOfTrailingMask | src/Form/Type/ActivityType.php:54-61 | trailing spaces and hyphens are cut from a substitution with a clean core |
| ActivityFormLemmas.TokensStartAlone | src/Form/Type/ActivityType.php:26-28 | each token starts with `{` and has no other `{` |
| ActivityFormLemmas.OtherTokenKept | src/Form/Type/ActivityType.php:50-52 | a pass for one token leaves another token unchanged |
| ActivityFormLemmas.OwnTokenReplaced | src/Form/Type/ActivityType.php:50-52 | a pass turns its own token, standing alone, into the value |
| ActivityFormLemmas.PassOverOwnToken | src/Form/Type/ActivityType.php:50-52 | a pass rewrites its own token between brace-free text and nothing else |
| ActivityFormLemmas.PassOverOtherToken | src/Form/Type/ActivityType.php:50-52 | a pass leaves another token between brace-free text unchanged |
| ActivityFormLemmas.PassAroundToken | src/Form/Type/ActivityType.php:50-52 | the two cases above in one statement |
| ActivityFormLemmas.NamePassOnJoinPattern | src/Form/Type/ActivityType.php:50 | the name pass over `{name}{spacer}{comment}` puts the name in front of the other two tokens |
| ActivityFormLemmas.CommentPassOnJoinPattern | src/Form/Type/ActivityType.php:51 | the comment pass then replaces just the comment token |
| ActivityFormLemmas.NameSpacerComment | src/Form/Type/ActivityType.php:49-52 | `{name}{spacer}{comment}` with brace-free values substitutes to name, `" - "`, comment |
| ActivityFormLemmas.JoinedLabel | src/Form/Type/ActivityType.php:49-61 | with clean outer ends the label is name, `" - "`, comment |
| ActivityFormLemmas.JoinedLabelWithoutComment | src/Form/Type/ActivityType.php:49-61 | with a null or empty comment the trailing spacer is trimmed and the name is the label |
| ActivityFormLemmas.CodingBugfix | src/Form/Type/ActivityType.php:49-61 | `Coding` and `bugfix` give `Coding - bugfix` |
| ActivityFormLemmas.CodingWithoutComment | src/Form/Type/ActivityType.php:49-61 | `Coding` with a null or empty comment gives `Coding` |
| ActivityFormLemmas.SpacerOnlyPattern | src/Form/Type/ActivityType.php:52-59 | the pattern `{spacer}` always falls back to the name |
| ActivityFormLemmas.NamePatternGivesName | src/Form/Type/ActivityType.php:49-61 | under `{name}`, a name without the other tokens and with clean ends is the label |
| ActivityFormLemmas.NamePatternIff | src/Form/Type/ActivityType.php:49-61 | under `{name}`, a name without `{` is the label exactly when it is all spaces and hyphens or has neither at either end |
| ActivityFormLemmas.NamePatternTrimsName | src/Form/Type/ActivityType.php:54-55 | under `{name}`, the name `Coding-` is shown as `Coding` |
| ActivityFormLemmas.SpacerInNameIsExpanded | src/Form/Type/ActivityType.php:50-52 | a `{spacer}` inside a name is expanded by the later spacer pass |
| ActivityFormLemmas.CommentInNameIsExpanded | src/Form/Type/ActivityType.php:50-52 | a `{comment}` inside a name is replaced by the comment in the later comment pass |
| ActivityFormLemmas.OwnTokenGone | src/Form/Type/ActivityType.php:50-52 | a pass leaves none of its own token when the value is non-empty and shares no character with it |
| ActivityFormLemmas.NamePassRebuildsToken | src/Form/Type/ActivityType.php:50 | the name pass of `{{name}me}` with the name `na` yields `{name}` |
| ActivityFormLemmas.NameTokenCanReappear | src/Form/Type/ActivityType.php:49-61 | a name without `{name}` can still leave `{name}` in the label |
| ActivityFormLemmas.GroupAndAttributesAgree | src/Form/Type/ActivityType.php:67-89 | an activity has no group exactly when it has no attributes |
| ActivityFormLemmas.SameProjectSameGroup | src/Form/Type/ActivityType.php:67-89 | activities of one project share their group and their attributes |

### Behaviour that is easy to misread

- **The name-only pattern.** One might expect the pattern `{name}` to return
  the activity name verbatim; it does not. The trim at lines 54-55 applies to
  the substituted name as well, so `Coding-` is shown as `Coding`
  (`NamePatternTrimsName`). `NamePatternGivesName` states sufficient
  conditions for the name to come back unchanged, and `NamePatternIff` gives
  the exact ones for a name without `{`: it is all spaces and hyphens (the
  fallback returns it), or neither end is a space or hyphen.
- **Leftover tokens.** Avoiding the token in the inserted value is not enough
  for the `{name}` and `{comment}` passes to leave none of their own token.
  The replaced value can join with the text around it and form the token
  again: `{{name}me}` with the name `na` yields `{name}`
  (`NameTokenCanReappear`). What does hold is `OwnTokenGone`: the value must
  be non-empty and share no character with the token. The spacer pass meets
  that condition, so no `{spacer}` ever survives (`Substitute`).
- **The `" - "` fallback test.** It is dead code. A string trimmed of spaces
  and hyphens cannot be `" - "` (`TrimNeverSpacer`).

## Left out

- `configureOptions` (src/Form/Type/ActivityType.php:94-131): wiring for
  Symfony's options resolver. Its query-builder closure forwards options to
  `ActivityFormTypeQuery` and `ActivityRepository`. Neither is part of this
  model, and they build Doctrine queries.
- The `documentation` metadata (lines 97-101) and `getParent` (lines 136-139):
  framework glue with no behaviour of their own.
- `SystemConfiguration::find`: an external lookup. It is the constant
  `configuration`, supplied at construction.
  - One property is therefore out of reach. A configuration change after the
    first call would be ignored, because the cache is never refilled, but the
    model cannot express the change.
  - What is shown is that a filled cache never changes.
- Persistence and lifecycle of the Doctrine entities. Only the fields read
  here are modelled. `getName`, `getId` and the customer are taken as
  present.
- The case-insensitive `stripos` in the brace test. Braces have no case, so a
  plain membership test is exact.
- PHP byte strings. Strings are sequences of characters. Multi-byte
  characters and the `..` range syntax of trim character lists are not
  modelled; the list `" - "` contains no range.
- The attribute array mixes an integer and a string value. It is modelled as
  a map to a two-case value type (`AttrValue`), not as an untyped PHP array.
