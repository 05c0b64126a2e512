/** The activity choice field: how an activity is labelled, grouped and
    annotated when it is offered as a choice in a form. */
module ActivityForm {
  import opened Wrappers
  import opened PhpString
  import opened Entities

  const PatternName: string := "{name}"
  const PatternComment: string := "{comment}"
  const PatternSpacer: string := "{spacer}"
  const Spacer: string := " - "

  /** The characters `ltrim`/`rtrim` strip when given `Spacer` as their
      character list: a set of characters, not the three-character sequence. */
  const SpacerMask: set<char> := {' ', '-'}

  lemma SpacerMaskIsSpacerChars()
    ensures CharSet(Spacer) == SpacerMask
  {
    assert Spacer[0] == ' ' && Spacer[1] == '-';
  }

  /** The pattern the formatter settles on for a configured value: a value
      without both a `{` and a `}` (or no value at all) is replaced by the
      name-only pattern; any other value is kept verbatim, recognised tokens
      or not. */
  function EffectivePattern(configured: Option<string>): (p: string)
    ensures '{' in p && '}' in p
    ensures configured.Some? && '{' in configured.value && '}' in configured.value ==> p == configured.value
    ensures configured.None? || '{' !in configured.value || '}' !in configured.value ==> p == PatternName
  {
    if configured.None? || '{' !in configured.value || '}' !in configured.value then PatternName
    else configured.value
  }

  /** The three replace-all passes, each applied to the output of the previous
      one. A null comment is substituted as the empty string. No `{spacer}`
      survives the last pass. */
  function Substitute(pattern: string, name: string, comment: Option<string>): (s: string)
    ensures !Occurs(s, PatternSpacer)
  {
    var withName := ReplaceAll(pattern, PatternName, name);
    var withComment := ReplaceAll(withName, PatternComment, comment.GetOr(""));
    ReplaceAllLeavesNone(withComment, PatternSpacer, Spacer);
    ReplaceAll(withComment, PatternSpacer, Spacer)
  }

  /** `ltrim` then `rtrim` with the character list `Spacer`. */
  function Trim(s: string): (t: string)
    ensures t == [] <==> forall k :: 0 <= k < |s| ==> s[k] in SpacerMask
    ensures t != [] ==> t[0] !in SpacerMask && t[|t| - 1] !in SpacerMask
  {
    TrimEmptyIff(s, SpacerMask);
    TrimEnds(s, SpacerMask);
    RTrimSet(LTrimSet(s, SpacerMask), SpacerMask)
  }

  /** The label of an activity under a resolved pattern: the trimmed
      substitution, or the activity's name when trimming leaves nothing.
      Either the label is the name, or it is non-empty and has no space or
      hyphen at either end; a substitution made of spaces and hyphens only
      gives the name. */
  function Label(pattern: string, name: string, comment: Option<string>): (r: string)
    ensures r == name || (r != [] && r[0] !in SpacerMask && r[|r| - 1] !in SpacerMask)
    ensures (forall k :: 0 <= k < |Substitute(pattern, name, comment)| ==>
               Substitute(pattern, name, comment)[k] in SpacerMask) ==> r == name
  {
    var t := Trim(Substitute(pattern, name, comment));
    if t == [] || t == Spacer then name else t
  }

  /** The group heading of an activity: its project's name, none for an
      activity without project. */
  function GroupBy(activity: Activity): (g: Option<string>)
    ensures g.None? <==> activity.project.None?
    ensures activity.project.Some? ==> g == Some(activity.project.value.name)
  {
    if activity.project.None? then None else Some(activity.project.value.name)
  }

  /** A value of an HTML data attribute: the project id is an integer, the
      currency a string. */
  datatype AttrValue = IntValue(i: int) | TextValue(s: string)

  /** The HTML attributes of an activity's choice: the project id and the
      currency of the project's customer, or nothing for an activity without
      project. */
  function ChoiceAttributes(activity: Activity): (attrs: map<string, AttrValue>)
    ensures activity.project.None? ==> attrs == map[]
    ensures activity.project.Some? ==>
              attrs.Keys == {"data-project", "data-currency"} &&
              attrs["data-project"] == IntValue(activity.project.value.id) &&
              attrs["data-currency"] == TextValue(activity.project.value.customer.currency)
  {
    match activity.project
    case Some(project) =>
      map["data-project" := IntValue(project.id), "data-currency" := TextValue(project.customer.currency)]
    case None => map[]
  }

  /** The form type. `configuration` is what the configuration store answers
      for the key `activity.choice_pattern`; `pattern` is the lazily filled
      cache of the resolved pattern. */
  class ActivityType {
    const configuration: Option<string>
    var pattern: Option<string>

    /** A filled cache holds the pattern resolved from the configuration. */
    ghost predicate Valid()
      reads this
    {
      pattern.Some? ==> pattern.value == EffectivePattern(configuration)
    }

    constructor (configuration: Option<string>)
      ensures this.configuration == configuration
      ensures pattern == None
      ensures Valid()
    {
      this.configuration := configuration;
      pattern := None;
    }

    /** Resolves and caches the pattern on first use, then builds the label.
        A filled cache is never changed again. */
    method GetChoiceLabel(activity: Activity) returns (choiceLabel: string)
      requires Valid()
      modifies this
      ensures Valid()
      ensures pattern == Some(EffectivePattern(configuration))
      ensures old(pattern).Some? ==> pattern == old(pattern)
      ensures choiceLabel == Label(pattern.value, activity.name, activity.comment)
    {
      if pattern.None? {
        pattern := configuration;
        if pattern.None? || '{' !in pattern.value || '}' !in pattern.value {
          pattern := Some(PatternName);
        }
      }
      var name := pattern.value;
      name := ReplaceAll(name, PatternName, activity.name);
      name := ReplaceAll(name, PatternComment, activity.comment.GetOr(""));
      name := ReplaceAll(name, PatternSpacer, Spacer);
      assert name == Substitute(pattern.value, activity.name, activity.comment);
      name := LTrimSet(name, SpacerMask);
      name := RTrimSet(name, SpacerMask);
      assert name == Trim(Substitute(pattern.value, activity.name, activity.comment));
      if name == [] || name == Spacer {
        name := activity.name;
      }
      choiceLabel := name;
    }
  }

  /** Two calls on one formatter with the same activity give the same label. */
  method LabelTwice(formatter: ActivityType, activity: Activity) returns (first: string, second: string)
    requires formatter.Valid()
    modifies formatter
    ensures formatter.Valid()
    ensures first == second
  {
    first := formatter.GetChoiceLabel(activity);
    second := formatter.GetChoiceLabel(activity);
  }
}
