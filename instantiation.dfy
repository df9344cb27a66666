/** Turning a selected member into a shift: `createShiftForStaff` and
    `getDefaultTemplateForStaff` (lib/data.ts). */
module Instantiation {
  import opened Calendar
  import opened Seqs
  import opened Domain
  import opened Availability

  /** The template-name fragments the default choice looks for. */
  const FullTimeName := "フルタイム"
  const EarlyName := "早番"

  /** `s.includes(sub)` */
  predicate Contains(s: string, sub: string) {
    (|sub| <= |s| && s[..|sub|] == sub) || (s != [] && Contains(s[1..], sub))
  }

  predicate NameContains(t: ShiftTemplate, sub: string) { Contains(t.name, sub) }

  predicate NameContainsEither(t: ShiftTemplate, subs: (string, string)) {
    Contains(t.name, subs.0) || Contains(t.name, subs.1)
  }

  predicate IdListed(t: ShiftTemplate, ids: seq<string>) { t.id in ids }

  /** t is the first element of s that satisfies p(_, a). */
  predicate FirstMatch<A>(s: seq<ShiftTemplate>, p: (ShiftTemplate, A) -> bool, a: A, t: ShiftTemplate) {
    exists i :: 0 <= i < |s| && s[i] == t && p(t, a) && forall j :: 0 <= j < i ==> !p(s[j], a)
  }

  /** Positions that prefer an early or full-day template on weekdays. */
  predicate LeadsFloor(m: Staff) { m.position == Stylist || m.position == Manager }

  /** `getDefaultTemplateForStaff`. On a weekend the first full-day template,
      on a weekday for a stylist or manager the first early or full-day
      template, and in every other case (or when no template matches) the
      first template of the registry. */
  function DefaultTemplate(m: Staff, templates: seq<ShiftTemplate>, d: Day): (r: Option<ShiftTemplate>)
    ensures r.Some? <==> templates != []
    ensures r.Some? ==> r.value in templates
    ensures IsWeekend(Weekday(d)) && (exists t :: t in templates && NameContains(t, FullTimeName))
      ==> r.Some? && FirstMatch(templates, NameContains, FullTimeName, r.value)
    ensures !IsWeekend(Weekday(d)) && LeadsFloor(m) && (exists t :: t in templates && NameContainsEither(t, (EarlyName, FullTimeName)))
      ==> r.Some? && FirstMatch(templates, NameContainsEither, (EarlyName, FullTimeName), r.value)
    ensures IsWeekend(Weekday(d)) && (forall t :: t in templates ==> !NameContains(t, FullTimeName))
      ==> r == First(templates)
    ensures !IsWeekend(Weekday(d)) && LeadsFloor(m) && (forall t :: t in templates ==> !NameContainsEither(t, (EarlyName, FullTimeName)))
      ==> r == First(templates)
    ensures !IsWeekend(Weekday(d)) && !LeadsFloor(m) ==> r == First(templates)
  {
    if IsWeekend(Weekday(d)) then
      OrElse(FindWhere(templates, NameContains, FullTimeName), First(templates))
    else if LeadsFloor(m) then
      OrElse(FindWhere(templates, NameContainsEither, (EarlyName, FullTimeName)), First(templates))
    else
      First(templates)
  }

  /** The preferred template: only when the member has a special condition
      whose preference list is non-empty, and then the first template of the
      registry (not of the preference list) that the list names. */
  function PreferredTemplate(m: Staff, cond: ShiftConditions, templates: seq<ShiftTemplate>): (r: Option<ShiftTemplate>)
    ensures r.Some? <==>
      var c := FindSpecialCondition(cond, m.id);
      c.Some? && |c.value.preferredShiftTemplateIds| > 0
      && exists t :: t in templates && t.id in c.value.preferredShiftTemplateIds
    ensures r.Some? ==>
      var c := FindSpecialCondition(cond, m.id);
      c.Some? && FirstMatch(templates, IdListed, c.value.preferredShiftTemplateIds, r.value)
  {
    var c := FindSpecialCondition(cond, m.id);
    if c.Some? && |c.value.preferredShiftTemplateIds| > 0 then
      FindWhere(templates, IdListed, c.value.preferredShiftTemplateIds)
    else
      None
  }

  /** The shift record built from a member, a date and a template. */
  predicate BuiltFrom(s: Shift, m: Staff, d: Day, t: ShiftTemplate) {
    && s.staffId == m.id && s.staffName == m.name && s.date == d
    && s.startTime == t.startTime && s.endTime == t.endTime && s.breakDuration == t.breakDuration
    && s.templateId == t.id && s.templateName == t.name
    && s.status == Approved
  }

  /** `createShiftForStaff`: null exactly when there is no template at all;
      otherwise an approved shift for the member on that date, timed by the
      preferred template when there is one and by the default one otherwise. */
  function CreateShiftForStaff(m: Staff, d: Day, cond: ShiftConditions, templates: seq<ShiftTemplate>): (r: Option<Shift>)
    ensures r.None? <==> templates == []
    ensures r.Some? ==> exists t :: t in templates && BuiltFrom(r.value, m, d, t)
    ensures r.Some? && PreferredTemplate(m, cond, templates).Some?
      ==> BuiltFrom(r.value, m, d, PreferredTemplate(m, cond, templates).value)
    ensures r.Some? && PreferredTemplate(m, cond, templates).None?
      ==> BuiltFrom(r.value, m, d, DefaultTemplate(m, templates, d).value)
  {
    match OrElse(PreferredTemplate(m, cond, templates), DefaultTemplate(m, templates, d))
    case None => None
    case Some(t) =>
      Some(Shift(m.id, m.name, d, t.startTime, t.endTime, t.breakDuration, t.id, t.name, Approved))
  }

  /** A created shift always belongs to its member and date and is approved. */
  lemma {:induction false} CreatedShiftIsApproved(m: Staff, d: Day, cond: ShiftConditions, templates: seq<ShiftTemplate>)
    requires templates != []
    ensures var r := CreateShiftForStaff(m, d, cond, templates);
      r.Some? && r.value.staffId == m.id && r.value.date == d && r.value.status == Approved
  {
    var r := CreateShiftForStaff(m, d, cond, templates);
    var t :| t in templates && BuiltFrom(r.value, m, d, t);
  }

  /** The preference list's own order does not matter: with templates
      registered as [early, late] and a preference for [late, early], the
      early template is chosen. */
  lemma {:induction false} RegistryOrderWins(m: Staff, cond: ShiftConditions, early: ShiftTemplate, late: ShiftTemplate, c: StaffSpecialCondition)
    requires early.id != late.id
    requires cond.staffSpecialConditions == [c] && c.staffId == m.id
    requires c.preferredShiftTemplateIds == [late.id, early.id]
    ensures PreferredTemplate(m, cond, [early, late]) == Some(early)
  {
    assert ConditionOf(cond.staffSpecialConditions[0], m.id);
    assert FindSpecialCondition(cond, m.id) == Some(c);
    assert IdListed([early, late][0], c.preferredShiftTemplateIds);
  }

  /** On a weekend, a full-day template is picked over an earlier
      registered one that does not carry the name. */
  lemma {:induction false} WeekendPrefersFullTime(m: Staff, d: Day, short: ShiftTemplate, full: ShiftTemplate)
    requires IsWeekend(Weekday(d))
    requires !NameContains(short, FullTimeName) && full.name == FullTimeName
    ensures DefaultTemplate(m, [short, full], d) == Some(full)
  {
    assert NameContains(full, FullTimeName);
    var r := DefaultTemplate(m, [short, full], d);
    assert FirstMatch([short, full], NameContains, FullTimeName, r.value);
  }
}
