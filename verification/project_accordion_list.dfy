/** The accordion list of projects: which value its change handler forwards, and what each row shows. */
module ProjectAccordionList {
  import opened Wrappers
  import opened Catalog
  import JsText

  function Min(a: nat, b: nat): nat {
    if a <= b then a else b
  }

  /** The accordion reports its new open values; the handler forwards the first one only when it is
      truthy, so an empty list (the open item collapsed) and an empty id are both dropped. */
  function ForwardedValue(value: seq<string>): (r: Option<string>)
    ensures r.None? <==> |value| == 0 || value[0] == ""
    ensures r.Some? ==> r.value == value[0] && r.value in value
  {
    if |value| > 0 && value[0] != "" then Some(value[0]) else None
  }

  /** The technology badges under a project: at most three names, then a count of the rest. */
  datatype TechBadges = TechBadges(shown: seq<string>, more: Option<nat>)

  function BadgesFor(technologies: seq<string>): (r: TechBadges)
    ensures |r.shown| == Min(3, |technologies|)
    ensures r.shown <= technologies
    ensures r.more.Some? <==> |technologies| > 3
    ensures r.more.Some? ==> r.more.value > 0 && |r.shown| + r.more.value == |technologies|
  {
    TechBadges(
      technologies[..Min(3, |technologies|)],
      if |technologies| > 3 then Some(|technologies| - 3) else None)
  }

  /** The text of the trailing badge, `+N more`. */
  function MoreLabel(n: nat): (r: string)
    ensures |r| > 6 && r[0] == '+' && r[|r| - 5..] == " more"
    ensures forall i :: 1 <= i < |r| - 5 ==> JsText.IsDigit(r[i])
  {
    "+" + JsText.NumberToString(n) + " more"
  }

  /** The badge texts in display order. */
  function BadgeLabels(b: TechBadges): (r: seq<string>)
    ensures |r| == |b.shown| + (if b.more.Some? then 1 else 0)
    ensures r[..|b.shown|] == b.shown
    ensures b.more.Some? ==> r[|b.shown|] == MoreLabel(b.more.value)
  {
    b.shown + (match b.more case Some(n) => [MoreLabel(n)] case None => [])
  }

  /** Badges hide nothing: the names shown and the count in the trailing badge cover the whole list. */
  lemma BadgesCoverTechnologies(technologies: seq<string>)
    ensures var b := BadgesFor(technologies);
      b.shown + technologies[|b.shown|..] == technologies
      && |technologies[|b.shown|..]| == b.more.GetOr(0)
  {
  }

  /** The trailing badge's text spells the number of hidden technologies. */
  lemma {:induction false} MoreLabelSpellsCount(n: nat)
    ensures var l := MoreLabel(n);
      |l| > 6 && l[0] == '+' && l[|l| - 5..] == " more"
      && (forall i :: 1 <= i < |l| - 5 ==> JsText.IsDigit(l[i]))
      && JsText.ParseDigits(l[1..|l| - 5]) == n
  {
    var digits := JsText.NumberToString(n);
    var l := MoreLabel(n);
    assert l[1..|l| - 5] == digits;
    JsText.ParseNumberToString(n);
  }

  /** What one accordion item shows for a project given the selection props. */
  datatype Row = Row(
    key: string,
    value: string,
    title: string,
    highlighted: bool,
    chevronRotated: bool,
    featuredBadge: bool,
    badges: TechBadges)

  /** The heading above the list and its items in catalog order. */
  datatype ListView = ListView(heading: string, rows: seq<Row>)

  function RowFor(project: Project, selectedProjectId: string, openAccordionItem: seq<string>): (r: Row)
    ensures r.key == project.id && r.value == project.id
    ensures r.highlighted <==> selectedProjectId == project.id
    ensures r.chevronRotated <==> project.id in openAccordionItem
    ensures r.featuredBadge <==> project.featured
  {
    Row(
      project.id,
      project.id,
      project.title,
      selectedProjectId == project.id,
      project.id in openAccordionItem,
      project.featured,
      BadgesFor(project.technologies))
  }

  function Heading(count: nat): (r: string)
    ensures |r| > 15 && r[..14] == "All Projects (" && r[|r| - 1] == ')'
    ensures forall i :: 14 <= i < |r| - 1 ==> JsText.IsDigit(r[i])
  {
    "All Projects (" + JsText.NumberToString(count) + ")"
  }

  /** The rendered list: one item per project, in input order, keyed by the project's id. */
  function Render(projects: seq<Project>, selectedProjectId: string, openAccordionItem: seq<string>): (r: ListView)
    ensures |r.rows| == |projects|
    ensures forall i :: 0 <= i < |projects| ==>
      r.rows[i].key == projects[i].id && r.rows[i].badges == BadgesFor(projects[i].technologies)
    ensures forall i :: 0 <= i < |projects| ==>
      (r.rows[i].highlighted <==> projects[i].id == selectedProjectId)
      && (r.rows[i].chevronRotated <==> projects[i].id in openAccordionItem)
      && (r.rows[i].featuredBadge <==> projects[i].featured)
  {
    ListView(
      Heading(|projects|),
      seq(|projects|, i requires 0 <= i < |projects| => RowFor(projects[i], selectedProjectId, openAccordionItem)))
  }

  /** The number in the heading is the number of projects. */
  lemma {:induction false} HeadingCountsProjects(projects: seq<Project>, selectedProjectId: string, openAccordionItem: seq<string>)
    ensures var h := Render(projects, selectedProjectId, openAccordionItem).heading;
      |h| > 15 && h[..14] == "All Projects (" && h[|h| - 1] == ')'
      && (forall i :: 14 <= i < |h| - 1 ==> JsText.IsDigit(h[i]))
      && JsText.ParseDigits(h[14..|h| - 1]) == |projects|
  {
    var digits := JsText.NumberToString(|projects|);
    var h := Heading(|projects|);
    assert h[14..|h| - 1] == digits;
    JsText.ParseNumberToString(|projects|);
  }
}
