/** The projects page: the selection state shared by the accordion list and the detail panel,
    the detail lookup, the icon fallback and the status badge. */
module ProjectsPage {
  import opened Wrappers
  import opened Catalog
  import JsArray
  import JsText
  import ProjectAccordionList
  import ProjectUtils

  /** The page's two pieces of state: the project shown in detail and the accordion's open values. */
  datatype Selection = Selection(selectedProject: string, openAccordionItem: seq<string>)

  /** The open values are exactly the selected project. */
  predicate Consistent(s: Selection) {
    s.openAccordionItem == [s.selectedProject]
  }

  /** The selected project is one of the catalog's. */
  predicate SelectsFrom(s: Selection, catalog: seq<Project>) {
    exists i :: 0 <= i < |catalog| && catalog[i].id == s.selectedProject
  }

  /** The initial state selects and opens the first project; an empty catalog has no first id. */
  function InitialSelection(catalog: seq<Project>): (r: Option<Selection>)
    ensures r.None? <==> |catalog| == 0
    ensures r.Some? ==> r.value.selectedProject == catalog[0].id
    ensures r.Some? ==> Consistent(r.value) && SelectsFrom(r.value, catalog)
  {
    if |catalog| == 0 then None else Some(Selection(catalog[0].id, [catalog[0].id]))
  }

  /** Selecting a project sets both pieces of state in one step. */
  function HandleAccordionChange(projectId: string): (r: Selection)
    ensures r.selectedProject == projectId
    ensures Consistent(r)
  {
    Selection(projectId, [projectId])
  }

  /** The accordion's change event: ignored when no truthy first value is reported. */
  function OnValueChange(s: Selection, value: seq<string>): (r: Selection)
    ensures |value| == 0 || value[0] == "" ==> r == s
    ensures |value| > 0 && value[0] != "" ==> r.selectedProject == value[0] && Consistent(r)
  {
    match ProjectAccordionList.ForwardedValue(value)
    case Some(id) => HandleAccordionChange(id)
    case None => s
  }

  /** The state after a series of accordion change events. */
  function ApplyChanges(s: Selection, events: seq<seq<string>>): Selection
    decreases |events|
  {
    if |events| == 0 then s else ApplyChanges(OnValueChange(s, events[0]), events[1..])
  }

  /** Every value the accordion reports is the value of one of its items, i.e. a catalog id. */
  predicate ReportsItemValues(events: seq<seq<string>>, catalog: seq<Project>) {
    forall k, v :: 0 <= k < |events| && v in events[k] ==>
      exists i :: 0 <= i < |catalog| && catalog[i].id == v
  }

  /** One change event keeps the open values equal to the selection. */
  lemma OnValueChangeKeepsConsistent(s: Selection, value: seq<string>)
    requires Consistent(s)
    ensures Consistent(OnValueChange(s, value))
  {
  }

  /** Whatever the accordion reports, the open values stay exactly `[selectedProject]`. */
  lemma {:induction false} ChangesKeepConsistent(s: Selection, events: seq<seq<string>>)
    requires Consistent(s)
    ensures Consistent(ApplyChanges(s, events))
    decreases |events|
  {
    if |events| > 0 {
      OnValueChangeKeepsConsistent(s, events[0]);
      ChangesKeepConsistent(OnValueChange(s, events[0]), events[1..]);
    }
  }

  /** While the accordion only reports its own items' values, the selection stays in the catalog. */
  lemma {:induction false} ChangesKeepSelectionInCatalog(s: Selection, events: seq<seq<string>>, catalog: seq<Project>)
    requires SelectsFrom(s, catalog)
    requires ReportsItemValues(events, catalog)
    ensures SelectsFrom(ApplyChanges(s, events), catalog)
    decreases |events|
  {
    if |events| > 0 {
      var next := OnValueChange(s, events[0]);
      if next != s {
        assert events[0][0] in events[0];
      }
      assert ReportsItemValues(events[1..], catalog) by {
        forall k, v | 0 <= k < |events[1..]| && v in events[1..][k]
          ensures exists i :: 0 <= i < |catalog| && catalog[i].id == v
        {
          assert events[1..][k] == events[k + 1];
        }
      }
      ChangesKeepSelectionInCatalog(next, events[1..], catalog);
    }
  }

  /** The project the detail panel shows: the first with the selected id, else the first project. */
  function SelectedProjectData(catalog: seq<Project>, selectedProject: string): (r: Option<Project>)
    ensures r.None? <==> |catalog| == 0
    ensures r.Some? ==> r.value in catalog
    ensures (exists i :: 0 <= i < |catalog| && catalog[i].id == selectedProject) ==>
      r.Some? && r.value.id == selectedProject
    ensures (forall i :: 0 <= i < |catalog| ==> catalog[i].id != selectedProject) && |catalog| > 0 ==>
      r == Some(catalog[0])
    ensures forall i :: 0 <= i < |catalog| && catalog[i].id == selectedProject ==>
      exists k :: 0 <= k <= i && r == Some(catalog[k]) && forall j :: 0 <= j < k ==> catalog[j].id != selectedProject
  {
    ghost var first := JsArray.FindIndex(catalog, (p: Project) => p.id == selectedProject);
    assert forall i :: 0 <= i < |catalog| && catalog[i].id == selectedProject ==> 0 <= first <= i;
    match JsArray.Find(catalog, (p: Project) => p.id == selectedProject)
    case Some(p) => Some(p)
    case None => if |catalog| == 0 then None else Some(catalog[0])
  }

  /** With distinct ids the detail panel shows the one entry carrying the selected id. */
  lemma DetailIsTheSelectedEntry(catalog: seq<Project>, i: nat)
    requires IdsDistinct(catalog)
    requires i < |catalog|
    ensures SelectedProjectData(catalog, catalog[i].id) == Some(catalog[i])
  {
    var r := SelectedProjectData(catalog, catalog[i].id);
    assert r.Some? && r.value in catalog;
    var j :| 0 <= j < |catalog| && catalog[j] == r.value;
    assert catalog[j].id == catalog[i].id;
  }

  /** The list as the page renders it from its state. */
  function ListFor(catalog: seq<Project>, s: Selection): ProjectAccordionList.ListView {
    ProjectAccordionList.Render(catalog, s.selectedProject, s.openAccordionItem)
  }

  /** Under the invariant a row is highlighted exactly when its chevron is rotated,
      exactly when it carries the selected id. */
  lemma RowsFollowSelection(catalog: seq<Project>, s: Selection)
    requires Consistent(s)
    ensures var rows := ListFor(catalog, s).rows;
      |rows| == |catalog|
      && forall i :: 0 <= i < |rows| ==>
        (rows[i].highlighted <==> rows[i].chevronRotated)
        && (rows[i].highlighted <==> rows[i].key == s.selectedProject)
  {
    var rows := ListFor(catalog, s).rows;
    forall i | 0 <= i < |rows|
      ensures rows[i].chevronRotated <==> rows[i].key == s.selectedProject
    {
      assert rows[i].chevronRotated <==> catalog[i].id in [s.selectedProject];
    }
  }

  /** Under the invariant the highlighted row, the rotated chevron and the detail panel agree:
      a row is highlighted exactly when its chevron is rotated, exactly when it is the detail's entry. */
  lemma ViewsAgree(catalog: seq<Project>, s: Selection)
    requires Consistent(s)
    requires SelectsFrom(s, catalog)
    ensures var rows := ListFor(catalog, s).rows;
      var detail := SelectedProjectData(catalog, s.selectedProject);
      detail.Some? && detail.value.id == s.selectedProject
      && forall i :: 0 <= i < |rows| ==>
        (rows[i].highlighted <==> rows[i].chevronRotated)
        && (rows[i].highlighted <==> rows[i].key == detail.value.id)
  {
    RowsFollowSelection(catalog, s);
  }

  /** With distinct ids exactly one row is highlighted: the one at the detail entry's position. */
  lemma {:induction false} ExactlyOneRowHighlighted(catalog: seq<Project>, s: Selection, i: nat)
    requires IdsDistinct(catalog)
    requires Consistent(s)
    requires i < |catalog| && catalog[i].id == s.selectedProject
    ensures var rows := ListFor(catalog, s).rows;
      forall j :: 0 <= j < |rows| ==> (rows[j].highlighted <==> j == i) && (rows[j].chevronRotated <==> j == i)
    ensures SelectedProjectData(catalog, s.selectedProject) == Some(catalog[i])
  {
    RowsFollowSelection(catalog, s);
    DetailIsTheSelectedEntry(catalog, i);
    var rows := ListFor(catalog, s).rows;
    forall j | 0 <= j < |rows|
      ensures rows[j].highlighted <==> j == i
    {
      assert rows[j].key == catalog[j].id;
    }
  }

  /** The icon beside a technology in the detail panel, defaulting to the JavaScript icon. */
  function IconFor(tech: string): (r: Icon)
    ensures tech in TechIcons ==> r == TechIcons[tech]
    ensures tech !in TechIcons ==> r == FaJs
  {
    if tech in TechIcons then TechIcons[tech] else FaJs
  }

  /** On catalog data the fallback icon is never needed: every lookup hits the table. */
  lemma CatalogNeedsNoIconFallback(i: nat, tech: string)
    requires i < |ProjectsData| && tech in ProjectsData[i].technologies
    ensures tech in TechIcons && IconFor(tech) == TechIcons[tech]
  {
    CatalogIconsComplete();
  }

  /** The colour scheme of the status badge over the detail image. */
  function StatusColorScheme(status: string): (r: string)
    ensures r == "green" <==> status == "completed"
    ensures r == "orange" <==> status == "in-progress"
    ensures r == "gray" <==> status != "completed" && status != "in-progress"
  {
    if status == "completed" then "green"
    else if status == "in-progress" then "orange"
    else "gray"
  }

  /** The badge over the image and the status colour table agree on which statuses are grey. */
  lemma StatusSchemesAgree(status: string, mode: ProjectUtils.ColorMode)
    ensures StatusColorScheme(status) == "gray"
      <==> ProjectUtils.GetStatusColors(status, mode).bg in {"gray.500", "gray.400"}
  {
  }

  /** The status badge's text: the stored name with its first hyphen turned into a space. */
  function StatusLabel(status: string): (r: string)
    ensures |r| == |status|
    ensures '-' !in status ==> r == status
    ensures forall k :: 0 <= k < |r| ==>
      r[k] == (if k == JsText.IndexOf(status, '-') then ' ' else status[k])
  {
    JsText.ReplaceFirst(status, '-', ' ')
  }

  /** A status name without a hyphen is shown unchanged. */
  lemma HyphenFreeLabels()
    ensures StatusLabel(Completed.Name()) == "completed"
    ensures StatusLabel(Planning.Name()) == "planning"
  {
    assert '-' !in Completed.Name();
    assert '-' !in Planning.Name();
  }

  /** "in-progress" is shown as "in progress". */
  lemma InProgressLabel()
    ensures StatusLabel(InProgress.Name()) == "in progress"
  {
    assert "in" + [' '] + "progress" == "in progress";
    assert InProgress.Name() == "in" + ['-'] + "progress";
    JsText.ReplaceFirstAfterPrefix("in", "progress", '-', ' ');
  }

  /** Only the first hyphen becomes a space; later ones stay. */
  lemma OnlyFirstHyphenReplaced()
    ensures StatusLabel("a-b-c") == "a b-c"
  {
    assert JsText.IndexOf("a-b-c", '-') == 1 by {
      assert "a-b-c"[1] == '-' && "a-b-c"[0] != '-';
    }
  }

  /** Selecting the third of three projects: the detail shows it and the second row stays closed. */
  lemma SelectThirdScenario()
    ensures var catalog := ProjectsData[..3];
      var s := OnValueChange(InitialSelection(catalog).value, ["3"]);
      SelectedProjectData(catalog, s.selectedProject) == Some(catalog[2])
      && !ListFor(catalog, s).rows[1].chevronRotated
      && !ListFor(catalog, s).rows[1].highlighted
  {
    var catalog := ProjectsData[..3];
    CatalogIdsDistinct();
    assert catalog[1].id == "2" && catalog[2].id == "3";
    var s := OnValueChange(InitialSelection(catalog).value, ["3"]);
    assert s == Selection("3", ["3"]);
    DetailIsTheSelectedEntry(catalog, 2);
    ExactlyOneRowHighlighted(catalog, s, 2);
  }
}
