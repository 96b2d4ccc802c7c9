/**
 * The project file of a squirrel project: a `squirrel` root element with a
 * `name` attribute and the child elements `path` (attribute `src`),
 * `description`, `due-date`, `goal` and `project-type`.
 *
 * A file that squirrel wrote holds every child element; an older or edited
 * file may lack some, so each child is an `Option` (None = element missing).
 * The Python dictionaries passed in are records whose `Option` fields stand
 * for keys that may be absent.
 */
module Project {
  import opened Wrappers
  import opened Formatting

  /** The dictionary `build_project_file` receives. */
  datatype ProjectData = ProjectData(
    name: Option<string>,
    description: Option<string>,
    due: Date,
    goal: Option<int>,
    projectType: Option<string>)

  /** The dictionary `update_project_file` receives: None is a key absent or set to None. */
  datatype ProjectUpdate = ProjectUpdate(
    name: Option<string>,
    description: Option<string>,
    goal: Option<int>,
    due: Option<string>,
    projectType: Option<string>)

  /** The `squirrel` element of a project file: the `name` attribute, the `src` of `path`, the other children's text. */
  datatype ProjectTree = ProjectTree(
    name: string,
    path: Option<string>,
    description: Option<string>,
    dueDate: Option<string>,
    goal: Option<string>,
    projectType: Option<string>)

  /** The flat record `get_data_from_project_file` returns; every field is raw text. */
  datatype ProjectRecord = ProjectRecord(
    name: string,
    path: string,
    description: string,
    goal: string,
    dueDate: string,
    projectType: string)

  /** A child element an update found missing and skipped, with a logged diagnostic. */
  datatype Element = DescriptionElement | GoalElement | DueDateElement | ProjectTypeElement

  const DefaultProjectType: string := "text"

  /** `build_project_file(data, file)`, where `dir` is the directory of `file`. */
  function BuildProjectTree(data: ProjectData, dir: string): (t: ProjectTree)
    ensures Complete(t) && t.path == Some(dir)
  {
    ProjectTree(
      data.name.GetOr(""),
      Some(dir),
      Some(data.description.GetOr("")),
      Some(FormatDate(data.due)),
      Some(IntToString(data.goal.GetOr(0))),
      Some(data.projectType.GetOr(DefaultProjectType)))
  }

  /** The tree holds every child element that reading it looks up. */
  predicate Complete(t: ProjectTree) {
    t.path.Some? && t.description.Some? && t.dueDate.Some? && t.goal.Some? && t.projectType.Some?
  }

  /** `get_data_from_project_file()`: None when a child element is missing (Python raises there). */
  function ReadProject(t: ProjectTree): (r: Option<ProjectRecord>)
    ensures r.Some? <==> Complete(t)
  {
    if Complete(t) then
      Some(ProjectRecord(t.name, t.path.value, t.description.value, t.goal.value, t.dueDate.value, t.projectType.value))
    else
      None
  }

  /** The text of a child element after an update: replaced when a value is given and the element exists. */
  function UpdatedText(current: Option<string>, given: Option<string>): Option<string> {
    if given.Some? && current.Some? then given else current
  }

  /** The project file after `update_project_file(data)`. */
  function UpdatedTree(t: ProjectTree, u: ProjectUpdate): (r: ProjectTree)
    ensures r.path == t.path
    ensures r.description.Some? == t.description.Some? && r.goal.Some? == t.goal.Some?
    ensures r.dueDate.Some? == t.dueDate.Some? && r.projectType.Some? == t.projectType.Some?
    ensures Complete(r) <==> Complete(t)
  {
    ProjectTree(
      u.name.GetOr(t.name),
      t.path,
      UpdatedText(t.description, u.description),
      UpdatedText(t.dueDate, u.due),
      UpdatedText(t.goal, if u.goal.Some? then Some(IntToString(u.goal.value)) else None),
      UpdatedText(t.projectType, u.projectType))
  }

  /** The element `e` when the update found it missing, and nothing otherwise. */
  function Reported(missing: bool, e: Element): set<Element> {
    if missing then {e} else {}
  }

  /** The elements for which an update was given but which the file lacks. */
  function Skipped(t: ProjectTree, u: ProjectUpdate): (s: set<Element>)
    ensures Complete(t) ==> s == {}
    ensures u.description.None? && u.goal.None? && u.due.None? && u.projectType.None? ==> s == {}
  {
    Reported(u.description.Some? && t.description.None?, DescriptionElement) +
    Reported(u.goal.Some? && t.goal.None?, GoalElement) +
    Reported(u.due.Some? && t.dueDate.None?, DueDateElement) +
    Reported(u.projectType.Some? && t.projectType.None?, ProjectTypeElement)
  }

  /**
   * One guarded assignment of `update_project_file`: the element's text is set
   * when a value is given and the element exists; a given value for a missing
   * element is reported instead of raising.
   */
  method SetElementText(current: Option<string>, given: Option<string>) returns (next: Option<string>, missing: bool)
    ensures next == UpdatedText(current, given)
    ensures missing <==> given.Some? && current.None?
    ensures next.Some? == current.Some?
    ensures given.None? ==> next == current
  {
    next, missing := current, false;
    if given.Some? {
      if current.Some? {
        next := given;
      } else {
        missing := true;
      }
    }
  }

  /** The parsed project file, whose element text and attributes `update_project_file` overwrites in place. */
  class ProjectFile {
    var name: string
    var path: Option<string>
    var description: Option<string>
    var dueDate: Option<string>
    var goal: Option<string>
    var projectType: Option<string>

    function Tree(): ProjectTree
      reads this
    {
      ProjectTree(name, path, description, dueDate, goal, projectType)
    }

    /** The tree as parsed from the file. */
    constructor Parse(t: ProjectTree)
      ensures Tree() == t
    {
      name, path, description := t.name, t.path, t.description;
      dueDate, goal, projectType := t.dueDate, t.goal, t.projectType;
    }

    /**
     * `update_project_file(data)`: set each given field whose element exists,
     * and report each given field whose element is missing instead of failing.
     */
    method Update(u: ProjectUpdate) returns (skipped: set<Element>)
      modifies this
      ensures Tree() == UpdatedTree(old(Tree()), u)
      ensures skipped == Skipped(old(Tree()), u)
    {
      if u.name.Some? {
        name := u.name.value;
      }
      var missing: bool;
      description, missing := SetElementText(description, u.description);
      skipped := Reported(missing, DescriptionElement);
      goal, missing := SetElementText(goal, if u.goal.Some? then Some(IntToString(u.goal.value)) else None);
      skipped := skipped + Reported(missing, GoalElement);
      dueDate, missing := SetElementText(dueDate, u.due);
      skipped := skipped + Reported(missing, DueDateElement);
      projectType, missing := SetElementText(projectType, u.projectType);
      skipped := skipped + Reported(missing, ProjectTypeElement);
    }
  }

  /**
   * Reading a freshly built file gives the name verbatim, the directory, the
   * description, `str(goal)`, the `dd/mm/yyyy` due date and the project type,
   * `DefaultProjectType` when none was given; the name, description, goal and due date can
   * be recovered from what is read.
   */
  lemma ReadAfterBuild(data: ProjectData, dir: string)
    ensures var r := ReadProject(BuildProjectTree(data, dir));
            && r.Some?
            && r.value.name == data.name.GetOr("")
            && r.value.path == dir
            && r.value.description == data.description.GetOr("")
            && r.value.dueDate == FormatDate(data.due)
            && r.value.projectType == (if data.projectType.Some? then data.projectType.value else DefaultProjectType)
            && r.value.goal == IntToString(data.goal.GetOr(0))
            && (data.goal.GetOr(0) >= 0 ==> DecimalValue(r.value.goal) == data.goal.GetOr(0))
            && DecimalValue(r.value.dueDate[..2]) == data.due.day
            && DecimalValue(r.value.dueDate[3..5]) == data.due.month
            && DecimalValue(r.value.dueDate[6..]) == data.due.year
  {
    FormatDateFields(data.due);
    if data.goal.GetOr(0) >= 0 {
      NatToStringValue(data.goal.GetOr(0));
    }
  }

  /** Two builds that read back alike were given the same name, directory, goal, due date and type. */
  lemma BuildReadInjective(a: ProjectData, b: ProjectData, dirA: string, dirB: string)
    requires ReadProject(BuildProjectTree(a, dirA)) == ReadProject(BuildProjectTree(b, dirB))
    ensures a.name.GetOr("") == b.name.GetOr("") && dirA == dirB
    ensures a.description.GetOr("") == b.description.GetOr("")
    ensures a.goal.GetOr(0) == b.goal.GetOr(0) && a.due == b.due
    ensures a.projectType.GetOr(DefaultProjectType) == b.projectType.GetOr(DefaultProjectType)
  {
    IntToStringInjective(a.goal.GetOr(0), b.goal.GetOr(0));
    FormatDateInjective(a.due, b.due);
  }

  /**
   * On a complete file an update never skips, sets every given field (the
   * goal as `str(goal)`, the due date as raw text) and leaves the others as
   * they were.
   */
  lemma UpdateComplete(t: ProjectTree, u: ProjectUpdate)
    requires Complete(t)
    ensures Skipped(t, u) == {}
    ensures var r := ReadProject(t).value;
            ReadProject(UpdatedTree(t, u)) == Some(ProjectRecord(
              u.name.GetOr(r.name),
              r.path,
              u.description.GetOr(r.description),
              if u.goal.Some? then IntToString(u.goal.value) else r.goal,
              u.due.GetOr(r.dueDate),
              u.projectType.GetOr(r.projectType)))
  {
  }

  /**
   * A missing element only skips its own field: the skipped elements are
   * exactly the given fields whose element is missing, no element appears or
   * disappears, every given field whose element exists is set, and every
   * field given as None keeps its old value.
   */
  lemma UpdateSkipsOnlyMissing(t: ProjectTree, u: ProjectUpdate)
    ensures var t' := UpdatedTree(t, u);
            && (DescriptionElement in Skipped(t, u) <==> u.description.Some? && t.description.None?)
            && (GoalElement in Skipped(t, u) <==> u.goal.Some? && t.goal.None?)
            && (DueDateElement in Skipped(t, u) <==> u.due.Some? && t.dueDate.None?)
            && (ProjectTypeElement in Skipped(t, u) <==> u.projectType.Some? && t.projectType.None?)
            && t'.path == t.path
            && t'.description.Some? == t.description.Some?
            && t'.goal.Some? == t.goal.Some?
            && t'.dueDate.Some? == t.dueDate.Some?
            && t'.projectType.Some? == t.projectType.Some?
            && (u.name.Some? ==> t'.name == u.name.value)
            && (u.description.Some? && t.description.Some? ==> t'.description == u.description)
            && (u.goal.Some? && t.goal.Some? ==> t'.goal == Some(IntToString(u.goal.value)))
            && (u.due.Some? && t.dueDate.Some? ==> t'.dueDate == u.due)
            && (u.projectType.Some? && t.projectType.Some? ==> t'.projectType == u.projectType)
            && (u.name.None? ==> t'.name == t.name)
            && (u.description.None? ==> t'.description == t.description)
            && (u.goal.None? ==> t'.goal == t.goal)
            && (u.due.None? ==> t'.dueDate == t.dueDate)
            && (u.projectType.None? ==> t'.projectType == t.projectType)
  {
  }

  /** Fields given as None are untouched: an update with nothing given changes nothing and skips nothing. */
  lemma EmptyUpdateChangesNothing(t: ProjectTree)
    ensures var none := ProjectUpdate(None, None, None, None, None);
            UpdatedTree(t, none) == t && Skipped(t, none) == {}
  {
  }

  /** Applying the same update twice is the same as applying it once. */
  lemma UpdateIdempotent(t: ProjectTree, u: ProjectUpdate)
    ensures UpdatedTree(UpdatedTree(t, u), u) == UpdatedTree(t, u)
    ensures Skipped(UpdatedTree(t, u), u) == Skipped(t, u)
  {
  }
}
