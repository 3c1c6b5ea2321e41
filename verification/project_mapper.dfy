/** The association-editing logic of the project-mapper form field: a list of
    (project id, mapped value) associations supplied by the host form, two
    dropdowns that only offer keys not yet used, two selection slots, and the
    Add and Delete transitions that report a new list to the host. The markup
    is gone; what is left is list, set and map manipulation. */
module ProjectMapper {

  import opened Wrappers
  import JsArray

  /** A mapped value is a string or a number; equality is by kind and content,
      as `Set` membership compares them. */
  datatype MappedValue = Str(s: string) | Num(n: int)

  /** One committed association `[projectId, mappedValue]`. */
  datatype Assoc = Assoc(projectId: int, mapped: MappedValue)

  datatype Project = Project(id: int, slug: string)

  datatype MappedItem = MappedItem(value: MappedValue, caption: string, url: string)

  /** A project dropdown entry: the slug is shown, the id is the value. */
  datatype ProjectOption = ProjectOption(caption: string, value: int)

  /** The two selection slots; `None` stands for `null`. */
  datatype State = State(selProject: Option<int>, selMapped: Option<MappedValue>)

  /** Which of the optional `onChange` / `onBlur` callbacks the host supplied. */
  datatype Handlers = Handlers(hasOnChange: bool, hasOnBlur: bool)

  /** One callback invocation, with the reported list and error list. */
  datatype Callback =
    | OnChange(value: seq<Assoc>, errors: seq<string>)
    | OnBlur(value: seq<Assoc>, errors: seq<string>)

  /** What a handler does: the list it reports, the callbacks it makes with
      it, and the selection state it leaves behind. */
  datatype Transition = Transition(emitted: seq<Assoc>, calls: seq<Callback>, next: State)

  /** How a row shows its project: as a badge, or as the "Deleted" placeholder. */
  datatype ProjectCell = ProjectBadge(project: Project) | DeletedProject

  /** How a row shows its mapped item: label and external link, or "Deleted". */
  datatype ItemCell = ItemLink(caption: string, url: string) | DeletedItem

  /** One rendered association row; its delete button passes `deleteIndex`. */
  datatype Row = Row(project: ProjectCell, item: ItemCell, deleteIndex: nat)

  /** Both selection slots empty, as the component starts. */
  const Initial: State := State(None, None)

  /** `incomingValues || []`: an absent value reads as no associations. */
  function Existing(value: Option<seq<Assoc>>): seq<Assoc>
  {
    if value.Some? then value.value else []
  }

  /** The project ids already used by an association. */
  function UsedProjectIds(existing: seq<Assoc>): set<int>
  {
    set a | a in existing :: a.projectId
  }

  /** The mapped values already used by an association. */
  function UsedMappedValues(existing: seq<Assoc>): set<MappedValue>
  {
    set a | a in existing :: a.mapped
  }

  /** The project dropdown's entries: the supplied projects whose id is not
      used, in order, each labelled with its slug and valued with its id.
      The second clause follows from the third; it is kept on its own because
      it is the rule the dropdown exists for: no offered id is already used. */
  function ProjectOptions(projects: seq<Project>, existing: seq<Assoc>): (r: seq<ProjectOption>)
    ensures |r| <= |projects|
    ensures forall o :: o in r ==> o.value !in UsedProjectIds(existing)
    ensures forall o :: o in r <==>
      exists p :: p in projects && p.id !in UsedProjectIds(existing) && o == ProjectOption(p.slug, p.id)
  {
    if |projects| == 0 then []
    else
      var p := projects[0];
      var rest := ProjectOptions(projects[1..], existing);
      assert projects == [p] + projects[1..];
      if p.id in UsedProjectIds(existing) then rest
      else [ProjectOption(p.slug, p.id)] + rest
  }

  /** The mapped-item dropdown's entries: the supplied items whose value is
      not used, in order. */
  function MappedOptions(items: seq<MappedItem>, existing: seq<Assoc>): (r: seq<MappedItem>)
    ensures |r| <= |items|
    ensures forall it :: it in r <==> it in items && it.value !in UsedMappedValues(existing)
  {
    if |items| == 0 then []
    else
      var it := items[0];
      var rest := MappedOptions(items[1..], existing);
      assert items == [it] + items[1..];
      if it.value in UsedMappedValues(existing) then rest
      else [it] + rest
  }

  /** `Object.fromEntries(xs.map(x => [key(x), x]))`: a lookup table with one
      entry per key, where a later element overwrites an earlier one. */
  function IndexBy<K, V>(xs: seq<V>, key: V -> K): (m: map<K, V>)
    ensures m.Keys == set x | x in xs :: key(x)
    ensures forall k :: k in m ==> m[k] in xs && key(m[k]) == k
  {
    if |xs| == 0 then map[]
    else
      var last := xs[|xs| - 1];
      assert xs == xs[..|xs| - 1] + [last];
      IndexBy(xs[..|xs| - 1], key)[key(last) := last]
  }

  /** `sentryProjectsById`: one entry per supplied project id. */
  function ProjectsById(projects: seq<Project>): (m: map<int, Project>)
    ensures forall p :: p in projects ==> p.id in m
    ensures forall id :: id in m ==> m[id] in projects && m[id].id == id
  {
    IndexBy(projects, (p: Project) => p.id)
  }

  /** `mappedItemsByValue`: one entry per supplied item value. */
  function ItemsByValue(items: seq<MappedItem>): (m: map<MappedValue, MappedItem>)
    ensures forall it :: it in items ==> it.value in m
    ensures forall v :: v in m ==> m[v] in items && m[v].value == v
  {
    IndexBy(items, (it: MappedItem) => it.value)
  }

  /** Choosing a project overwrites the project slot only. */
  function SelectProject(st: State, id: int): (r: State)
    ensures r.selProject == Some(id)
    ensures r.selMapped == st.selMapped
  {
    st.(selProject := Some(id))
  }

  /** Choosing a mapped item overwrites the mapped-value slot only. */
  function SelectMapped(st: State, v: MappedValue): (r: State)
    ensures r.selMapped == Some(v)
    ensures r.selProject == st.selProject
  {
    st.(selMapped := Some(v))
  }

  /** JavaScript truthiness of a selected project id: `null` and `0` are falsy. */
  predicate ProjectTruthy(sel: Option<int>)
  {
    sel.Some? && sel.value != 0
  }

  /** JavaScript truthiness of a selected mapped value: `null`, `0` and `""`
      are falsy. */
  predicate MappedTruthy(sel: Option<MappedValue>)
  {
    match sel
    case None => false
    case Some(Str(s)) => s != ""
    case Some(Num(n)) => n != 0
  }

  /** The Add button is enabled unless either selection is falsy. */
  function AddEnabled(st: State): (r: bool)
    ensures r <==>
      && st.selProject.Some? && st.selMapped.Some?
      && st.selProject.value != 0
      && st.selMapped.value != Num(0) && st.selMapped.value != Str("")
  {
    ProjectTruthy(st.selProject) && MappedTruthy(st.selMapped)
  }

  /** `onChange?.(v, [])` then `onBlur?.(v, [])`. */
  function Notify(h: Handlers, v: seq<Assoc>): (r: seq<Callback>)
    ensures |r| == (if h.hasOnChange then 1 else 0) + (if h.hasOnBlur then 1 else 0)
    ensures forall c :: c in r ==> c.value == v && c.errors == []
    ensures h.hasOnChange ==> r[0] == OnChange(v, [])
    ensures h.hasOnBlur ==> r[|r| - 1] == OnBlur(v, [])
  {
    (if h.hasOnChange then [OnChange(v, [])] else [])
    + (if h.hasOnBlur then [OnBlur(v, [])] else [])
  }

  /** The Add handler: append the selected pair, report the new list, clear
      both slots. It is reachable only through the enabled Add button. */
  function Add(existing: seq<Assoc>, h: Handlers, st: State): (r: Transition)
    requires AddEnabled(st)
    ensures |r.emitted| == |existing| + 1
    ensures r.emitted[..|existing|] == existing
    ensures r.emitted[|existing|] == Assoc(st.selProject.value, st.selMapped.value)
    ensures r.calls == Notify(h, r.emitted)
    ensures r.next == Initial
  {
    var mappings := existing + [Assoc(st.selProject.value, st.selMapped.value)];
    Transition(mappings, Notify(h, mappings), Initial)
  }

  /** The Delete handler: `slice(0, index).concat(slice(index + 1))`, reported
      to the host; the selection slots are left alone. */
  function Delete(existing: seq<Assoc>, h: Handlers, st: State, index: int): (r: Transition)
    ensures 0 <= index < |existing| ==>
      && |r.emitted| == |existing| - 1
      && r.emitted[..index] == existing[..index]
      && forall k :: index <= k < |r.emitted| ==> r.emitted[k] == existing[k + 1]
    ensures index >= |existing| ==> r.emitted == existing
    ensures r.calls == Notify(h, r.emitted)
    ensures r.next == st
  {
    var mappings := JsArray.Slice(existing, 0, index) + JsArray.SliceFrom(existing, index + 1);
    Transition(mappings, Notify(h, mappings), st)
  }

  /** `renderItem`: look the association's project and mapped value up, and
      fall back to "Deleted" for whichever is missing. */
  function RenderRow(a: Assoc, index: nat, byId: map<int, Project>,
                     byValue: map<MappedValue, MappedItem>): (r: Row)
    ensures r.deleteIndex == index
    ensures r.project == DeletedProject <==> a.projectId !in byId
    ensures r.project.ProjectBadge? ==> r.project.project == byId[a.projectId]
    ensures r.item == DeletedItem <==> a.mapped !in byValue
    ensures r.item.ItemLink? ==>
      r.item.caption == byValue[a.mapped].caption && r.item.url == byValue[a.mapped].url
  {
    var project := if a.projectId in byId then ProjectBadge(byId[a.projectId]) else DeletedProject;
    var item :=
      if a.mapped in byValue then ItemLink(byValue[a.mapped].caption, byValue[a.mapped].url)
      else DeletedItem;
    Row(project, item, index)
  }

  /** `existingValues.map(renderItem)`: one row per association, in order. */
  function RenderRows(existing: seq<Assoc>, projects: seq<Project>, items: seq<MappedItem>): (r: seq<Row>)
    ensures |r| == |existing|
    ensures forall i :: 0 <= i < |r| ==>
      r[i] == RenderRow(existing[i], i, ProjectsById(projects), ItemsByValue(items))
  {
    var byId := ProjectsById(projects);
    var byValue := ItemsByValue(items);
    seq(|existing|, i requires 0 <= i < |existing| => RenderRow(existing[i], i, byId, byValue))
  }
}
