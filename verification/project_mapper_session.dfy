/** The field as a sequence of user actions. The host form holds the `value`
    prop, which may be absent. Whenever the field reports a list through a
    callback, the host is assumed to store it and render the field again with
    it. When no callback is supplied, nothing reaches the host and its value
    stays as it was. The supplied projects and items stay fixed. A user can
    only pick an entry the dropdown offers, click Add while it is enabled, and
    click the delete button of an existing row. Under those rules the field
    never lets a project id or a mapped value be used twice. */
module ProjectMapperSession {

  import opened Wrappers
  import opened ProjectMapper
  import opened ProjectMapperProperties

  datatype Event =
    | PickProject(option: ProjectOption)
    | PickMapped(item: MappedItem)
    | ClickAdd
    | ClickDelete(row: nat)

  /** The `value` prop the host holds and the field's selection slots. */
  datatype Field = Field(value: Option<seq<Assoc>>, st: State)

  /** Whether the host supplied at least one callback, so that a reported list
      reaches it. */
  predicate Reports(h: Handlers)
  {
    h.hasOnChange || h.hasOnBlur
  }

  /** Whether the rendered field lets the user perform the event. */
  predicate Offered(projects: seq<Project>, items: seq<MappedItem>, f: Field, ev: Event)
  {
    match ev
    case PickProject(o) => o in ProjectOptions(projects, Existing(f.value))
    case PickMapped(it) => it in MappedOptions(items, Existing(f.value))
    case ClickAdd => AddEnabled(f.st)
    case ClickDelete(i) => i < |RenderRows(Existing(f.value), projects, items)|
  }

  /** One user action. The host stores the reported list only when some
      callback carried it. */
  function Step(projects: seq<Project>, items: seq<MappedItem>, h: Handlers, f: Field, ev: Event): (r: Field)
    requires Offered(projects, items, f, ev)
    ensures ev.PickProject? ==> r == Field(f.value, SelectProject(f.st, ev.option.value))
    ensures ev.PickMapped? ==> r == Field(f.value, SelectMapped(f.st, ev.item.value))
    ensures ev.ClickAdd? ==>
      && r.st == Initial
      && r.value == (if Reports(h)
                     then Some(Existing(f.value) + [Assoc(f.st.selProject.value, f.st.selMapped.value)])
                     else f.value)
    ensures ev.ClickDelete? ==>
      && r.st == f.st
      && r.value == (if Reports(h)
                     then Some(Existing(f.value)[..ev.row] + Existing(f.value)[ev.row + 1..])
                     else f.value)
  {
    var existing := Existing(f.value);
    match ev
    case PickProject(o) => Field(f.value, SelectProject(f.st, o.value))
    case PickMapped(it) => Field(f.value, SelectMapped(f.st, it.value))
    case ClickAdd =>
      var t := Add(existing, h, f.st);
      Field(if t.calls == [] then f.value else Some(t.emitted), t.next)
    case ClickDelete(i) =>
      var t := Delete(existing, h, f.st, RenderRows(existing, projects, items)[i].deleteIndex);
      assert t.emitted == existing[..i] + existing[i + 1..];
      Field(if t.calls == [] then f.value else Some(t.emitted), t.next)
  }

  /** Runs the events in order; `None` when one of them is not offered. */
  function Run(projects: seq<Project>, items: seq<MappedItem>, h: Handlers, f: Field, evs: seq<Event>): Option<Field>
    decreases |evs|
  {
    if |evs| == 0 then Some(f)
    else if !Offered(projects, items, f, evs[0]) then None
    else Run(projects, items, h, Step(projects, items, h, f, evs[0]), evs[1..])
  }

  /** The keys are distinct and each selected slot holds an unused key. */
  ghost predicate Invariant(f: Field)
  {
    var existing := Existing(f.value);
    && DistinctKeys(existing)
    && (f.st.selProject.Some? ==> f.st.selProject.value !in UsedProjectIds(existing))
    && (f.st.selMapped.Some? ==> f.st.selMapped.value !in UsedMappedValues(existing))
  }

  /** A field with distinct keys, or no value at all, and nothing selected
      satisfies the invariant. */
  lemma InitialInvariant(value: Option<seq<Assoc>>)
    requires value.Some? ==> DistinctKeys(value.value)
    ensures Invariant(Field(value, Initial))
  {
  }

  /** Every offered action keeps the invariant. */
  lemma StepPreservesInvariant(projects: seq<Project>, items: seq<MappedItem>, h: Handlers, f: Field, ev: Event)
    requires Invariant(f)
    requires Offered(projects, items, f, ev)
    ensures Invariant(Step(projects, items, h, f, ev))
  {
    var existing := Existing(f.value);
    match ev
    case PickProject(o) =>
    case PickMapped(it) =>
    case ClickAdd =>
      AddPreservesDistinct(existing, h, f.st);
    case ClickDelete(i) =>
      var index := RenderRows(existing, projects, items)[i].deleteIndex;
      DeletePreservesDistinct(existing, h, f.st, index);
      DeleteKeepsOnlyExisting(existing, h, f.st, index);
  }

  /** Any run of offered actions keeps the invariant, so the list the host
      ends up with never repeats a project id or a mapped value. */
  lemma {:induction false} RunPreservesInvariant(projects: seq<Project>, items: seq<MappedItem>, h: Handlers,
                                                 f: Field, evs: seq<Event>)
    requires Invariant(f)
    requires Run(projects, items, h, f, evs).Some?
    ensures Invariant(Run(projects, items, h, f, evs).value)
    ensures DistinctKeys(Existing(Run(projects, items, h, f, evs).value.value))
    decreases |evs|
  {
    if |evs| > 0 {
      StepPreservesInvariant(projects, items, h, f, evs[0]);
      RunPreservesInvariant(projects, items, h, Step(projects, items, h, f, evs[0]), evs[1..]);
    }
  }

  /** Picking an offered project and an offered item, both truthy, then
      clicking Add leaves both slots empty; the host then holds the list with
      exactly that pair appended, or, with no callback supplied, its old value. */
  lemma PickPickAdd(projects: seq<Project>, items: seq<MappedItem>, h: Handlers, value: Option<seq<Assoc>>,
                    o: ProjectOption, it: MappedItem)
    requires o in ProjectOptions(projects, Existing(value))
    requires it in MappedOptions(items, Existing(value))
    requires o.value != 0 && it.value != Num(0) && it.value != Str("")
    ensures Run(projects, items, h, Field(value, Initial), [PickProject(o), PickMapped(it), ClickAdd])
         == Some(Field(if Reports(h) then Some(Existing(value) + [Assoc(o.value, it.value)]) else value,
                       Initial))
  {
    var f0 := Field(value, Initial);
    var evs := [PickProject(o), PickMapped(it), ClickAdd];
    var f1 := Step(projects, items, h, f0, evs[0]);
    var f2 := Step(projects, items, h, f1, evs[1]);
    assert AddEnabled(f2.st);
    var f3 := Step(projects, items, h, f2, evs[2]);
    assert Run(projects, items, h, f2, evs[2..]) == Run(projects, items, h, f3, []) by {
      assert evs[2..] == [ClickAdd];
    }
    assert Run(projects, items, h, f1, evs[1..]) == Run(projects, items, h, f2, evs[2..]) by {
      assert evs[1..][1..] == evs[2..];
    }
  }

  /** From the initial state the Add button stays disabled until both slots
      are set, so a run that clicks Add with nothing selected, or with only
      one of the two selected, is refused. */
  lemma AddNeedsBothSelections(projects: seq<Project>, items: seq<MappedItem>, h: Handlers,
                               value: Option<seq<Assoc>>, o: ProjectOption, it: MappedItem)
    ensures Run(projects, items, h, Field(value, Initial), [ClickAdd]) == None
    ensures Run(projects, items, h, Field(value, Initial), [PickProject(o), ClickAdd]) == None
    ensures Run(projects, items, h, Field(value, Initial), [PickMapped(it), ClickAdd]) == None
  {
    var f0 := Field(value, Initial);
    if o in ProjectOptions(projects, Existing(value)) {
      var f1 := Step(projects, items, h, f0, PickProject(o));
      assert !AddEnabled(f1.st);
      assert [PickProject(o), ClickAdd][1..] == [ClickAdd];
    }
    if it in MappedOptions(items, Existing(value)) {
      var f1 := Step(projects, items, h, f0, PickMapped(it));
      assert !AddEnabled(f1.st);
      assert [PickMapped(it), ClickAdd][1..] == [ClickAdd];
    }
  }

  /** The supplied lists of a worked example: with `[(1,"a"), (2,"b")]`
      stored and projects 1..3 and items "a".."c" supplied, only project 3 and
      item "c" are offered; picking both and adding gives
      `[(1,"a"), (2,"b"), (3,"c")]`; deleting row 1 of that gives
      `[(1,"a"), (3,"c")]`; and a row for project 9 shows "Deleted". */
  function ExampleProjects(): seq<Project>
  {
    [Project(1, "one"), Project(2, "two"), Project(3, "three")]
  }

  function ExampleItems(): seq<MappedItem>
  {
    [MappedItem(Str("a"), "A", "u/a"), MappedItem(Str("b"), "B", "u/b"), MappedItem(Str("c"), "C", "u/c")]
  }

  function ExampleValue(): seq<Assoc>
  {
    [Assoc(1, Str("a")), Assoc(2, Str("b"))]
  }

  lemma ExampleOptions()
    ensures ProjectOptions(ExampleProjects(), ExampleValue()) == [ProjectOption("three", 3)]
    ensures MappedOptions(ExampleItems(), ExampleValue()) == [ExampleItems()[2]]
  {
    var projects, items, value := ExampleProjects(), ExampleItems(), ExampleValue();
    assert value[0].projectId == 1 && value[1].projectId == 2;
    assert 1 in UsedProjectIds(value) && 2 in UsedProjectIds(value);
    assert 3 !in UsedProjectIds(value);
    assert Str("a") in UsedMappedValues(value) && Str("b") in UsedMappedValues(value);
    assert Str("c") !in UsedMappedValues(value);
    assert projects[1..][1..][1..] == [];
    assert items[1..][1..][1..] == [];
  }

  lemma ExampleAdd()
    ensures Run(ExampleProjects(), ExampleItems(), Handlers(true, true), Field(Some(ExampleValue()), Initial),
                [PickProject(ProjectOption("three", 3)), PickMapped(ExampleItems()[2]), ClickAdd])
         == Some(Field(Some(ExampleValue() + [Assoc(3, Str("c"))]), Initial))
  {
    ExampleOptions();
    PickPickAdd(ExampleProjects(), ExampleItems(), Handlers(true, true), Some(ExampleValue()),
                ProjectOption("three", 3), ExampleItems()[2]);
  }

  lemma ExampleDelete()
    ensures Delete(ExampleValue() + [Assoc(3, Str("c"))], Handlers(true, true), Initial, 1).emitted
         == [Assoc(1, Str("a")), Assoc(3, Str("c"))]
  {
    var added := ExampleValue() + [Assoc(3, Str("c"))];
    var r := Delete(added, Handlers(true, true), Initial, 1).emitted;
    assert r == added[..1] + added[2..];
  }

  lemma ExampleDeletedRow()
    ensures RenderRows([Assoc(9, Str("a"))], ExampleProjects(), ExampleItems())[0].project == DeletedProject
  {
    RowDeletedIff([Assoc(9, Str("a"))], ExampleProjects(), ExampleItems(), 0);
  }
}
