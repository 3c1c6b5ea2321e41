/** Properties that relate several operations of the project-mapper field:
    the dropdowns keep the supplied order, the lookup tables keep the last
    entry per key, Delete undoes Add, and neither transition breaks the rule
    that no project id and no mapped value is used twice. */
module ProjectMapperProperties {

  import opened Wrappers
  import opened ProjectMapper

  /** No two associations share a project id or a mapped value. */
  ghost predicate DistinctKeys(s: seq<Assoc>)
  {
    forall i, j :: 0 <= i < j < |s| ==> s[i].projectId != s[j].projectId && s[i].mapped != s[j].mapped
  }

  /** The project options of a concatenation are the options of each part,
      concatenated: filtering keeps the supplied order. */
  lemma {:induction false} ProjectOptionsConcat(a: seq<Project>, b: seq<Project>, existing: seq<Assoc>)
    ensures ProjectOptions(a + b, existing) == ProjectOptions(a, existing) + ProjectOptions(b, existing)
    decreases |a|
  {
    if |a| == 0 {
      assert a + b == b;
    } else {
      assert (a + b)[1..] == a[1..] + b;
      ProjectOptionsConcat(a[1..], b, existing);
    }
  }

  /** The mapped-item options of a concatenation are the options of each
      part, concatenated. */
  lemma {:induction false} MappedOptionsConcat(a: seq<MappedItem>, b: seq<MappedItem>, existing: seq<Assoc>)
    ensures MappedOptions(a + b, existing) == MappedOptions(a, existing) + MappedOptions(b, existing)
    decreases |a|
  {
    if |a| == 0 {
      assert a + b == b;
    } else {
      assert (a + b)[1..] == a[1..] + b;
      MappedOptionsConcat(a[1..], b, existing);
    }
  }

  /** With an unused id, the project options of the list without a project
      gain exactly that project's entry at its place. */
  lemma ProjectOptionsKeepPosition(a: seq<Project>, p: Project, b: seq<Project>, existing: seq<Assoc>)
    requires p.id !in UsedProjectIds(existing)
    ensures ProjectOptions(a + [p] + b, existing)
         == ProjectOptions(a, existing) + [ProjectOption(p.slug, p.id)] + ProjectOptions(b, existing)
  {
    ProjectOptionsConcat(a + [p], b, existing);
    ProjectOptionsConcat(a, [p], existing);
    assert [p][1..] == [];
  }

  /** The lookup table holds, for each key, the last element with that key. */
  lemma {:induction false} IndexByLastWins<K, V>(xs: seq<V>, key: V -> K, j: nat)
    requires j < |xs|
    requires forall k :: j < k < |xs| ==> key(xs[k]) != key(xs[j])
    ensures key(xs[j]) in IndexBy(xs, key)
    ensures IndexBy(xs, key)[key(xs[j])] == xs[j]
    decreases |xs|
  {
    var n := |xs| - 1;
    if j < n {
      var init := xs[..n];
      assert forall k :: j < k < |init| ==> init[k] == xs[k];
      IndexByLastWins(init, key, j);
      assert key(xs[n]) != key(xs[j]);
    }
  }

  /** When project ids are distinct, a row shows the very project whose id it
      references. */
  lemma ProjectsByIdFinds(projects: seq<Project>, j: nat)
    requires j < |projects|
    requires forall a, b :: 0 <= a < b < |projects| ==> projects[a].id != projects[b].id
    ensures projects[j].id in ProjectsById(projects)
    ensures ProjectsById(projects)[projects[j].id] == projects[j]
  {
    IndexByLastWins(projects, (p: Project) => p.id, j);
  }

  /** A row shows "Deleted" for its project exactly when no supplied project
      has that id, and "Deleted" for its item exactly when no supplied item
      has that value; the two cases are independent. */
  lemma RowDeletedIff(existing: seq<Assoc>, projects: seq<Project>, items: seq<MappedItem>, i: nat)
    requires i < |existing|
    ensures RenderRows(existing, projects, items)[i].project == DeletedProject
        <==> forall p :: p in projects ==> p.id != existing[i].projectId
    ensures RenderRows(existing, projects, items)[i].item == DeletedItem
        <==> forall it :: it in items ==> it.value != existing[i].mapped
  {
    var byId := ProjectsById(projects);
    var byValue := ItemsByValue(items);
    if existing[i].projectId in byId {
      assert byId[existing[i].projectId] in projects;
    }
    if existing[i].mapped in byValue {
      assert byValue[existing[i].mapped] in items;
    }
  }

  /** With no associations, every supplied project is offered, in order,
      labelled with its slug and valued with its id. */
  lemma {:induction false} NoAssociationsOfferAllProjects(projects: seq<Project>)
    ensures |ProjectOptions(projects, [])| == |projects|
    ensures forall i :: 0 <= i < |projects| ==>
      ProjectOptions(projects, [])[i] == ProjectOption(projects[i].slug, projects[i].id)
  {
    if |projects| > 0 {
      NoAssociationsOfferAllProjects(projects[1..]);
      assert ProjectOptions(projects, [])
          == [ProjectOption(projects[0].slug, projects[0].id)] + ProjectOptions(projects[1..], []);
    }
  }

  /** With no associations, every supplied item is offered, in order. */
  lemma {:induction false} NoAssociationsOfferAllItems(items: seq<MappedItem>)
    ensures MappedOptions(items, []) == items
  {
    if |items| > 0 {
      NoAssociationsOfferAllItems(items[1..]);
      assert items == [items[0]] + items[1..];
    }
  }

  /** An absent `value` prop reads as no associations: no rows are shown,
      every supplied project and item is offered in order, and an enabled Add
      reports a list holding just the selected pair. */
  lemma AbsentValueIsEmpty(projects: seq<Project>, items: seq<MappedItem>, h: Handlers, st: State)
    ensures RenderRows(Existing(None), projects, items) == []
    ensures |ProjectOptions(projects, Existing(None))| == |projects|
    ensures forall i :: 0 <= i < |projects| ==>
      ProjectOptions(projects, Existing(None))[i] == ProjectOption(projects[i].slug, projects[i].id)
    ensures MappedOptions(items, Existing(None)) == items
    ensures AddEnabled(st) ==>
      Add(Existing(None), h, st).emitted == [Assoc(st.selProject.value, st.selMapped.value)]
  {
    NoAssociationsOfferAllProjects(projects);
    NoAssociationsOfferAllItems(items);
  }

  /** Deleting the row Add just appended gives back the list before the Add. */
  lemma DeleteUndoesAdd(existing: seq<Assoc>, h: Handlers, st: State, h': Handlers, st': State)
    requires AddEnabled(st)
    ensures Delete(Add(existing, h, st).emitted, h', st', |existing|).emitted == existing
  {
    var added := Add(existing, h, st).emitted;
    var back := Delete(added, h', st', |existing|).emitted;
    assert back[..|existing|] == added[..|existing|];
  }

  /** Removing the element at an index, as a multiset, takes away exactly
      one occurrence of it. */
  lemma RemoveAtMultiset<T>(s: seq<T>, i: nat)
    requires i < |s|
    ensures multiset(s[..i] + s[i + 1..]) + multiset{s[i]} == multiset(s)
  {
    assert s == s[..i] + [s[i]] + s[i + 1..];
  }

  /** For an index inside the list, Delete reports the list with that
      element cut out. */
  lemma DeleteInRange(existing: seq<Assoc>, h: Handlers, st: State, index: int)
    requires 0 <= index < |existing|
    ensures Delete(existing, h, st, index).emitted == existing[..index] + existing[index + 1..]
  {
  }

  /** Delete removes one occurrence of the element at the index and keeps
      every other one. */
  lemma DeleteRemovesOne(existing: seq<Assoc>, h: Handlers, st: State, index: int)
    requires 0 <= index < |existing|
    ensures multiset(Delete(existing, h, st, index).emitted) + multiset{existing[index]} == multiset(existing)
  {
    DeleteInRange(existing, h, st, index);
    RemoveAtMultiset(existing, index);
  }

  /** Every association Delete reports was already in the list. */
  lemma DeleteKeepsOnlyExisting(existing: seq<Assoc>, h: Handlers, st: State, index: int)
    requires index >= 0
    ensures forall a :: a in Delete(existing, h, st, index).emitted ==> a in existing
    ensures UsedProjectIds(Delete(existing, h, st, index).emitted) <= UsedProjectIds(existing)
    ensures UsedMappedValues(Delete(existing, h, st, index).emitted) <= UsedMappedValues(existing)
  {
    if index < |existing| {
      DeleteRemovesOne(existing, h, st, index);
      var r := Delete(existing, h, st, index).emitted;
      forall a | a in r ensures a in existing {
        assert a in multiset(r);
      }
    }
  }

  /** Delete inherits `slice`'s reading of a negative index as counting from
      the end: at index -1 it reports every element but the last, followed by
      the whole list again. No row hands out a negative index. */
  lemma DeleteAtMinusOne(existing: seq<Assoc>, h: Handlers, st: State)
    requires |existing| > 0
    ensures Delete(existing, h, st, -1).emitted == existing[..|existing| - 1] + existing
    ensures |Delete(existing, h, st, -1).emitted| == 2 * |existing| - 1
  {
  }

  /** Add uses up exactly the selected id and value; nothing else joins or
      leaves the used sets. */
  lemma AddUsesSelectedKeys(existing: seq<Assoc>, h: Handlers, st: State)
    requires AddEnabled(st)
    ensures UsedProjectIds(Add(existing, h, st).emitted) == UsedProjectIds(existing) + {st.selProject.value}
    ensures UsedMappedValues(Add(existing, h, st).emitted) == UsedMappedValues(existing) + {st.selMapped.value}
  {
    var r := Add(existing, h, st).emitted;
    assert r == existing + [Assoc(st.selProject.value, st.selMapped.value)];
    assert r[|existing|] in r;
  }

  /** Adding a pair whose project id and mapped value are both unused keeps
      the keys distinct. */
  lemma AddPreservesDistinct(existing: seq<Assoc>, h: Handlers, st: State)
    requires DistinctKeys(existing)
    requires AddEnabled(st)
    requires st.selProject.value !in UsedProjectIds(existing)
    requires st.selMapped.value !in UsedMappedValues(existing)
    ensures DistinctKeys(Add(existing, h, st).emitted)
  {
    var r := Add(existing, h, st).emitted;
    var n := |existing|;
    forall i, j | 0 <= i < j < |r|
      ensures r[i].projectId != r[j].projectId && r[i].mapped != r[j].mapped
    {
      assert r[i] == existing[i];
      if j < n {
        assert r[j] == existing[j];
      } else {
        assert existing[i] in existing;
      }
    }
  }

  /** Deleting at a non-negative index keeps the keys distinct. */
  lemma DeletePreservesDistinct(existing: seq<Assoc>, h: Handlers, st: State, index: int)
    requires DistinctKeys(existing)
    requires index >= 0
    ensures DistinctKeys(Delete(existing, h, st, index).emitted)
  {
    var r := Delete(existing, h, st, index).emitted;
    if index < |existing| {
      forall i, j | 0 <= i < j < |r|
        ensures r[i].projectId != r[j].projectId && r[i].mapped != r[j].mapped
      {
        var i' := if i < index then i else i + 1;
        var j' := if j < index then j else j + 1;
        assert r[i] == existing[i'] by {
          if i < index { assert r[..index][i] == existing[..index][i]; }
        }
        assert r[j] == existing[j'] by {
          if j < index { assert r[..index][j] == existing[..index][j]; }
        }
      }
    }
  }

  /** An option the project dropdown offers never collides with a used id,
      and an item the mapped dropdown offers never collides with a used value. */
  lemma OfferedOptionsAreFresh(projects: seq<Project>, items: seq<MappedItem>, existing: seq<Assoc>,
                               o: ProjectOption, it: MappedItem)
    requires o in ProjectOptions(projects, existing)
    requires it in MappedOptions(items, existing)
    ensures forall a :: a in existing ==> a.projectId != o.value && a.mapped != it.value
  {
  }
}
