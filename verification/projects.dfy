/**
 * The project registry of the F5 server: the ordered project list of the
 * server's configuration, and the two first-match lookups over it.
 *
 * Python objects have identity: the same Project object can be reached from
 * the list and from a caller's variable, and can even sit in the list twice.
 * The registry therefore keeps references (`Ref`) in the list and the records
 * themselves in a store, so that setting `active` on one object is seen from
 * every place that refers to it.
 */
module Projects {
  import opened Optional

  /** One registered project. `targetHost` is None or a (possibly empty) host string. */
  datatype Project = Project(path: string, targetHost: Option<string>, muteList: seq<string>, active: bool)

  /** The identity of a Project object. */
  type Ref = nat

  /** `projects` is the configuration's project list, in insertion order;
      `store` holds every Project object the server can reach;
      `next` is a reference no object has been given yet. */
  datatype Registry = Registry(projects: seq<Ref>, store: map<Ref, Project>, next: nat)

  /** Every listed reference names an object, and `next` is fresh. */
  predicate Valid(reg: Registry)
  {
    && (forall i :: 0 <= i < |reg.projects| ==> reg.projects[i] in reg.store)
    && (forall r :: r in reg.store ==> r < reg.next)
  }

  /** Python truthiness of `project.targetHost`: set and not the empty string. */
  predicate HasTargetHost(p: Project)
  {
    p.targetHost.Some? && p.targetHost.value != ""
  }

  predicate Active(store: map<Ref, Project>, r: Ref)
  {
    r in store && store[r].active
  }

  predicate Covers(store: map<Ref, Project>, isParent: (string, string) -> bool, r: Ref, child: string)
  {
    r in store && isParent(store[r].path, child)
  }

  /** The registry invariant: all listed projects that are active are one and the same object. */
  predicate AtMostOneActive(reg: Registry)
  {
    forall i, j ::
      0 <= i < |reg.projects| && 0 <= j < |reg.projects|
      && Active(reg.store, reg.projects[i]) && Active(reg.store, reg.projects[j])
      ==> reg.projects[i] == reg.projects[j]
  }

  /** No listed project other than `t` is active. */
  predicate OnlyActive(reg: Registry, t: Ref)
  {
    forall i :: 0 <= i < |reg.projects| && Active(reg.store, reg.projects[i]) ==> reg.projects[i] == t
  }

  /** The loop of `active_project`, from position `from` on: the first active position. */
  function ActiveFrom(ps: seq<Ref>, store: map<Ref, Project>, from: nat): (r: Option<nat>)
    requires from <= |ps|
    ensures r.Some? ==> from <= r.value < |ps| && Active(store, ps[r.value])
    ensures r.Some? ==> forall j :: from <= j < r.value ==> !Active(store, ps[j])
    ensures r.None? <==> forall j :: from <= j < |ps| ==> !Active(store, ps[j])
    decreases |ps| - from
  {
    if from == |ps| then None
    else if Active(store, ps[from]) then Some(from)
    else ActiveFrom(ps, store, from + 1)
  }

  /** The loop of `find_project`, from position `from` on: the first position whose
      path `isParent` reports as a parent of `child`. */
  function FindFrom(ps: seq<Ref>, store: map<Ref, Project>, isParent: (string, string) -> bool,
                    child: string, from: nat): (r: Option<nat>)
    requires from <= |ps|
    ensures r.Some? ==> from <= r.value < |ps| && Covers(store, isParent, ps[r.value], child)
    ensures r.Some? ==> forall j :: from <= j < r.value ==> !Covers(store, isParent, ps[j], child)
    ensures r.None? <==> forall j :: from <= j < |ps| ==> !Covers(store, isParent, ps[j], child)
    decreases |ps| - from
  {
    if from == |ps| then None
    else if Covers(store, isParent, ps[from], child) then Some(from)
    else FindFrom(ps, store, isParent, child, from + 1)
  }

  /** `active_project`: the first listed project whose `active` flag is set, or None. */
  function ActiveProject(reg: Registry): (r: Option<Ref>)
    ensures r.None? <==> forall i :: 0 <= i < |reg.projects| ==> !Active(reg.store, reg.projects[i])
    ensures r.Some? ==> r.value in reg.projects && Active(reg.store, r.value)
    ensures r.Some? ==> exists k :: 0 <= k < |reg.projects| && reg.projects[k] == r.value
                                    && forall j :: 0 <= j < k ==> !Active(reg.store, reg.projects[j])
  {
    match ActiveFrom(reg.projects, reg.store, 0)
    case None => None
    case Some(k) => Some(reg.projects[k])
  }

  /** `find_project(child)`: the first listed project whose path `isParent` reports as a
      parent of `child`, or None. `isParent` stands for `path_is_parent`; nothing is
      assumed about it (not even that a path is its own parent). */
  function FindProject(reg: Registry, isParent: (string, string) -> bool, child: string): (r: Option<Ref>)
    ensures r.None? <==> forall i :: 0 <= i < |reg.projects| ==> !Covers(reg.store, isParent, reg.projects[i], child)
    ensures r.Some? ==> r.value in reg.projects && Covers(reg.store, isParent, r.value, child)
    ensures r.Some? ==> exists k :: 0 <= k < |reg.projects| && reg.projects[k] == r.value
                                    && forall j :: 0 <= j < k ==> !Covers(reg.store, isParent, reg.projects[j], child)
  {
    match FindFrom(reg.projects, reg.store, isParent, child, 0)
    case None => None
    case Some(k) => Some(reg.projects[k])
  }

  /** `current_project_path`: the path of the active project, or None when none is active. */
  function CurrentProjectPath(reg: Registry): (r: Option<string>)
    ensures r.None? <==> forall i :: 0 <= i < |reg.projects| ==> !Active(reg.store, reg.projects[i])
    ensures r.Some? ==> exists k :: 0 <= k < |reg.projects| && Active(reg.store, reg.projects[k])
                                    && r.value == reg.store[reg.projects[k]].path
                                    && forall j :: 0 <= j < k ==> !Active(reg.store, reg.projects[j])
  {
    match ActiveFrom(reg.projects, reg.store, 0)
    case None => None
    case Some(k) => Some(reg.store[reg.projects[k]].path)
  }

  /** Creating a new Project object: it gets a reference nothing refers to yet and is not listed. */
  function Allocate(reg: Registry, p: Project): (out: Registry)
    requires Valid(reg)
    ensures Valid(out)
    ensures reg.next !in reg.store && reg.next in out.store && out.store[reg.next] == p
    ensures out.projects == reg.projects
    ensures forall r :: r in reg.store ==> r in out.store && out.store[r] == reg.store[r]
    ensures forall r :: r in out.store ==> r in reg.store || r == reg.next
  {
    Registry(reg.projects, reg.store[reg.next := p], reg.next + 1)
  }

  /** Lines 71-72 of `load_project`: append the target unless some listed project covers its path. */
  function Register(reg: Registry, t: Ref, isParent: (string, string) -> bool): (out: Registry)
    requires Valid(reg) && t in reg.store
    ensures Valid(out) && out.store == reg.store && out.next == reg.next
    ensures FindProject(reg, isParent, reg.store[t].path).None? ==> out.projects == reg.projects + [t]
    ensures FindProject(reg, isParent, reg.store[t].path).Some? ==> out.projects == reg.projects
  {
    if FindProject(reg, isParent, reg.store[t].path).None? then
      Registry(reg.projects + [t], reg.store, reg.next)
    else
      reg
  }

  /** Setting the `active` attribute of the object `t`. */
  function SetActive(reg: Registry, t: Ref, b: bool): (out: Registry)
    requires Valid(reg) && t in reg.store
    ensures Valid(out) && out.projects == reg.projects && out.next == reg.next
    ensures out.store.Keys == reg.store.Keys
    ensures out.store[t] == reg.store[t].(active := b)
    ensures forall r :: r in reg.store && r != t ==> out.store[r] == reg.store[r]
  {
    Registry(reg.projects, reg.store[t := reg.store[t].(active := b)], reg.next)
  }

  /** Lines 74-75 of `load_project`: switch off the first active listed project, if any. */
  function DeactivateFirst(reg: Registry): (out: Registry)
    requires Valid(reg)
    ensures Valid(out) && out.projects == reg.projects && out.next == reg.next
    ensures out.store.Keys == reg.store.Keys
    ensures ActiveProject(reg).None? ==> out == reg
    ensures ActiveProject(reg).Some? ==> out.store[ActiveProject(reg).value] == reg.store[ActiveProject(reg).value].(active := false)
    ensures forall r :: r in reg.store && Some(r) != ActiveProject(reg) ==> out.store[r] == reg.store[r]
  {
    match ActiveProject(reg)
    case None => reg
    case Some(a) => SetActive(reg, a, false)
  }

  /** Appending to the list leaves the first active position alone when there is one,
      and otherwise makes the new entry first exactly when it is active. */
  lemma ActiveAfterAppend(ps: seq<Ref>, t: Ref, store: map<Ref, Project>)
    ensures ActiveFrom(ps + [t], store, 0)
            == match ActiveFrom(ps, store, 0)
               case Some(k) => Some(k)
               case None => if Active(store, t) then Some(|ps|) else None
  {
    var qs := ps + [t];
    assert forall j :: 0 <= j < |ps| ==> qs[j] == ps[j];
    assert qs[|ps|] == t;
    var a := ActiveFrom(qs, store, 0);
    match ActiveFrom(ps, store, 0)
    case Some(k) =>
      assert Active(store, qs[k]);
    case None =>
  }

  /** The object `load_project` switches off (the first active one after registration)
      is the registry's first active object, or the appended target itself. */
  lemma SwitchedOff(reg: Registry, t: Ref, isParent: (string, string) -> bool)
    requires Valid(reg) && t in reg.store
    ensures ActiveProject(reg).Some? ==> ActiveProject(Register(reg, t, isParent)) == ActiveProject(reg)
    ensures ActiveProject(reg).None? ==> ActiveProject(Register(reg, t, isParent)) in {None, Some(t)}
  {
    var reg1 := Register(reg, t, isParent);
    if reg1.projects != reg.projects {
      assert reg1.projects == reg.projects + [t];
      ActiveAfterAppend(reg.projects, t, reg.store);
    }
  }

  /** With at most one active object before, only the target can still be active once
      the target is registered and the first active object is switched off. */
  lemma OnlyTargetLeft(reg: Registry, t: Ref, isParent: (string, string) -> bool)
    requires Valid(reg) && t in reg.store && AtMostOneActive(reg)
    ensures OnlyActive(DeactivateFirst(Register(reg, t, isParent)), t)
  {
  }

  /** Once only `t` may be active, setting its flag decides the active project. */
  lemma OnlyActiveAfterSet(reg: Registry, t: Ref, b: bool)
    requires Valid(reg) && t in reg.store && OnlyActive(reg, t)
    ensures OnlyActive(SetActive(reg, t, b), t) && AtMostOneActive(SetActive(reg, t, b))
    ensures ActiveProject(SetActive(reg, t, b)) == (if b && t in reg.projects then Some(t) else None)
  {
  }

  /**
   * Lines 71-81 of `load_project` on the registry: register the target `t` unless a
   * listed project covers its path, switch off the first active project, then set the
   * target's flag to `found` (whether its path exists).
   */
  function SwitchTo(reg: Registry, t: Ref, isParent: (string, string) -> bool, found: bool): (out: Registry)
    requires Valid(reg) && t in reg.store
    ensures Valid(out) && out.store.Keys == reg.store.Keys && out.next == reg.next
    // registration: appended exactly when no listed project covers the target's path
    ensures FindProject(reg, isParent, reg.store[t].path).None? ==> out.projects == reg.projects + [t]
    ensures FindProject(reg, isParent, reg.store[t].path).Some? ==> out.projects == reg.projects
    // the target's flag records the existence check; nothing else about it changes
    ensures out.store[t] == reg.store[t].(active := found)
    // the previously active project is switched off, whatever the outcome
    ensures ActiveProject(reg).Some? && ActiveProject(reg).value != t
            ==> out.store[ActiveProject(reg).value] == reg.store[ActiveProject(reg).value].(active := false)
    // no other object changes
    ensures forall x :: x in reg.store && x != t && Some(x) != ActiveProject(reg) ==> out.store[x] == reg.store[x]
    // the single-active invariant survives, and the target is the one left active
    ensures AtMostOneActive(reg) ==> OnlyActive(out, t) && AtMostOneActive(out)
    ensures AtMostOneActive(reg) ==> ActiveProject(out) == (if found && t in out.projects then Some(t) else None)
  {
    var reg2 := DeactivateFirst(Register(reg, t, isParent));
    SwitchedOff(reg, t, isParent);
    assert AtMostOneActive(reg) ==> OnlyActive(reg2, t) by {
      if AtMostOneActive(reg) {
        OnlyTargetLeft(reg, t, isParent);
      }
    }
    assert OnlyActive(reg2, t) ==> ActiveProject(SetActive(reg2, t, found)) == (if found && t in reg2.projects then Some(t) else None)
                                   && AtMostOneActive(SetActive(reg2, t, found))
                                   && OnlyActive(SetActive(reg2, t, found), t) by {
      if OnlyActive(reg2, t) {
        OnlyActiveAfterSet(reg2, t, found);
      }
    }
    SetActive(reg2, t, found)
  }

  /** `SwitchTo` changes `active` flags only: every object keeps its path, host and mute list. */
  lemma SwitchKeepsRecords(reg: Registry, t: Ref, isParent: (string, string) -> bool, found: bool)
    requires Valid(reg) && t in reg.store
    ensures var out := SwitchTo(reg, t, isParent, found);
            forall x :: x in reg.store ==> out.store[x] == reg.store[x].(active := out.store[x].active)
  {
  }

  /** Switching to the same target twice with the same existence answer leaves every object
      as switching once did. */
  lemma SwitchTwiceSameObjects(reg: Registry, t: Ref, isParent: (string, string) -> bool, found: bool)
    requires Valid(reg) && t in reg.store && AtMostOneActive(reg)
    ensures var once := SwitchTo(reg, t, isParent, found);
            SwitchTo(once, t, isParent, found).store == once.store
  {
    var once := SwitchTo(reg, t, isParent, found);
    var twice := SwitchTo(once, t, isParent, found);
    SwitchKeepsRecords(reg, t, isParent, found);
    // only `t` can be active in `once`, so the second switch touches `t` alone
    forall x | x in once.store ensures twice.store[x] == once.store[x] {
    }
  }

  /** The second switch appends again exactly when the first one appended the target and
      `isParent` does not report the target's path as its own parent. */
  lemma SwitchTwiceSameList(reg: Registry, t: Ref, isParent: (string, string) -> bool, found: bool)
    requires Valid(reg) && t in reg.store
    ensures var once := SwitchTo(reg, t, isParent, found);
            var path := reg.store[t].path;
            SwitchTo(once, t, isParent, found).projects == once.projects
            <==> FindProject(reg, isParent, path).Some? || isParent(path, path)
  {
    var once := SwitchTo(reg, t, isParent, found);
    var path := reg.store[t].path;
    SwitchKeepsRecords(reg, t, isParent, found);
    var hit := FindProject(reg, isParent, path);
    if hit.Some? {
      var k :| 0 <= k < |reg.projects| && reg.projects[k] == hit.value;
      assert once.projects[k] == hit.value;
      assert Covers(once.store, isParent, once.projects[k], path);
    } else {
      forall i | 0 <= i < |reg.projects| ensures !Covers(once.store, isParent, once.projects[i], path) {
        assert once.projects[i] == reg.projects[i];
        assert !Covers(reg.store, isParent, reg.projects[i], path);
      }
      if isParent(path, path) {
        assert Covers(once.store, isParent, once.projects[|reg.projects|], path);
      } else {
        assert FindProject(once, isParent, path).None?;
      }
    }
  }

  /** Switching to the first active object itself, with its path found, switches it off and
      back on: every object ends as it started and it is still the active project. */
  lemma ReloadActive(reg: Registry, isParent: (string, string) -> bool)
    requires Valid(reg) && ActiveProject(reg).Some?
    ensures var a := ActiveProject(reg).value;
            var out := SwitchTo(reg, a, isParent, true);
            out.store == reg.store && ActiveProject(out) == Some(a)
  {
    var a := ActiveProject(reg).value;
    var reg1 := Register(reg, a, isParent);
    SwitchedOff(reg, a, isParent);
    var out := SwitchTo(reg, a, isParent, true);
    assert out.store == reg.store by {
      forall x | x in reg.store ensures out.store[x] == reg.store[x] {
      }
    }
    assert ActiveProject(out) == Some(a) by {
      if reg1.projects != reg.projects {
        ActiveAfterAppend(reg.projects, a, reg.store);
      }
    }
  }
}
