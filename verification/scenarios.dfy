/**
 * Concrete runs of `load_project` and the start-up reload on a two-project registry:
 * A at "/a" (static, active) and B at "/b" (proxied to "localhost:4000").
 * `path_is_parent` is replaced by plain path equality, or by a test that never holds.
 */
module Scenarios {
  import opened Optional
  import opened Projects
  import opened Server

  const A: Project := Project("/a", None, [], true)
  const B: Project := Project("/b", Some("localhost:4000"), [], false)

  /** A listed as object 0 and active, B listed as object 1; A's static routes are installed. */
  function TwoProjects(): (s: Server)
    ensures Valid(s.reg) && AtMostOneActive(s.reg) && ActiveProject(s.reg) == Some(0)
  {
    Server(Registry([0, 1], map[0 := A, 1 := B], 2), Some(Static("/a")))
  }

  /** Switching from A to B: A is switched off, B is on, and one proxy route to B's host is installed. */
  lemma SwitchToProxy()
    ensures var r := LoadProject(TwoProjects(), 1, p => true, (p, c) => p == c);
            && r.ok
            && r.server.reg.projects == [0, 1]
            && !r.server.reg.store[0].active && r.server.reg.store[1].active
            && r.server.tail == Some(Proxy("localhost:4000"))
            && CurrentProjectPath(r.server.reg) == Some("/b")
  {
  }

  /** Switching to B when "/b" is missing fails, and A, which was active, is left switched off
      while its routes stay installed: no project is current any more. */
  lemma FailedSwitchLeavesNoneActive()
    ensures var r := LoadProject(TwoProjects(), 1, p => p == "/a", (p, c) => p == c);
            && !r.ok
            && !r.server.reg.store[0].active && !r.server.reg.store[1].active
            && ActiveProject(r.server.reg) == None
            && CurrentProjectPath(r.server.reg) == None
            && r.server.tail == Some(Static("/a"))
  {
  }

  /** A new descriptor for "/a/sub" is covered by A, so it is not listed; it becomes active
      on its own while the registry has no active project left. */
  lemma CoveredDescriptorStaysUnlisted()
    ensures var r := Activate(TwoProjects(), Fresh(Project("/a/sub", None, [], false)),
                              p => true, (p, c) => p <= c);
            && r.ok
            && r.server.reg.projects == [0, 1]
            && r.server.reg.store[2].active
            && ActiveProject(r.server.reg) == None
            && r.server.tail == Some(Static("/a/sub"))
  {
    var s := TwoProjects();
    var reg := Allocate(s.reg, Project("/a/sub", None, [], false));
    assert "/a" <= "/a/sub";
    assert FindProject(reg, (p, c) => p <= c, "/a/sub") == Some(0);
    assert AtMostOneActive(reg) by {
      assert reg.projects == [0, 1] && reg.store[0] == A && reg.store[1] == B;
    }
    assert 2 !in reg.projects;
  }

  /** At start-up, with a `path_is_parent` that never holds, the active project A is appended
      again: the list then holds the same object twice. */
  lemma StartupDuplicatesActive()
    ensures var out := Startup(TwoProjects(), p => true, (p, c) => false);
            && out.reg.projects == [0, 1, 0]
            && ActiveProject(out.reg) == Some(0)
            && AtMostOneActive(out.reg)
  {
  }

  /** With A and B both marked active (a configuration the code does not rule out), a failed
      load of a new project at "/c" switches off only A, the first active project; B stays
      the active project. */
  lemma FailedSwitchWithTwoActive()
    ensures var C := Project("/c", None, [], false);
            var s := Server(Registry([0, 1], map[0 := A, 1 := B.(active := true), 2 := C], 3), Some(Static("/a")));
            var r := LoadProject(s, 2, p => p == "/a", (p, c) => p == c);
            && !r.ok
            && r.server.reg.projects == [0, 1, 2]
            && !r.server.reg.store[0].active && r.server.reg.store[1].active
            && ActiveProject(r.server.reg) == Some(1)
  {
    var C := Project("/c", None, [], false);
    var reg := Registry([0, 1], map[0 := A, 1 := B.(active := true), 2 := C], 3);
    var eq := (p: string, c: string) => p == c;
    assert FindProject(reg, eq, "/c").None?;
    var reg1 := Register(reg, 2, eq);
    assert reg1.projects == [0, 1, 2];
    assert ActiveProject(reg1) == Some(0);
    var out := SwitchTo(reg, 2, eq, false);
    assert out.store[0] == A.(active := false) && out.store[1] == B.(active := true) && out.store[2] == C;
    assert ActiveFrom(out.projects, out.store, 0) == Some(1);
  }
}
