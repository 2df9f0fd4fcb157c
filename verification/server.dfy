/**
 * Project activation of the F5 server (`F5Server.load_project` and the start-up
 * reload in `F5Server.__init__`).
 *
 * The routing table surgery is reduced to the routing mode it installs: the
 * dynamic tail is either one catch-all route forwarding to a host (proxy mode)
 * or a root redirect plus a catch-all file handler rooted at the project path
 * (static mode). The filesystem test `os.path.exists` and `path_is_parent` are
 * parameters.
 */
module Server {
  import opened Optional
  import opened Projects

  /** The project-serving tail of the routing table. */
  datatype Mode =
    | Proxy(host: string)   // one catch-all route forwarding every request to `host`
    | Static(root: string)  // "/" redirects to the dashboard; a catch-all serves files under `root`

  /** The server state the model tracks: the registry and the installed tail (None before any load). */
  datatype Server = Server(reg: Registry, tail: Option<Mode>)

  /** What `load_project` leaves behind and returns. */
  datatype Loaded = Loaded(server: Server, ok: bool)

  /** Lines 85-92: the tail installed for a project. */
  function ModeFor(p: Project): (m: Mode)
    ensures m.Proxy? <==> HasTargetHost(p)
    ensures m.Proxy? ==> Some(m.host) == p.targetHost
    ensures m.Static? ==> m.root == p.path
  {
    if HasTargetHost(p) then Proxy(p.targetHost.value) else Static(p.path)
  }

  /**
   * `load_project(target)`, where `t` is the target object: either one already
   * listed (as at start-up) or one that is not (a new descriptor).
   * `pathExists` stands for `os.path.exists`, `isParent` for `path_is_parent`.
   */
  function LoadProject(s: Server, t: Ref, pathExists: string -> bool, isParent: (string, string) -> bool): (r: Loaded)
    requires Valid(s.reg) && t in s.reg.store
    ensures Valid(r.server.reg) && r.server.reg.store.Keys == s.reg.store.Keys && r.server.reg.next == s.reg.next
    // the registry steps (registration, deactivation, flag) use the existence check's answer
    ensures r.server.reg == SwitchTo(s.reg, t, isParent, r.ok)
    // success exactly when the target's path exists
    ensures r.ok <==> pathExists(s.reg.store[t].path)
    // a failed load returns before the routes are touched; a successful one installs the target's mode
    ensures !r.ok ==> r.server.tail == s.tail
    ensures r.ok ==> r.server.tail == Some(ModeFor(s.reg.store[t]))
  {
    var found := pathExists(s.reg.store[t].path);
    Loaded(Server(SwitchTo(s.reg, t, isParent, found), if found then Some(ModeFor(s.reg.store[t])) else s.tail), found)
  }


  /**
   * Lines 42-43 of `F5Server.__init__`: the active project of the loaded configuration is
   * loaded again. The target is the very object already in the list, so when `isParent`
   * does not report its path as its own parent the object is appended a second time.
   */
  function Startup(s: Server, pathExists: string -> bool, isParent: (string, string) -> bool): (out: Server)
    requires Valid(s.reg)
    ensures Valid(out.reg) && s.reg.projects <= out.reg.projects
    ensures ActiveProject(s.reg).None? ==> out == s
    ensures ActiveProject(s.reg).Some? ==>
              var a := ActiveProject(s.reg).value;
              && (out.reg.projects == s.reg.projects || out.reg.projects == s.reg.projects + [a])
              && (isParent(s.reg.store[a].path, s.reg.store[a].path) ==> out.reg.projects == s.reg.projects)
    // reloading an existing path: the object is switched off and straight back on, so no object changes
    ensures ActiveProject(s.reg).Some? && pathExists(s.reg.store[ActiveProject(s.reg).value].path) ==>
              var a := ActiveProject(s.reg).value;
              && out.reg.store == s.reg.store
              && ActiveProject(out.reg) == Some(a)
              && out.tail == Some(ModeFor(s.reg.store[a]))
    // reloading a missing path returns before the routes are touched
    ensures ActiveProject(s.reg).Some? && !pathExists(s.reg.store[ActiveProject(s.reg).value].path) ==>
              out.tail == s.tail
    // ... and, with at most one active project before, leaves none active
    ensures ActiveProject(s.reg).Some? && AtMostOneActive(s.reg)
            && !pathExists(s.reg.store[ActiveProject(s.reg).value].path) ==>
              ActiveProject(out.reg).None?
  {
    match ActiveProject(s.reg)
    case None => s
    case Some(a) =>
      ReloadActive(s.reg, isParent);
      LoadProject(s, a, pathExists, isParent).server
  }

  /** An activation request: an object the server already holds, or a new project descriptor. */
  datatype Request = Existing(target: Ref) | Fresh(record: Project)

  predicate Targets(reg: Registry, req: Request)
  {
    req.Existing? ==> req.target in reg.store
  }

  /** The path a request asks to activate. */
  function RequestPath(reg: Registry, req: Request): string
    requires Targets(reg, req)
  {
    match req
    case Existing(t) => reg.store[t].path
    case Fresh(p) => p.path
  }

  /** One activation: a new descriptor becomes a new object first, then `load_project` runs. */
  function Activate(s: Server, req: Request, pathExists: string -> bool, isParent: (string, string) -> bool): (r: Loaded)
    requires Valid(s.reg) && Targets(s.reg, req)
    ensures Valid(r.server.reg) && s.reg.store.Keys <= r.server.reg.store.Keys
    ensures s.reg.projects <= r.server.reg.projects && |r.server.reg.projects| <= |s.reg.projects| + 1
    ensures r.ok <==> pathExists(RequestPath(s.reg, req))
    ensures req.Fresh? ==> s.reg.next in r.server.reg.store && r.server.reg.store[s.reg.next].path == req.record.path
    ensures AtMostOneActive(s.reg) ==> AtMostOneActive(r.server.reg)
  {
    match req
    case Existing(t) => LoadProject(s, t, pathExists, isParent)
    case Fresh(p) =>
      var reg := Allocate(s.reg, p);
      assert AtMostOneActive(s.reg) ==> AtMostOneActive(reg) by {
        assert forall i :: 0 <= i < |reg.projects| ==> reg.store[reg.projects[i]] == s.reg.store[s.reg.projects[i]];
      }
      LoadProject(Server(reg, s.tail), s.reg.next, pathExists, isParent)
  }

  /** A run of activations against one filesystem: activations only ever append to the list,
      and at most one listed project stays active if that held at the start. Each request is
      checked against the objects that exist at its turn, so a request may name an object an
      earlier request of the run created; a reference no object has is skipped. */
  function Run(s: Server, reqs: seq<Request>, pathExists: string -> bool, isParent: (string, string) -> bool): (out: Server)
    requires Valid(s.reg)
    ensures Valid(out.reg) && s.reg.store.Keys <= out.reg.store.Keys
    ensures s.reg.projects <= out.reg.projects
    ensures AtMostOneActive(s.reg) ==> AtMostOneActive(out.reg)
    decreases |reqs|
  {
    if reqs == [] then s
    else
      var next := if Targets(s.reg, reqs[0]) then Activate(s, reqs[0], pathExists, isParent).server else s;
      var out := Run(next, reqs[1..], pathExists, isParent);
      PrefixTransitive(s.reg.projects, next.reg.projects, out.reg.projects);
      out
  }

  /** A new descriptor gets the registry's fresh reference, so a later request of the same run
      can select that object again. */
  lemma FreshThenExisting(s: Server, p: Project, pathExists: string -> bool, isParent: (string, string) -> bool)
    requires Valid(s.reg)
    ensures Targets(Activate(s, Fresh(p), pathExists, isParent).server.reg, Existing(s.reg.next))
  {
  }

  /** Loading the same project twice installs the same routes, reports the same outcome and
      leaves every object as loading once did; only the list can differ, by a second copy of
      the target, and only when `isParent` does not report its path as its own parent. */
  lemma LoadTwice(s: Server, t: Ref, pathExists: string -> bool, isParent: (string, string) -> bool)
    requires Valid(s.reg) && t in s.reg.store && AtMostOneActive(s.reg)
    ensures var once := LoadProject(s, t, pathExists, isParent);
            var twice := LoadProject(once.server, t, pathExists, isParent);
            var path := s.reg.store[t].path;
            && twice.ok == once.ok
            && twice.server.tail == once.server.tail
            && twice.server.reg.store == once.server.reg.store
            && (twice.server.reg.projects == once.server.reg.projects
                <==> FindProject(s.reg, isParent, path).Some? || isParent(path, path))
  {
    var once := LoadProject(s, t, pathExists, isParent);
    SwitchKeepsRecords(s.reg, t, isParent, once.ok);
    SwitchTwiceSameObjects(s.reg, t, isParent, once.ok);
    SwitchTwiceSameList(s.reg, t, isParent, once.ok);
  }

  lemma PrefixTransitive<T>(a: seq<T>, b: seq<T>, c: seq<T>)
    requires a <= b && b <= c
    ensures a <= c
  {
  }
}
