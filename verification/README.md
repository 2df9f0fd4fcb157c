# F5 server project registry and activation — a Dafny model

PyF5 is a local development server with live reload. It keeps an ordered list of
registered projects in its configuration, each with an `active` flag that is normally set
on one of them, serves one
project's files (or forwards to its `targetHost`) through the last routes installed, and
switches projects with `F5Server.load_project`. This project models that registry and activation logic of
`pyf5/server.py`:

- `active_project` and `find_project`, the two first-match scans over the project list;
- `load_project`: register the target unless a listed project covers its path, switch
  off the first active project, check that the target path exists, then (on success)
  choose the routing mode — proxy when `targetHost` is set, static otherwise;
- `current_project_path`;
- the reload of the active project in `F5Server.__init__`.

Python objects have identity, and the code relies on it: the target may be the very
object already in the list (start-up reload), or a new object that is never appended
because a listed project covers its path, in which case setting its `active` flag
changes nothing in the list. The model therefore keeps references in the list
(`Registry.projects: seq<Ref>`) and the records in a store (`Registry.store`), so the
same object may even appear twice in the list. `path_is_parent` and `os.path.exists`
are function parameters (`isParent`, `pathExists`); nothing is assumed about them, not
even that a path is its own parent.

Files:

- `optional.dfy` — `Option`, Python's "object or None".
- `projects.dfy` — module `Projects`: the `Project` record, the registry, the lookups,
  the registry half of `load_project` (`SwitchTo`) and the facts about it.
- `server.dfy` — module `Server`: routing modes, `LoadProject`, start-up reload,
  activation requests and runs of them.
- `scenarios.dfy` — module `Scenarios`: concrete two-project runs.

Behaviour of the code worth knowing, all stated by the model:

- A failed load has already switched off the first active project (lines 74-75) before
  the existence check returns False at line 81, and the routes installed by the previous
  load stay in place. When at most one listed project was active before, no listed project
  is active afterwards (`Scenarios.FailedSwitchLeavesNoneActive`); a configuration with two
  active projects keeps the second one active (`Scenarios.FailedSwitchWithTwoActive`).
- Registration is skipped when any listed project's path is a parent of the target's
  path, and `find_project` returns the first such project in list order (lines 71, 103-107).
- A new descriptor that is not appended (a listed project covers its path) is set active
  when its path exists and is served, while — if at most one listed project was active
  before — no listed project is active (`Scenarios.CoveredDescriptorStaysUnlisted`).

## Model

| member | source | states |
|---|---|---|
| Projects.ActiveFrom | pyf5/server.py:65-68 | the scan from a position on returns the first position holding an active project, and None exactly when no later position is active |
| Projects.ActiveProject | pyf5/server.py:63-68 | the result is None exactly when no listed project is active; otherwise it is a listed active object, the one at the first active position of the list |
| Projects.FindFrom | pyf5/server.py:104-107 | the scan from a position on returns the first position whose path the parent test accepts for the child, and None exactly when there is none |
| Projects.FindProject | pyf5/server.py:103-107 | the result is None exactly when no listed project's path is a parent of the child; otherwise it is a listed covering object, the one at the first covering position of the list |
| Projects.CurrentProjectPath | pyf5/server.py:109-112 | None exactly when no listed project is active; otherwise the path of the first active listed project |
| Projects.ActiveAfterAppend | pyf5/server.py:64-72 | appending to the list keeps the first active position when there is one, and otherwise the appended entry is first exactly when it is active |
| Projects.SwitchTo | pyf5/server.py:70-81 | the target is appended exactly when no listed project covers its path; its flag ends equal to the existence answer; the previously first-active project is switched off even on failure; no other object changes; with at most one active project before, only the target can be active after, and it is the active project exactly when it is listed and its path exists |
| Projects.SwitchedOff | pyf5/server.py:71-75 | the object switched off after registration is the registry's first active one, or, when none was active, possibly the appended target itself |
| Projects.OnlyTargetLeft | pyf5/server.py:71-75 | with at most one active object before, once the target is registered and the first active object is switched off, no listed object other than the target is active |
| Projects.OnlyActiveAfterSet | pyf5/server.py:77-80 | when only the target may be active, setting its flag keeps at most one active, and the active project becomes the target exactly when the flag is set and the target is listed |
| Projects.SwitchTwiceSameList | pyf5/server.py:71-72 | a second registration of the same target leaves the list unchanged exactly when the first found a covering project or the parent test accepts the target's path as its own parent |
| Server.ModeFor | pyf5/server.py:85-92 | proxy mode exactly when `targetHost` is set and non-empty, forwarding to that host; otherwise static mode rooted at the project path |
| Server.LoadProject | pyf5/server.py:70-101 | succeeds exactly when the target path exists; the registry changes as the registry steps do with that answer; a failed load leaves the installed routes untouched; a successful one installs the target's mode |
| Server.Startup | pyf5/server.py:42-43 | with no active project nothing changes; otherwise the active object is loaded again, appended a second time only if the parent test rejects its own path; if its path exists it stays the active project with its mode installed and no object changes; if not, the routes are untouched and, when at most one listed project was active, no project is active |
| Projects.ReloadActive | pyf5/server.py:42-43 | switching to the first active object itself with its path found switches it off and back on, so every object ends as it started and it is still the active project |
| Server.Activate | pyf5/server.py:70-81 | an activation keeps the registry well formed, only appends to the list, succeeds exactly when the requested path exists, and keeps at most one listed project active |
| Projects.Allocate | pyf5/server.py:70 | a new target object gets a reference no object had, holds the given record, is not listed, and every existing object is unchanged |
| Projects.Register | pyf5/server.py:71-72 | the target is appended at the end of the list exactly when no listed project's path is a parent of its path, and the list is unchanged otherwise |
| Projects.DeactivateFirst | pyf5/server.py:74-75 | the first active listed project has its flag cleared and every other object is unchanged; with no active project nothing changes |
| Projects.SetActive | pyf5/server.py:77-80 | the target object's flag takes the given value and every other object and the list are unchanged |
| Projects.SwitchKeepsRecords | pyf5/server.py:70-81 | the registry steps of a load change only `active` flags, so every object keeps its path, target host and mute list |
| Projects.SwitchTwiceSameObjects | pyf5/server.py:70-81 | with at most one listed project active before, running the registry steps a second time for the same target and existence answer leaves every object exactly as the first run left it |
| Server.Run | pyf5/server.py:70-81 | after any sequence of activations, including ones that come back to a project added earlier in the run, the registry is well formed, no object is lost, the starting list is a prefix of the final one, and at most one listed project is active if that held at the start |
| Server.FreshThenExisting | pyf5/server.py:70 | after a new descriptor is activated, a later request can name the object it became |
| Server.LoadTwice | pyf5/server.py:70-101 | with at most one listed project active before, loading the same target twice gives the same outcome, the same routes and the same objects as loading once; the list differs only when the first load appended the target and the parent test rejects its own path |
| Scenarios.SwitchToProxy | pyf5/server.py:70-92 | switching from an active static project to a proxied one switches the first off, the second on, and installs proxy mode to its host |
| Scenarios.FailedSwitchLeavesNoneActive | pyf5/server.py:74-81 | a load of a missing path fails and leaves no project active while the previous routes stay installed |
| Scenarios.FailedSwitchWithTwoActive | pyf5/server.py:74-81 | when two listed projects are active, a failed load switches off only the first, and the second stays the active project |
| Scenarios.CoveredDescriptorStaysUnlisted | pyf5/server.py:71-78 | a new descriptor under a listed project's path is not appended; it becomes active on its own and the registry has no active project |
| Scenarios.StartupDuplicatesActive | pyf5/server.py:42-43 | with a parent test that never holds, the start-up reload appends the active object a second time and it stays the active project |

## Left out

- Routing table surgery (lines 83-84, 93-94): popping the last handler group and moving
  the first one behind the fixed handlers depends on Tornado's handler list; the model
  keeps only the installed mode (`Server.tail`). The redirect target of static mode
  (`/_/index.html?ver=` plus the version) and the class-level `forward_host` assignment
  are folded into the mode value.
- Watcher arming (lines 46-51, 96-98): filesystem notification through `ChangesWatcher`,
  which is not part of this model.
- Configuration loading and saving (lines 53-61): disk I/O and the `Config.load` format;
  the registry is an input value.
- Change broadcast (lines 114-115): concurrency inside `ChangeRequestHandler`, which is
  not part of this model.
- Module-level mode selection and application settings (lines 16-40) and the `print` at line 100.
- Truthiness of `Project` objects: lines 42, 71, 74 and 110 test a project object for
  truth; the model takes every object to be truthy, since the `Project` class (in
  `pyf5/models`) is not part of this model and nothing there is known to override it.
- `path_is_parent` (in `pyf5/utils`) and `os.path.exists`: parameters, uninterpreted.
- Concurrency: the server is single-threaded around `load_project`; the model is sequential.
- Creation of new project descriptors happens in the API handler, which is not part of
  this model; `Projects.Allocate` stands for it by giving a new record a fresh reference.
- Server.Run: a request naming a reference that no object has is skipped; Python cannot express such a request, since a target is always an object.
- Server.Run: the filesystem is one fixed `pathExists` answer for the whole run, because the model has no filesystem changes between loads.
