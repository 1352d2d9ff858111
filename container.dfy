/**
 * Container bookkeeping of the Docker service (backend/src/services/container.ts).
 *
 * The module keeps three tables: the registry of running containers keyed by
 * "<userId>-<projectId>", the ids of containers between create and start
 * (protected from the orphan reaper) and the ledger of host ports in use.
 * Docker, the image store and the operating system's port probe are oracles:
 * their answers are parameters, and the calls made to the runtime are recorded
 * in a log.
 */
module Container {
  import opened Results
  import opened Strings
  import Environment

  // ------------------------------------------------------------------ constants

  /** First host port tried. */
  const PortRangeStart := 21000
  /** Declared next to the start of the range but never consulted by the scan. */
  const PortRangeSize := 10
  /** The scan stops before this port: 1000 candidates. */
  const PortScanEnd := PortRangeStart + 1000
  /** Container ports 5000..5010 are published. */
  const FirstContainerPort := 5000
  const LastContainerPort := 5010
  const PublishedPortCount := LastContainerPort - FirstContainerPort + 1

  const DefaultImage := "node:20-alpine"

  // ------------------------------------------------------------------ data

  /** `ContainerInfo`: a running container of one project. */
  datatype ContainerInfo = ContainerInfo(
    containerId: string,
    environment: string,
    ports: map<int, int>,   // container port -> host port
    projectPath: string)

  /** What `container.inspect()` reports: running, stopped, or an exception. */
  datatype InspectOutcome = Running | NotRunning | InspectFailed

  /** The exception a failed `spawnContainer` propagates. */
  datatype SpawnError = ImagePullFailed | NoAvailablePorts | CreateFailed | StartFailed

  /**
   * Calls made to the container runtime, in order, whether or not they succeeded.
   * A start records the ids held pending while it runs, which the reaper skips.
   */
  datatype RuntimeCall =
    | Create(image: string, mountPath: string, ports: map<int, int>, userId: string, projectId: string)
    | Start(id: string, pending: set<string>)
    | Stop(id: string, graceSeconds: int)
    | Remove(id: string)

  // ------------------------------------------------------------------ keys

  /** `getContainerKey`: `${userId}-${projectId}`. */
  function ContainerKey(userId: string, projectId: string): (key: string)
    ensures |key| == |userId| + 1 + |projectId| && key[|userId|] == '-'
  {
    userId + "-" + projectId
  }

  /**
   * How `cleanupAllContainers` recovers the ids from a key: `key.split('-')`
   * destructured into its first two parts (a missing second part is `undefined`).
   */
  function KeyParts(key: string): (string, string) {
    var parts := Split(key, '-');
    (parts[0], if |parts| >= 2 then parts[1] else "undefined")
  }

  /** The key `stopContainer` rebuilds from the recovered ids. */
  function RecoveredKey(key: string): string {
    ContainerKey(KeyParts(key).0, KeyParts(key).1)
  }

  /** Rebuilding a key gives it back exactly when it holds a single '-'. */
  lemma RecoveredKeyIff(key: string)
    requires '-' in key
    ensures RecoveredKey(key) == key <==> Count(key, '-') == 1
  {
    var parts := Split(key, '-');
    SplitCount(key, '-');
    CountZero(key, '-');
    assert |parts| >= 2;
    var rebuilt := parts[0] + "-" + parts[1];
    CountJoin([parts[0], parts[1]], '-');
    assert Join([parts[0], parts[1]], '-') == rebuilt by {
      assert [parts[0], parts[1]][1..] == [parts[1]];
    }
    if |parts| == 2 {
      JoinSplit(key, '-');
      assert parts == [parts[0], parts[1]];
    }
  }

  /**
   * The key round trip of the reaper: the ids come back unchanged exactly when
   * neither contains '-'; otherwise `stopContainer` is called with other ids.
   */
  lemma KeyRoundTrip(userId: string, projectId: string)
    ensures KeyParts(ContainerKey(userId, projectId)) == (userId, projectId)
        <==> '-' !in userId && '-' !in projectId
    ensures RecoveredKey(ContainerKey(userId, projectId)) == ContainerKey(userId, projectId)
        <==> '-' !in userId && '-' !in projectId
  {
    var key := ContainerKey(userId, projectId);
    assert key == userId + ['-'] + projectId;
    CountAppend(userId + ['-'], projectId, '-');
    CountAppend(userId, ['-'], '-');
    CountZero(userId, '-');
    CountZero(projectId, '-');
    assert key[|userId|] == '-';
    RecoveredKeyIff(key);
    if '-' !in userId && '-' !in projectId {
      SplitAt(userId, projectId, '-');
      SplitNoSep(projectId, '-');
    }
  }

  // ------------------------------------------------------------------ images and paths

  /** `ENVIRONMENT_IMAGES[environment] || 'node:20-alpine'`. */
  function ImageFor(environment: string): (image: string)
    ensures image in {"python:3.11-alpine", "node:20-alpine", "openjdk:17-alpine"}
  {
    if environment == "python" then "python:3.11-alpine"
    else if environment == "node" then "node:20-alpine"
    else if environment == "java" then "openjdk:17-alpine"
    else if environment == "base" then "node:20-alpine"
    else DefaultImage
  }

  /**
   * The image a detected environment leads to: Python projects get the Python
   * image, everything else ("multi" included, which has no entry) the Node image.
   */
  lemma DetectedEnvironmentImage(root: seq<Environment.RootEntry>)
    ensures var env := Environment.DetectEnvironment(root).environment;
      ImageFor(Environment.EnvironmentName(env))
        == if env == Environment.Python then "python:3.11-alpine" else DefaultImage
  {
    Environment.DetectEnvironmentTable(root);
  }

  /** An unknown environment name falls back to the Node image. */
  lemma ImageFallback(environment: string)
    requires environment !in {"python", "node", "java", "base"}
    ensures ImageFor(environment) == DefaultImage
  {
  }

  predicate IsAsciiLetter(c: char) {
    'a' <= c <= 'z' || 'A' <= c <= 'Z'
  }

  /** `p.replace(/\\/g, '/')`. */
  function ForwardSlashes(p: string): (r: string)
    ensures |r| == |p|
    ensures forall i :: 0 <= i < |p| ==> r[i] == if p[i] == '\\' then '/' else p[i]
  {
    if p == [] then [] else [if p[0] == '\\' then '/' else p[0]] + ForwardSlashes(p[1..])
  }

  /** `/^[a-zA-Z]:\//` */
  predicate DrivePrefix(p: string) {
    |p| >= 3 && IsAsciiLetter(p[0]) && p[1] == ':' && p[2] == '/'
  }

  /**
   * The bind-mount path fix: on Windows, backslashes become slashes and a drive
   * letter at the start is lower-cased; elsewhere the path is kept.
   */
  function MountPath(resolved: string, win32: bool): (r: string)
    ensures |r| == |resolved|
    ensures !win32 ==> r == resolved
    ensures win32 ==> '\\' !in r
    ensures win32 && DrivePrefix(ForwardSlashes(resolved)) ==>
      'a' <= r[0] <= 'z' && r[0] == LowerChar(resolved[0]) && r[1..] == ForwardSlashes(resolved)[1..]
    ensures win32 && !DrivePrefix(ForwardSlashes(resolved)) ==> r == ForwardSlashes(resolved)
  {
    if !win32 then resolved
    else
      var p := ForwardSlashes(resolved);
      if DrivePrefix(p) then [LowerChar(p[0])] + p[1..] else p
  }

  /** Applying the fix to a fixed path changes nothing. */
  lemma MountPathIdempotent(resolved: string, win32: bool)
    ensures MountPath(MountPath(resolved, win32), win32) == MountPath(resolved, win32)
  {
    if win32 {
      var p := ForwardSlashes(resolved);
      var once := MountPath(resolved, true);
      assert ForwardSlashes(once) == once;
      if DrivePrefix(p) {
        assert DrivePrefix(once);
        assert LowerChar(once[0]) == once[0];
        assert [once[0]] + once[1..] == once;
      }
    }
  }

  // ------------------------------------------------------------------ port search

  /** A port the scan accepts: inside the scanned range, not in the ledger, and the probe binds it. */
  predicate PortFree(used: set<int>, probe: int -> bool, port: int) {
    PortRangeStart <= port < PortScanEnd && port !in used && probe(port)
  }

  /** The scan of `findAvailablePort` from `from` upwards. */
  function FirstFreeFrom(used: set<int>, probe: int -> bool, from: int): Option<int>
    decreases PortScanEnd - from
  {
    if from >= PortScanEnd then None
    else if from !in used && probe(from) then Some(from)
    else FirstFreeFrom(used, probe, from + 1)
  }

  function FirstFreePort(used: set<int>, probe: int -> bool): Option<int> {
    FirstFreeFrom(used, probe, PortRangeStart)
  }

  lemma {:induction false} FirstFreeFromSpec(used: set<int>, probe: int -> bool, from: int)
    requires PortRangeStart <= from
    decreases PortScanEnd - from
    ensures var r := FirstFreeFrom(used, probe, from);
      && (r.Some? ==> from <= r.value && PortFree(used, probe, r.value))
      && (r.Some? ==> forall q :: from <= q < r.value ==> !PortFree(used, probe, q))
      && (r.None? <==> forall q :: from <= q ==> !PortFree(used, probe, q))
  {
    if from >= PortScanEnd {
    } else if from !in used && probe(from) {
      assert PortFree(used, probe, from);
    } else {
      assert !PortFree(used, probe, from);
      FirstFreeFromSpec(used, probe, from + 1);
    }
  }

  /**
   * `findAvailablePort` picks the lowest port of [21000, 22000) that is free in
   * the ledger and passes the probe, and finds none exactly when no port qualifies.
   */
  lemma FirstFreePortIsLowest(used: set<int>, probe: int -> bool, port: int)
    ensures FirstFreePort(used, probe) == Some(port) <==>
      PortFree(used, probe, port) && forall q :: PortRangeStart <= q < port ==> !PortFree(used, probe, q)
    ensures FirstFreePort(used, probe).None? <==> forall q :: !PortFree(used, probe, q)
  {
    FirstFreeFromSpec(used, probe, PortRangeStart);
    var r := FirstFreePort(used, probe);
    if PortFree(used, probe, port) && (forall q :: PortRangeStart <= q < port ==> !PortFree(used, probe, q)) {
      assert r.Some?;
      assert PortFree(used, probe, r.value);
    }
  }

  /** The ports `lo`..`hi - 1`. */
  function PortsBetween(lo: int, hi: int): (r: set<int>)
    decreases hi - lo
    ensures forall q :: q in r <==> lo <= q < hi
  {
    if lo >= hi then {} else {lo} + PortsBetween(lo + 1, hi)
  }

  /** A probe under which every port can be bound. */
  predicate AlwaysBinds(port: int) {
    true
  }

  /** `PORT_RANGE_SIZE` does not bound the scan: with 500 ports taken, the 501st is handed out. */
  lemma ScanIgnoresRangeSize()
    ensures FirstFreePort(PortsBetween(PortRangeStart, PortRangeStart + 500), AlwaysBinds)
         == Some(PortRangeStart + 500)
  {
    FirstFreePortIsLowest(PortsBetween(PortRangeStart, PortRangeStart + 500), AlwaysBinds, PortRangeStart + 500);
  }

  // ------------------------------------------------------------------ binding the 11 ports

  /**
   * The ports the binding loop of `spawnContainer` obtains for container ports
   * `cp`..5010, each search seeing the ledger grown by the previous ones, and
   * whether it got all of them (false: 'No available ports' was thrown).
   */
  function Allocation(used: set<int>, probe: int -> bool, cp: int): (a: (seq<int>, bool))
    decreases LastContainerPort + 1 - cp
  {
    if cp > LastContainerPort then ([], true)
    else match FirstFreePort(used, probe)
      case None => ([], false)
      case Some(h) =>
        var rest := Allocation(used + {h}, probe, cp + 1);
        ([h] + rest.0, rest.1)
  }

  function Elems(s: seq<int>): set<int> {
    set x | x in s
  }

  lemma ElemsSnoc(s: seq<int>, x: int)
    ensures Elems(s + [x]) == Elems(s) + {x}
  {
  }

  /** One step of the allocation, seen from the ports picked so far. */
  lemma AllocationSplit(used: set<int>, probe: int -> bool, cp: int, picked: seq<int>)
    ensures cp > LastContainerPort ==> picked + Allocation(used, probe, cp).0 == picked && Allocation(used, probe, cp).1
    ensures cp <= LastContainerPort && FirstFreePort(used, probe).None? ==>
      picked + Allocation(used, probe, cp).0 == picked && !Allocation(used, probe, cp).1
    ensures cp <= LastContainerPort && FirstFreePort(used, probe).Some? ==>
      var h := FirstFreePort(used, probe).value;
      && picked + Allocation(used, probe, cp).0 == (picked + [h]) + Allocation(used + {h}, probe, cp + 1).0
      && Allocation(used, probe, cp).1 == Allocation(used + {h}, probe, cp + 1).1
  {
    if cp > LastContainerPort || FirstFreePort(used, probe).None? {
      assert picked + [] == picked;
    } else {
      var h := FirstFreePort(used, probe).value;
      var rest := Allocation(used + {h}, probe, cp + 1).0;
      assert picked + ([h] + rest) == (picked + [h]) + rest;
    }
  }

  predicate Distinct(s: seq<int>) {
    forall i, j :: 0 <= i < j < |s| ==> s[i] != s[j]
  }

  lemma {:induction false} AllocationSpec(used: set<int>, probe: int -> bool, cp: int)
    requires FirstContainerPort <= cp <= LastContainerPort + 1
    decreases LastContainerPort + 1 - cp
    ensures var (picked, complete) := Allocation(used, probe, cp);
      && (complete <==> |picked| == LastContainerPort + 1 - cp)
      && |picked| <= LastContainerPort + 1 - cp
      && (forall i :: 0 <= i < |picked| ==> PortFree(used, probe, picked[i]))
      && Distinct(picked)
      && (!complete ==> forall q :: !PortFree(used + Elems(picked), probe, q))
  {
    if cp <= LastContainerPort {
      var r := FirstFreePort(used, probe);
      FirstFreePortIsLowest(used, probe, 0);
      if r.Some? {
        var h := r.value;
        FirstFreePortIsLowest(used, probe, h);
        AllocationSpec(used + {h}, probe, cp + 1);
        var rest := Allocation(used + {h}, probe, cp + 1);
        var picked := [h] + rest.0;
        forall i | 0 <= i < |picked| ensures PortFree(used, probe, picked[i]) {
          if i > 0 {
            assert picked[i] == rest.0[i - 1];
            assert PortFree(used + {h}, probe, rest.0[i - 1]);
          }
        }
        forall i, j | 0 <= i < j < |picked| ensures picked[i] != picked[j] {
          assert picked[j] == rest.0[j - 1];
          assert PortFree(used + {h}, probe, rest.0[j - 1]);
          if i > 0 {
            assert picked[i] == rest.0[i - 1];
          }
        }
        assert used + Elems(picked) == used + {h} + Elems(rest.0);
      } else {
        assert Allocation(used, probe, cp) == ([], false);
        assert used + Elems([]) == used;
      }
    }
  }

  /**
   * The binding loop is not rolled back when it throws: in this run the first
   * search takes port 21000 and the second finds nothing, so 21000 stays in the ledger.
   */
  predicate OnlyFirstPortBinds(port: int) {
    port == PortRangeStart
  }

  lemma AllocationFailureKeepsPorts()
    ensures Allocation({}, OnlyFirstPortBinds, FirstContainerPort) == ([PortRangeStart], false)
  {
    assert PortFree({}, OnlyFirstPortBinds, PortRangeStart);
    FirstFreePortIsLowest({}, OnlyFirstPortBinds, PortRangeStart);
    assert FirstFreePort({}, OnlyFirstPortBinds) == Some(PortRangeStart);
    FirstFreePortIsLowest({PortRangeStart}, OnlyFirstPortBinds, 0);
    forall q ensures !PortFree({PortRangeStart}, OnlyFirstPortBinds, q) {
    }
    assert FirstFreePort({PortRangeStart}, OnlyFirstPortBinds).None?;
    assert {} + {PortRangeStart} == {PortRangeStart};
    assert Allocation({PortRangeStart}, OnlyFirstPortBinds, FirstContainerPort + 1) == ([], false);
    var rest := Allocation({} + {PortRangeStart}, OnlyFirstPortBinds, FirstContainerPort + 1);
    assert rest == ([], false);
    assert Allocation({}, OnlyFirstPortBinds, FirstContainerPort) == ([PortRangeStart] + rest.0, rest.1);
    assert [PortRangeStart] + rest.0 == [PortRangeStart];
  }

  /** The port map `ports`: container port `base + i` is bound to host port `picked[i]`. */
  function PortMap(picked: seq<int>, base: int): (m: map<int, int>)
    ensures forall k :: k in m <==> base <= k < base + |picked|
    ensures forall k :: k in m ==> m[k] == picked[k - base]
  {
    if picked == [] then map[]
    else PortMap(picked[..|picked| - 1], base)[base + |picked| - 1 := picked[|picked| - 1]]
  }

  lemma PortMapSnoc(picked: seq<int>, base: int, h: int)
    ensures PortMap(picked + [h], base) == PortMap(picked, base)[base + |picked| := h]
  {
    assert (picked + [h])[..|picked|] == picked;
  }

  /** No two container ports share a host port. */
  predicate Injective(m: map<int, int>) {
    forall a, b :: a in m && b in m && a != b ==> m[a] != m[b]
  }

  lemma PortMapFacts(picked: seq<int>, base: int)
    requires Distinct(picked)
    ensures PortMap(picked, base).Values == Elems(picked)
    ensures Injective(PortMap(picked, base))
  {
    var m := PortMap(picked, base);
    forall v | v in Elems(picked) ensures v in m.Values {
      var i :| 0 <= i < |picked| && picked[i] == v;
      assert base + i in m && m[base + i] == v;
    }
    forall v | v in m.Values ensures v in Elems(picked) {
      var k :| k in m && m[k] == v;
      assert picked[k - base] == v;
    }
  }

  /**
   * A complete allocation maps each of the 11 container ports 5000..5010 to its own
   * host port, none of which was in the ledger before and all of which passed the probe.
   */
  lemma CompleteAllocationMap(used: set<int>, probe: int -> bool)
    requires Allocation(used, probe, FirstContainerPort).1
    ensures var picked := Allocation(used, probe, FirstContainerPort).0;
      var m := PortMap(picked, FirstContainerPort);
      && |picked| == PublishedPortCount
      && (forall k :: k in m <==> FirstContainerPort <= k <= LastContainerPort)
      && Injective(m)
      && m.Values == Elems(picked)
      && (forall h :: h in m.Values ==> PortFree(used, probe, h))
  {
    AllocationSpec(used, probe, FirstContainerPort);
    var picked := Allocation(used, probe, FirstContainerPort).0;
    PortMapFacts(picked, FirstContainerPort);
  }

  /** Every record's host ports: the union over a set of keys. */
  ghost function PortsOf(m: map<string, ContainerInfo>, keys: set<string>): set<int> {
    set k, h | k in keys && k in m && h in m[k].ports.Values :: h
  }

  /** The ids of the registered containers. */
  function ActiveIds(m: map<string, ContainerInfo>): (ids: set<string>)
    ensures forall k :: k in m ==> m[k].containerId in ids
    ensures forall id :: id in ids ==> exists k :: k in m && m[k].containerId == id
  {
    set k | k in m :: m[k].containerId
  }

  /** The containers the reaper removes: labelled ids, in listing order, that it must not skip. */
  function Orphans(listed: seq<string>, skip: set<string>): (r: seq<string>)
    ensures |r| <= |listed|
  {
    if listed == [] then []
    else
      var last := listed[|listed| - 1];
      Orphans(listed[..|listed| - 1], skip) + (if last in skip then [] else [last])
  }

  /** An id is reaped exactly when it is listed and neither registered nor pending. */
  lemma {:induction false} OrphansIff(listed: seq<string>, skip: set<string>, id: string)
    ensures id in Orphans(listed, skip) <==> id in listed && id !in skip
  {
    if listed != [] {
      OrphansIff(listed[..|listed| - 1], skip, id);
      assert listed == listed[..|listed| - 1] + [listed[|listed| - 1]];
    }
  }

  /** The keys `stopContainer` is called with when the registry holds `keys`. */
  function RecoveredKeys(keys: set<string>): set<string> {
    set k | k in keys :: RecoveredKey(k)
  }

  /** The registry without the records under `keys`. */
  function Without(m: map<string, ContainerInfo>, keys: set<string>): map<string, ContainerInfo> {
    map k | k in m && k !in keys :: m[k]
  }

  /** The registry left by the first pass of `cleanupAllContainers`. */
  function Unstopped(m: map<string, ContainerInfo>): map<string, ContainerInfo> {
    Without(m, RecoveredKeys(m.Keys))
  }

  /** The first pass stops every container whose key holds a single '-'. */
  lemma SingleDashKeysStopped(m: map<string, ContainerInfo>, key: string)
    requires key in m && Count(key, '-') == 1
    ensures key !in Unstopped(m)
  {
    CountZero(key, '-');
    RecoveredKeyIff(key);
    assert RecoveredKey(key) in RecoveredKeys(m.Keys);
  }

  /**
   * A project whose ids contain '-' survives the first pass: the registry holding
   * only "a-b-c" (user "a", project "b-c") is left as it is, because "a-b" is stopped instead.
   */
  lemma MultiDashKeySurvives(info: ContainerInfo)
    ensures Unstopped(map["a-b-c" := info]) == map["a-b-c" := info]
  {
    var m := map["a-b-c" := info];
    assert "a-b-c" == "a" + ['-'] + "b-c";
    SplitAt("a", "b-c", '-');
    assert "b-c" == "b" + ['-'] + "c";
    SplitAt("b", "c", '-');
    SplitNoSep("c", '-');
    assert Split("a-b-c", '-') == ["a", "b", "c"];
    assert RecoveredKey("a-b-c") == "a-b";
    assert RecoveredKeys(m.Keys) == {"a-b"};
  }

  /** The runtime calls for stopping a container: stop, then remove only if stop succeeded. */
  function StopCalls(id: string, grace: int, stopOk: bool): seq<RuntimeCall> {
    if stopOk then [Stop(id, grace), Remove(id)] else [Stop(id, grace)]
  }

  function ReapCalls(ids: seq<string>, stopOk: string -> bool): seq<RuntimeCall> {
    if ids == [] then [] else ReapCalls(ids[..|ids| - 1], stopOk) + StopCalls(ids[|ids| - 1], 1, stopOk(ids[|ids| - 1]))
  }

  lemma OrphansStep(listed: seq<string>, skip: set<string>, i: nat)
    requires i < |listed|
    ensures Orphans(listed[..i + 1], skip) == Orphans(listed[..i], skip) + (if listed[i] in skip then [] else [listed[i]])
  {
    assert listed[..i + 1][..i] == listed[..i];
  }

  lemma ReapCallsSnoc(ids: seq<string>, id: string, stopOk: string -> bool)
    ensures ReapCalls(ids + [id], stopOk) == ReapCalls(ids, stopOk) + StopCalls(id, 1, stopOk(id))
  {
    assert (ids + [id])[..|ids|] == ids;
  }

  /** Taking one more key out of the ones still to visit adds its recovered key. */
  lemma RecoveredKeysStep(keys: set<string>, remaining: set<string>, key: string)
    requires key in remaining && remaining <= keys
    ensures RecoveredKeys(keys - (remaining - {key})) == RecoveredKeys(keys - remaining) + {RecoveredKey(key)}
  {
    assert keys - (remaining - {key}) == (keys - remaining) + {key};
  }

  /** The keys an enumeration has visited. */
  function Visited(order: seq<string>): set<string> {
    set k | k in order
  }

  /** The calls `stopContainer` makes for `key` when the registry is `m`: none when the key is absent. */
  function StopCallsFor(m: map<string, ContainerInfo>, key: string, stopOk: string -> bool): seq<RuntimeCall> {
    if key in m then StopCalls(m[key].containerId, 5, stopOk(m[key].containerId)) else []
  }

  /**
   * The calls of the first pass of `cleanupAllContainers` when it visits the keys
   * of `m` in the order `order`: each key is rebuilt from its split and stopped in
   * the registry the earlier keys left.
   */
  function StopAllCalls(m: map<string, ContainerInfo>, order: seq<string>, stopOk: string -> bool): seq<RuntimeCall> {
    if order == [] then []
    else
      var init := order[..|order| - 1];
      StopAllCalls(m, init, stopOk)
        + StopCallsFor(Without(m, RecoveredKeys(Visited(init))), RecoveredKey(order[|order| - 1]), stopOk)
  }

  /** Every key of `order` in turn stopped in the registry `m` as it is. */
  function StopEach(m: map<string, ContainerInfo>, order: seq<string>, stopOk: string -> bool): seq<RuntimeCall> {
    if order == [] then [] else StopEach(m, order[..|order| - 1], stopOk) + StopCallsFor(m, order[|order| - 1], stopOk)
  }

  lemma StopAllCallsSnoc(m: map<string, ContainerInfo>, order: seq<string>, key: string, stopOk: string -> bool)
    ensures StopAllCalls(m, order + [key], stopOk)
         == StopAllCalls(m, order, stopOk) + StopCallsFor(Without(m, RecoveredKeys(Visited(order))), RecoveredKey(key), stopOk)
  {
    assert (order + [key])[..|order|] == order;
  }

  /**
   * When every key holds a single '-' and none repeats, the first pass sends each
   * registered container, in the order visited, a stop with 5 seconds of grace and
   * a remove if the stop succeeded.
   */
  lemma {:induction false} StopAllCallsSingleDash(m: map<string, ContainerInfo>, order: seq<string>, stopOk: string -> bool)
    requires forall i, j :: 0 <= i < j < |order| ==> order[i] != order[j]
    requires forall i :: 0 <= i < |order| ==> RecoveredKey(order[i]) == order[i]
    ensures StopAllCalls(m, order, stopOk) == StopEach(m, order, stopOk)
  {
    if order != [] {
      var init := order[..|order| - 1];
      var last := order[|order| - 1];
      StopAllCallsSingleDash(m, init, stopOk);
      assert last !in RecoveredKeys(Visited(init)) by {
        forall k | k in Visited(init) ensures RecoveredKey(k) != last {
          var i :| 0 <= i < |init| && init[i] == k;
          assert order[i] == k;
        }
      }
      assert StopCallsFor(Without(m, RecoveredKeys(Visited(init))), last, stopOk) == StopCallsFor(m, last, stopOk);
    }
  }

  lemma RecoveredVisitedSnoc(visited: seq<string>, key: string)
    ensures RecoveredKeys(Visited(visited + [key])) == RecoveredKeys(Visited(visited)) + {RecoveredKey(key)}
  {
    assert Visited(visited + [key]) == Visited(visited) + {key};
  }

  /** Visiting one more key of the ones still to visit. */
  lemma VisitedStep(keys: set<string>, remaining: set<string>, order: seq<string>, key: string)
    requires key in remaining && remaining <= keys
    requires Visited(order) == keys - remaining && |order| == |keys - remaining|
    ensures Visited(order + [key]) == keys - (remaining - {key})
    ensures |order + [key]| == |keys - (remaining - {key})|
  {
    assert keys - (remaining - {key}) == (keys - remaining) + {key};
    assert Visited(order + [key]) == Visited(order) + {key};
  }

  /** The map holds container ports 5000..5010 only. */
  predicate PortKeysInRange(ports: map<int, int>) {
    forall cp :: cp in ports ==> FirstContainerPort <= cp <= LastContainerPort
  }

  /** The host ports of the container ports below `cp`. */
  ghost function ValuesBelow(ports: map<int, int>, cp: int): set<int> {
    set k | k in ports && k < cp :: ports[k]
  }

  lemma ValueHasKey<K, V>(m: map<K, V>, v: V)
    requires v in m.Values
    ensures exists k :: k in m && m[k] == v
  {
  }

  /** The registry after `getContainer`: a record whose inspection throws is dropped. */
  function AfterInspect(m: map<string, ContainerInfo>, key: string, inspect: InspectOutcome): (r: map<string, ContainerInfo>)
    ensures r.Keys <= m.Keys
    ensures forall k :: k in r ==> r[k] == m[k]
    ensures key in m && inspect == InspectFailed ==> key !in r
    ensures forall k :: k in m && (k != key || inspect != InspectFailed) ==> k in r
  {
    if key in m && inspect == InspectFailed then m - {key} else m
  }

  /** `spawnContainer` hands back the registered container: it is there and running. */
  predicate Reused(m: map<string, ContainerInfo>, userId: string, projectId: string, inspect: InspectOutcome) {
    ContainerKey(userId, projectId) in m && inspect == Running
  }

  lemma PortsOfAdd(m: map<string, ContainerInfo>, keys: set<string>, k: string)
    ensures PortsOf(m, keys + {k}) == PortsOf(m, keys) + (if k in m then m[k].ports.Values else {})
  {
    var extra := if k in m then m[k].ports.Values else {};
    forall h | h in PortsOf(m, keys + {k}) ensures h in PortsOf(m, keys) + extra {
      var k', h' :| k' in keys + {k} && k' in m && h' in m[k'].ports.Values && h' == h;
      if k' != k {
        assert h in PortsOf(m, keys);
      }
    }
    forall h | h in PortsOf(m, keys) + extra ensures h in PortsOf(m, keys + {k}) {
      if h !in PortsOf(m, keys) {
        assert h in m[k].ports.Values;
      }
    }
  }

  /** One `stopContainer` call of the first cleanup pass, seen from the registry it started from. */
  lemma StopStep(m0: map<string, ContainerInfo>, used0: set<int>, keys: set<string>, key: string)
    ensures key in Without(m0, keys) ==>
      && Without(m0, keys + {key}) == Without(m0, keys) - {key}
      && used0 - PortsOf(m0, keys + {key}) == (used0 - PortsOf(m0, keys)) - Without(m0, keys)[key].ports.Values
    ensures key !in Without(m0, keys) ==>
      && Without(m0, keys + {key}) == Without(m0, keys)
      && used0 - PortsOf(m0, keys + {key}) == used0 - PortsOf(m0, keys)
  {
    PortsOfAdd(m0, keys, key);
    if key in m0 && key in keys {
      assert keys + {key} == keys;
    }
  }

  /** One record's host ports: a map to each from its own container port, all in the ledger. */
  predicate Consistent(m: map<string, ContainerInfo>, used: set<int>) {
    && (forall k :: k in m ==> m[k].ports.Values <= used)
    && (forall k :: k in m ==> Injective(m[k].ports))
    && (forall k :: k in m ==> PortKeysInRange(m[k].ports))
    && (forall k1, k2 :: k1 in m && k2 in m && k1 != k2 ==> m[k1].ports.Values !! m[k2].ports.Values)
  }

  lemma ConsistentSubmap(m: map<string, ContainerInfo>, m': map<string, ContainerInfo>, used: set<int>, used': set<int>)
    requires Consistent(m, used) && used <= used'
    requires m'.Keys <= m.Keys && forall k :: k in m' ==> m'[k] == m[k]
    ensures Consistent(m', used')
  {
  }

  /** Registering a record whose host ports were free keeps the registry consistent. */
  lemma ConsistentRegister(m: map<string, ContainerInfo>, used: set<int>, key: string, info: ContainerInfo)
    requires Consistent(m, used)
    requires info.ports.Values !! used
    requires Injective(info.ports) && PortKeysInRange(info.ports)
    ensures Consistent(m[key := info], used + info.ports.Values)
  {
    var m' := m[key := info];
    forall k1, k2 | k1 in m' && k2 in m' && k1 != k2
      ensures m'[k1].ports.Values !! m'[k2].ports.Values
    {
      if k1 == key {
        assert m'[k2] == m[k2];
      } else if k2 == key {
        assert m'[k1] == m[k1];
      }
    }
  }

  /** Dropping a record and releasing its host ports keeps the registry consistent. */
  lemma ConsistentRelease(m: map<string, ContainerInfo>, used: set<int>, key: string)
    requires Consistent(m, used) && key in m
    ensures Consistent(m - {key}, used - m[key].ports.Values)
  {
    forall k | k in m - {key} ensures m[k].ports.Values <= used - m[key].ports.Values {
      assert m[k].ports.Values !! m[key].ports.Values;
    }
  }

  /**
   * The loop of the second cleanup pass over the listing: skipped ids are passed
   * over, every other one is stopped and removed, and its calls are collected.
   */
  method ReapLoop(listed: seq<string>, skip: set<string>, stopOk: string -> bool)
    returns (reaped: seq<string>, calls: seq<RuntimeCall>)
    ensures reaped == Orphans(listed, skip)
    ensures calls == ReapCalls(reaped, stopOk)
  {
    reaped, calls := [], [];
    var i := 0;
    while i < |listed|
      invariant 0 <= i <= |listed|
      invariant reaped == Orphans(listed[..i], skip)
      invariant calls == ReapCalls(reaped, stopOk)
    {
      var id := listed[i];
      OrphansStep(listed, skip, i);
      if id !in skip {
        ReapCallsSnoc(reaped, id, stopOk);
        calls := calls + StopCalls(id, 1, stopOk(id));
        reaped := reaped + [id];
      }
      i := i + 1;
    }
    assert listed[..i] == listed;
  }

  // ------------------------------------------------------------------ the manager

  /** The module state of container.ts. */
  class ContainerManager {
    var activeContainers: map<string, ContainerInfo>
    var pendingContainerIds: set<string>
    var usedPorts: set<int>
    /** Calls made to the container runtime. */
    var runtimeLog: seq<RuntimeCall>

    /** Between operations no id is pending and the registry agrees with the ledger. */
    ghost predicate Valid()
      reads this
    {
      pendingContainerIds == {} && Consistent(activeContainers, usedPorts)
    }

    constructor ()
      ensures Valid()
      ensures activeContainers == map[] && pendingContainerIds == {} && usedPorts == {} && runtimeLog == []
    {
      activeContainers := map[];
      pendingContainerIds := {};
      usedPorts := {};
      runtimeLog := [];
    }

    /** `findAvailablePort`: the lowest free port of the range, reserved in the ledger. */
    method FindAvailablePort(probe: int -> bool) returns (r: Option<int>)
      modifies this`usedPorts
      ensures r == FirstFreePort(old(usedPorts), probe)
      ensures r.Some? ==> usedPorts == old(usedPorts) + {r.value}
      ensures r.None? ==> usedPorts == old(usedPorts)
    {
      var port := PortRangeStart;
      while port < PortRangeStart + 1000
        invariant PortRangeStart <= port <= PortScanEnd
        invariant FirstFreePort(usedPorts, probe) == FirstFreeFrom(usedPorts, probe, port)
        invariant usedPorts == old(usedPorts)
      {
        if port !in usedPorts && probe(port) {
          usedPorts := usedPorts + {port};
          return Some(port);
        }
        port := port + 1;
      }
      return None;
    }

    /** `releasePort`: only the given port leaves the ledger. */
    method ReleasePort(port: int)
      modifies this`usedPorts
      ensures usedPorts == old(usedPorts) - {port}
    {
      usedPorts := usedPorts - {port};
    }

    /** `ports.forEach(releasePort)`: the map is walked in insertion order, container port 5000 first. */
    method ReleaseAll(ports: map<int, int>)
      requires PortKeysInRange(ports)
      modifies this`usedPorts
      ensures usedPorts == old(usedPorts) - ports.Values
    {
      var cp := FirstContainerPort;
      while cp <= LastContainerPort
        invariant FirstContainerPort <= cp <= LastContainerPort + 1
        invariant usedPorts == old(usedPorts) - ValuesBelow(ports, cp)
      {
        if cp in ports {
          ReleasePort(ports[cp]);
        }
        assert ValuesBelow(ports, cp + 1) == ValuesBelow(ports, cp) + (if cp in ports then {ports[cp]} else {});
        cp := cp + 1;
      }
      assert ValuesBelow(ports, cp) == ports.Values by {
        forall k | k in ports ensures ports[k] in ValuesBelow(ports, cp) {
        }
        forall v | v in ports.Values ensures v in ValuesBelow(ports, cp) {
          ValueHasKey(ports, v);
        }
      }
    }

    /**
     * `getContainer`: the record of a running container; a record whose container
     * is stopped is kept, one whose inspection throws is dropped (its host ports
     * stay in the ledger).
     */
    method GetContainer(userId: string, projectId: string, inspect: InspectOutcome) returns (r: Option<ContainerInfo>)
      requires Valid()
      modifies this`activeContainers
      ensures Valid()
      ensures r.Some? <==> Reused(old(activeContainers), userId, projectId, inspect)
      ensures r.Some? ==> r.value == old(activeContainers)[ContainerKey(userId, projectId)]
      ensures activeContainers == AfterInspect(old(activeContainers), ContainerKey(userId, projectId), inspect)
    {
      var key := ContainerKey(userId, projectId);
      if key !in activeContainers {
        return None;
      }
      var info := activeContainers[key];
      match inspect
      case Running =>
        return Some(info);
      case NotRunning =>
        return None;
      case InspectFailed =>
        activeContainers := activeContainers - {key};
        return None;
    }

    /**
     * The binding loop of `spawnContainer`: one `findAvailablePort` per container
     * port 5000..5010; the first failure ends it and keeps the ports taken so far.
     */
    method BindPorts(probe: int -> bool) returns (ports: map<int, int>, complete: bool, ghost picked: seq<int>)
      modifies this`usedPorts
      ensures picked == Allocation(old(usedPorts), probe, FirstContainerPort).0
      ensures complete == Allocation(old(usedPorts), probe, FirstContainerPort).1
      ensures ports == PortMap(picked, FirstContainerPort)
      ensures usedPorts == old(usedPorts) + Elems(picked)
    {
      ports := map[];
      picked := [];
      ghost var used0 := usedPorts;
      ghost var total := Allocation(used0, probe, FirstContainerPort);
      var containerPort := FirstContainerPort;
      AllocationSplit(usedPorts, probe, containerPort, []);
      while containerPort <= LastContainerPort
        invariant FirstContainerPort <= containerPort <= LastContainerPort + 1
        invariant |picked| == containerPort - FirstContainerPort
        invariant ports == PortMap(picked, FirstContainerPort)
        invariant usedPorts == used0 + Elems(picked)
        invariant picked + Allocation(usedPorts, probe, containerPort).0 == total.0
        invariant Allocation(usedPorts, probe, containerPort).1 == total.1
      {
        ghost var before := usedPorts;
        var hostPort := FindAvailablePort(probe);
        AllocationSplit(before, probe, containerPort, picked);
        if hostPort.None? {
          return ports, false, picked;
        }
        var h := hostPort.value;
        PortMapSnoc(picked, FirstContainerPort, h);
        ElemsSnoc(picked, h);
        ports := ports[containerPort := h];
        picked := picked + [h];
        containerPort := containerPort + 1;
      }
      AllocationSplit(usedPorts, probe, containerPort, picked);
      return ports, true, picked;
    }

    /**
     * The part of `spawnContainer` after the ports are bound: create the container,
     * mark it pending, start it and register it. Create or start failing releases
     * the ports; the pending mark is dropped whether start succeeds or not.
     */
    method Launch(
      key: string, userId: string, projectId: string, environment: string, image: string, mountPath: string,
      ports: map<int, int>, created: Option<string>, startOk: bool)
      returns (r: Result<ContainerInfo, SpawnError>)
      requires pendingContainerIds == {} && PortKeysInRange(ports)
      modifies this
      ensures pendingContainerIds == {}
      ensures created.None? ==>
        && r == Err(CreateFailed)
        && activeContainers == old(activeContainers) && usedPorts == old(usedPorts) - ports.Values
        && runtimeLog == old(runtimeLog) + [Create(image, mountPath, ports, userId, projectId)]
      ensures created.Some? ==>
        runtimeLog == old(runtimeLog)
          + [Create(image, mountPath, ports, userId, projectId), Start(created.value, old(pendingContainerIds) + {created.value})]
      ensures created.Some? && !startOk ==>
        && r == Err(StartFailed)
        && activeContainers == old(activeContainers) && usedPorts == old(usedPorts) - ports.Values
      ensures created.Some? && startOk ==>
        && r == Ok(ContainerInfo(created.value, environment, ports, mountPath))
        && activeContainers == old(activeContainers)[key := ContainerInfo(created.value, environment, ports, mountPath)]
        && usedPorts == old(usedPorts)
    {
      runtimeLog := runtimeLog + [Create(image, mountPath, ports, userId, projectId)];
      if created.None? {
        ReleaseAll(ports);
        return Err(CreateFailed);
      }
      var id := created.value;
      pendingContainerIds := pendingContainerIds + {id};
      runtimeLog := runtimeLog + [Start(id, pendingContainerIds)];
      if startOk {
        var info := ContainerInfo(id, environment, ports, mountPath);
        activeContainers := activeContainers[key := info];
        pendingContainerIds := pendingContainerIds - {id};
        r := Ok(info);
      } else {
        pendingContainerIds := pendingContainerIds - {id};
        ReleaseAll(ports);
        r := Err(StartFailed);
      }
    }

    /**
     * `spawnContainer`. The oracles: `inspect` for the registered container,
     * `imageLocal`/`pullOk` for the image store, `probe` for the operating system's
     * port check, `created` for the new container's id (None: create threw) and
     * `startOk` for its start.
     */
    method SpawnContainer(
      userId: string, projectId: string, environment: string, resolvedPath: string, win32: bool,
      inspect: InspectOutcome, imageLocal: bool, pullOk: bool, probe: int -> bool,
      created: Option<string>, startOk: bool)
      returns (r: Result<ContainerInfo, SpawnError>)
      requires Valid()
      modifies this
      ensures Valid()
      // a running registered container is handed back and nothing changes
      ensures Reused(old(activeContainers), userId, projectId, inspect) ==>
        && r == Ok(old(activeContainers)[ContainerKey(userId, projectId)])
        && activeContainers == old(activeContainers) && usedPorts == old(usedPorts) && runtimeLog == old(runtimeLog)
      // a failed pull propagates before any port is taken
      ensures !Reused(old(activeContainers), userId, projectId, inspect) && !imageLocal && !pullOk ==>
        && r == Err(ImagePullFailed)
        && activeContainers == AfterInspect(old(activeContainers), ContainerKey(userId, projectId), inspect)
        && usedPorts == old(usedPorts) && runtimeLog == old(runtimeLog)
      // running out of ports propagates and keeps the ports already taken
      ensures !Reused(old(activeContainers), userId, projectId, inspect) && (imageLocal || pullOk)
              && !Allocation(old(usedPorts), probe, FirstContainerPort).1 ==>
        && r == Err(NoAvailablePorts)
        && activeContainers == AfterInspect(old(activeContainers), ContainerKey(userId, projectId), inspect)
        && usedPorts == old(usedPorts) + Elems(Allocation(old(usedPorts), probe, FirstContainerPort).0)
        && runtimeLog == old(runtimeLog)
      // otherwise a container is created from the environment's image on the fixed mount path
      ensures !Reused(old(activeContainers), userId, projectId, inspect) && (imageLocal || pullOk)
              && Allocation(old(usedPorts), probe, FirstContainerPort).1 ==>
        var ports := PortMap(Allocation(old(usedPorts), probe, FirstContainerPort).0, FirstContainerPort);
        var create := Create(ImageFor(environment), MountPath(resolvedPath, win32), ports, userId, projectId);
        var looked := AfterInspect(old(activeContainers), ContainerKey(userId, projectId), inspect);
        && (created.None? ==>
              r == Err(CreateFailed) && activeContainers == looked
              && usedPorts == old(usedPorts) && runtimeLog == old(runtimeLog) + [create])
        && (created.Some? ==>
              runtimeLog == old(runtimeLog) + [create, Start(created.value, old(pendingContainerIds) + {created.value})])
        && (created.Some? && !startOk ==>
              r == Err(StartFailed) && activeContainers == looked && usedPorts == old(usedPorts))
        && (created.Some? && startOk ==>
              var info := ContainerInfo(created.value, environment, ports, MountPath(resolvedPath, win32));
              r == Ok(info) && activeContainers == looked[ContainerKey(userId, projectId) := info]
              && usedPorts == old(usedPorts) + ports.Values)
    {
      var key := ContainerKey(userId, projectId);
      var existing := GetContainer(userId, projectId, inspect);
      if existing.Some? {
        return Ok(existing.value);
      }
      var imageName := ImageFor(environment);
      if !imageLocal && !pullOk {
        return Err(ImagePullFailed);
      }
      ghost var usedBefore := usedPorts;
      ghost var looked := activeContainers;
      var ports, complete, picked := BindPorts(probe);
      ConsistentSubmap(looked, looked, usedBefore, usedPorts);
      if !complete {
        return Err(NoAvailablePorts);
      }
      AllocationSpec(usedBefore, probe, FirstContainerPort);
      PortMapFacts(picked, FirstContainerPort);
      assert ports.Values !! usedBefore;
      assert usedPorts - ports.Values == usedBefore;
      var mountPath := MountPath(resolvedPath, win32);
      // The second look-up of the image finds the image the first one made sure of.
      r := Launch(key, userId, projectId, environment, imageName, mountPath, ports, created, startOk);
      if r.Ok? {
        ConsistentRegister(looked, usedBefore, key, r.value);
      }
    }

    /**
     * `stopContainer`: stop with a 5 second grace period, remove only if the stop
     * succeeded, and whatever the runtime answered release the ports and drop the record.
     */
    method StopContainer(userId: string, projectId: string, stopOk: string -> bool)
      requires Valid()
      modifies this`activeContainers, this`usedPorts, this`runtimeLog
      ensures Valid()
      ensures ContainerKey(userId, projectId) !in old(activeContainers) ==>
        activeContainers == old(activeContainers) && usedPorts == old(usedPorts) && runtimeLog == old(runtimeLog)
      ensures ContainerKey(userId, projectId) in old(activeContainers) ==>
        var info := old(activeContainers)[ContainerKey(userId, projectId)];
        && activeContainers == old(activeContainers) - {ContainerKey(userId, projectId)}
        && usedPorts == old(usedPorts) - info.ports.Values
        && runtimeLog == old(runtimeLog) + StopCalls(info.containerId, 5, stopOk(info.containerId))
    {
      var key := ContainerKey(userId, projectId);
      if key !in activeContainers {
        return;
      }
      var info := activeContainers[key];
      runtimeLog := runtimeLog + StopCalls(info.containerId, 5, stopOk(info.containerId));
      ConsistentRelease(activeContainers, usedPorts, key);
      ReleaseAll(info.ports);
      activeContainers := activeContainers - {key};
    }

    /** `forceStopContainer`: the same as `stopContainer`. */
    method ForceStopContainer(userId: string, projectId: string, stopOk: string -> bool)
      requires Valid()
      modifies this`activeContainers, this`usedPorts, this`runtimeLog
      ensures Valid()
      ensures ContainerKey(userId, projectId) !in old(activeContainers) ==>
        activeContainers == old(activeContainers) && usedPorts == old(usedPorts) && runtimeLog == old(runtimeLog)
      ensures ContainerKey(userId, projectId) in old(activeContainers) ==>
        var info := old(activeContainers)[ContainerKey(userId, projectId)];
        && activeContainers == old(activeContainers) - {ContainerKey(userId, projectId)}
        && usedPorts == old(usedPorts) - info.ports.Values
        && runtimeLog == old(runtimeLog) + StopCalls(info.containerId, 5, stopOk(info.containerId))
    {
      StopContainer(userId, projectId, stopOk);
    }

    /**
     * The first pass of `cleanupAllContainers`: for a snapshot of the keys, split
     * each at '-' and stop the container of the first two parts.
     */
    method StopAll(stopOk: string -> bool) returns (ghost order: seq<string>)
      requires Valid()
      modifies this`activeContainers, this`usedPorts, this`runtimeLog
      ensures Valid()
      ensures Visited(order) == old(activeContainers).Keys && |order| == |old(activeContainers).Keys|
      ensures activeContainers == Unstopped(old(activeContainers))
      ensures usedPorts == old(usedPorts) - PortsOf(old(activeContainers), RecoveredKeys(old(activeContainers).Keys))
      ensures runtimeLog == old(runtimeLog) + StopAllCalls(old(activeContainers), order, stopOk)
    {
      ghost var m0, used0, log0 := activeContainers, usedPorts, runtimeLog;
      var keys := activeContainers.Keys;
      var remaining := keys;
      order := [];
      assert RecoveredKeys(Visited(order)) == {};
      while remaining != {}
        invariant remaining <= keys
        invariant Visited(order) == keys - remaining && |order| == |keys - remaining|
        invariant Valid()
        invariant activeContainers == Without(m0, RecoveredKeys(Visited(order)))
        invariant usedPorts == used0 - PortsOf(m0, RecoveredKeys(Visited(order)))
        invariant runtimeLog == log0 + StopAllCalls(m0, order, stopOk)
        decreases remaining
      {
        var key :| key in remaining;
        StopVisit(key, stopOk, m0, used0, log0, order);
        VisitedStep(keys, remaining, order, key);
        order := order + [key];
        remaining := remaining - {key};
      }
    }

    /**
     * One step of the first pass: `key` is split at '-' and the container of the
     * first two parts stopped, in the registry the keys visited before it left.
     */
    method StopVisit(key: string, stopOk: string -> bool,
                     ghost m0: map<string, ContainerInfo>, ghost used0: set<int>, ghost log0: seq<RuntimeCall>,
                     ghost visited: seq<string>)
      requires Valid()
      requires activeContainers == Without(m0, RecoveredKeys(Visited(visited)))
      requires usedPorts == used0 - PortsOf(m0, RecoveredKeys(Visited(visited)))
      requires runtimeLog == log0 + StopAllCalls(m0, visited, stopOk)
      modifies this`activeContainers, this`usedPorts, this`runtimeLog
      ensures Valid()
      ensures activeContainers == Without(m0, RecoveredKeys(Visited(visited + [key])))
      ensures usedPorts == used0 - PortsOf(m0, RecoveredKeys(Visited(visited + [key])))
      ensures runtimeLog == log0 + StopAllCalls(m0, visited + [key], stopOk)
    {
      var parts := KeyParts(key);
      ghost var done := RecoveredKeys(Visited(visited));
      ghost var rk := RecoveredKey(key);
      assert ContainerKey(parts.0, parts.1) == rk;
      StopStep(m0, used0, done, rk);
      StopAllCallsSnoc(m0, visited, key, stopOk);
      RecoveredVisitedSnoc(visited, key);
      ghost var log1 := runtimeLog;
      StopContainer(parts.0, parts.1, stopOk);
      assert runtimeLog == log1 + StopCallsFor(old(activeContainers), rk, stopOk);
    }

    /**
     * The second pass of `cleanupAllContainers`: every listed container that is
     * neither registered nor pending is stopped (1 second grace) and removed; a
     * failure is logged and the pass goes on.
     */
    method ReapOrphans(listed: seq<string>, stopOk: string -> bool) returns (reaped: seq<string>)
      modifies this`runtimeLog
      ensures reaped == Orphans(listed, ActiveIds(activeContainers) + pendingContainerIds)
      ensures runtimeLog == old(runtimeLog) + ReapCalls(reaped, stopOk)
    {
      var calls;
      reaped, calls := ReapLoop(listed, ActiveIds(activeContainers) + pendingContainerIds, stopOk);
      runtimeLog := runtimeLog + calls;
    }

    /** `cleanupAllContainers`; `listed` is the runtime's listing of labelled containers. */
    method CleanupAllContainers(listed: seq<string>, stopOk: string -> bool)
      returns (reaped: seq<string>, ghost order: seq<string>)
      requires Valid()
      modifies this`activeContainers, this`usedPorts, this`runtimeLog
      ensures Valid()
      ensures activeContainers == Unstopped(old(activeContainers))
      ensures usedPorts == old(usedPorts) - PortsOf(old(activeContainers), RecoveredKeys(old(activeContainers).Keys))
      ensures reaped == Orphans(listed, ActiveIds(activeContainers))
      ensures Visited(order) == old(activeContainers).Keys && |order| == |old(activeContainers).Keys|
      ensures runtimeLog == old(runtimeLog) + StopAllCalls(old(activeContainers), order, stopOk) + ReapCalls(reaped, stopOk)
    {
      order := StopAll(stopOk);
      assert pendingContainerIds == {};
      var calls;
      reaped, calls := ReapLoop(listed, ActiveIds(activeContainers), stopOk);
      runtimeLog := runtimeLog + calls;
    }

    /** `getContainerPorts`: the port map of a registered container, reserved in the ledger. */
    function GetContainerPorts(userId: string, projectId: string): (r: Option<map<int, int>>)
      reads this
      ensures r.Some? <==> ContainerKey(userId, projectId) in activeContainers
      ensures r.Some? ==> r.value == activeContainers[ContainerKey(userId, projectId)].ports
      ensures Valid() && r.Some? ==> r.value.Values <= usedPorts && Injective(r.value)
    {
      var key := ContainerKey(userId, projectId);
      if key in activeContainers then Some(activeContainers[key].ports) else None
    }
  }
}
