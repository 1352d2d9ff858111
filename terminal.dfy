/**
 * The terminal session table of backend/src/services/terminal.ts: one pseudo
 * terminal per socket id, created on request, fed with input and resize events,
 * and dropped on disconnect or when the terminal exits. The pseudo terminals are
 * numbered handles; what is written to them and what is sent to the sockets is
 * recorded in two logs.
 */
module Terminal {
  import opened Results

  /** A stored session: the handle of its pseudo terminal. */
  datatype Session = Session(pty: nat)

  /** Messages sent to a socket. */
  datatype Emit =
    | Ready
    | Output(data: string)
    | Exited(exitCode: int, signal: Option<int>)
    | Failed(message: string)

  /** Calls made on pseudo terminals. */
  datatype PtyCall =
    | Spawn(pty: nat, shell: string, cwd: string, cols: int, rows: int)
    | Write(pty: nat, data: string)
    | Resize(pty: nat, cols: int, rows: int)
    | Kill(pty: nat)

  const InitialCols := 80
  const InitialRows := 24
  const CreateFailedMessage := "Failed to create terminal"

  /** `os.platform() === 'win32' ? 'powershell.exe' : process.env.SHELL || 'bash'` (an empty SHELL counts as unset). */
  function ShellFor(win32: bool, envShell: Option<string>): (shell: string)
    ensures shell != ""
    ensures win32 ==> shell == "powershell.exe"
    ensures !win32 && envShell.Some? && envShell.value != "" ==> shell == envShell.value
    ensures !win32 && (envShell.None? || envShell.value == "") ==> shell == "bash"
  {
    if win32 then "powershell.exe"
    else if envShell.Some? && envShell.value != "" then envShell.value
    else "bash"
  }

  /** `process.env.WORKSPACE_DIR || process.cwd() + '/workspace'`. */
  function WorkspaceDirFor(envWorkspace: Option<string>, cwd: string): (dir: string)
    ensures envWorkspace.Some? && envWorkspace.value != "" ==> dir == envWorkspace.value
    ensures envWorkspace.None? || envWorkspace.value == "" ==> dir == cwd + "/workspace"
  {
    if envWorkspace.Some? && envWorkspace.value != "" then envWorkspace.value else cwd + "/workspace"
  }

  class TerminalService {
    /** `sessions`: socket id -> session. */
    var sessions: map<string, Session>
    /** The socket each spawned terminal's data and exit callbacks were bound to. */
    var callbacks: map<nat, string>
    /** The next handle a spawn hands out. */
    var nextPty: nat
    /** Messages sent, with the socket id they were sent to. */
    var emitted: seq<(string, Emit)>
    var ptyCalls: seq<PtyCall>

    /**
     * Every stored session's terminal was spawned for that socket, and handles are
     * never reused.
     */
    ghost predicate Valid()
      reads this
    {
      && (forall id :: id in sessions ==> sessions[id].pty in callbacks && callbacks[sessions[id].pty] == id)
      && (forall p :: p in callbacks ==> p < nextPty)
    }

    constructor ()
      ensures Valid()
      ensures sessions == map[] && callbacks == map[] && nextPty == 0 && emitted == [] && ptyCalls == []
    {
      sessions := map[];
      callbacks := map[];
      nextPty := 0;
      emitted := [];
      ptyCalls := [];
    }

    /**
     * `createTerminal`: spawn an 80x24 terminal in the workspace directory; on
     * success store it under the socket id (replacing any earlier session of
     * that socket, whose terminal keeps running), bind its callbacks and send
     * `terminal:ready`; if the spawn throws, send `terminal:error` and store nothing.
     */
    method CreateTerminal(
      socketId: string, win32: bool, envShell: Option<string>, envWorkspace: Option<string>, cwd: string, spawnOk: bool)
      requires Valid()
      modifies this
      ensures Valid()
      ensures spawnOk ==>
        && sessions == old(sessions)[socketId := Session(old(nextPty))]
        && callbacks == old(callbacks)[old(nextPty) := socketId]
        && nextPty == old(nextPty) + 1
        && emitted == old(emitted) + [(socketId, Ready)]
        && ptyCalls == old(ptyCalls) + [Spawn(old(nextPty), ShellFor(win32, envShell), WorkspaceDirFor(envWorkspace, cwd), InitialCols, InitialRows)]
      ensures !spawnOk ==>
        && sessions == old(sessions) && callbacks == old(callbacks) && nextPty == old(nextPty)
        && emitted == old(emitted) + [(socketId, Failed(CreateFailedMessage))]
        && ptyCalls == old(ptyCalls)
    {
      var shell := ShellFor(win32, envShell);
      var workspaceDir := WorkspaceDirFor(envWorkspace, cwd);
      if !spawnOk {
        emitted := emitted + [(socketId, Failed(CreateFailedMessage))];
        return;
      }
      var pty := nextPty;
      nextPty := nextPty + 1;
      ptyCalls := ptyCalls + [Spawn(pty, shell, workspaceDir, InitialCols, InitialRows)];
      sessions := sessions[socketId := Session(pty)];
      callbacks := callbacks[pty := socketId];
      emitted := emitted + [(socketId, Ready)];
    }

    /** `handleInput`: forwarded to the socket's terminal if it has one; otherwise nothing happens. */
    method HandleInput(socketId: string, data: string)
      modifies this`ptyCalls
      ensures socketId in sessions ==> ptyCalls == old(ptyCalls) + [Write(sessions[socketId].pty, data)]
      ensures socketId !in sessions ==> ptyCalls == old(ptyCalls)
    {
      if socketId in sessions {
        ptyCalls := ptyCalls + [Write(sessions[socketId].pty, data)];
      }
    }

    /** `handleResize`: forwarded to the socket's terminal if it has one; otherwise nothing happens. */
    method HandleResize(socketId: string, cols: int, rows: int)
      modifies this`ptyCalls
      ensures socketId in sessions ==> ptyCalls == old(ptyCalls) + [Resize(sessions[socketId].pty, cols, rows)]
      ensures socketId !in sessions ==> ptyCalls == old(ptyCalls)
    {
      if socketId in sessions {
        ptyCalls := ptyCalls + [Resize(sessions[socketId].pty, cols, rows)];
      }
    }

    /** `handleDisconnect`: kill the socket's terminal and drop its session; nothing if it has none. */
    method HandleDisconnect(socketId: string)
      requires Valid()
      modifies this`sessions, this`ptyCalls
      ensures Valid()
      ensures sessions == old(sessions) - {socketId}
      ensures socketId in old(sessions) ==> ptyCalls == old(ptyCalls) + [Kill(old(sessions)[socketId].pty)]
      ensures socketId !in old(sessions) ==> ptyCalls == old(ptyCalls)
    {
      if socketId in sessions {
        ptyCalls := ptyCalls + [Kill(sessions[socketId].pty)];
        sessions := sessions - {socketId};
      }
    }

    /** The data callback: output goes to the socket the terminal was spawned for. */
    method HandleOutput(pty: nat, data: string)
      modifies this`emitted
      ensures pty in callbacks ==> emitted == old(emitted) + [(callbacks[pty], Output(data))]
      ensures pty !in callbacks ==> emitted == old(emitted)
    {
      if pty in callbacks {
        emitted := emitted + [(callbacks[pty], Output(data))];
      }
    }

    /**
     * The exit callback: send `terminal:exit` with the code and signal to the socket
     * the terminal was spawned for, and drop whatever session that socket has now.
     */
    method HandleExit(pty: nat, exitCode: int, signal: Option<int>)
      requires Valid()
      modifies this`sessions, this`emitted
      ensures Valid()
      ensures pty in callbacks ==>
        && emitted == old(emitted) + [(callbacks[pty], Exited(exitCode, signal))]
        && sessions == old(sessions) - {callbacks[pty]}
      ensures pty !in callbacks ==> emitted == old(emitted) && sessions == old(sessions)
    {
      if pty in callbacks {
        var socketId := callbacks[pty];
        emitted := emitted + [(socketId, Exited(exitCode, signal))];
        sessions := sessions - {socketId};
      }
    }

    /** `getActiveSessionCount`. */
    function GetActiveSessionCount(): (n: nat)
      reads this
      ensures n == |sessions.Keys|
    {
      |sessions|
    }

    /** Sessions of distinct sockets never share a terminal. */
    lemma DistinctTerminals(a: string, b: string)
      requires Valid()
      requires a in sessions && b in sessions && a != b
      ensures sessions[a].pty != sessions[b].pty
    {
      assert callbacks[sessions[a].pty] == a;
    }
  }

  /**
   * A second `terminal:create` on a socket replaces its session without killing the
   * first terminal; when that first terminal exits, its callback drops the second
   * session too, and the socket is left with none.
   */
  method ReplacedTerminalExit() returns (before: nat, after: nat)
    ensures before == 1 && after == 0
  {
    var service := new TerminalService();
    service.CreateTerminal("socket", false, None, None, "/srv", true);
    service.CreateTerminal("socket", false, None, None, "/srv", true);
    before := service.GetActiveSessionCount();
    service.HandleExit(0, 0, None);
    after := service.GetActiveSessionCount();
  }

  /** Disconnecting twice does what disconnecting once does: the second call finds no session. */
  method RepeatedDisconnect() returns (calls: seq<PtyCall>, count: nat)
    ensures calls == [Spawn(0, "bash", "/srv/workspace", InitialCols, InitialRows), Kill(0)]
    ensures count == 0
  {
    var service := new TerminalService();
    service.CreateTerminal("socket", false, Some(""), None, "/srv", true);
    service.HandleDisconnect("socket");
    service.HandleDisconnect("socket");
    assert WorkspaceDirFor(None, "/srv") == "/srv/workspace";
    assert ShellFor(false, Some("")) == "bash";
    calls := service.ptyCalls;
    count := service.GetActiveSessionCount();
  }
}
