/**
 * The option registry: `ConfigOption.options`, the list every option's
 * constructor appends itself to, in declaration order, with the lookups
 * the option classes keep beside it (`path_variables`, the interface
 * options by name), and the parts of `main` that walk it: loading the
 * existing config file, the check loop and --print-config.
 */
module Registry {
  import opened Wrappers
  import opened Text
  import opened Routes
  import opened Interfaces
  import opened Values
  import opened Paths
  import opened RunFlags
  import opened Options
  import opened Checks
  import opened ConfigFiles

  // ----------------------------------------------------------------- lookups

  /** `get_var`: the index of the first option with that variable name. */
  function Find(options: seq<ConfigOption>, name: string): (r: Option<nat>)
    ensures r.Some? ==> r.value < |options| && options[r.value].name == name
    ensures r.Some? ==> forall j | 0 <= j < r.value :: options[j].name != name
    ensures r.None? ==> forall j | 0 <= j < |options| :: options[j].name != name
  {
    if options == [] then None
    else if options[0].name == name then Some(0)
    else
      var rest := options[1..];
      assert forall j | 1 <= j < |options| :: options[j] == rest[j - 1];
      match Find(rest, name)
      case None => None
      case Some(i) => Some(i + 1)
  }

  /**
   * `ConfigPathOption.path_variables`: the path options by variable name,
   * a later declaration of a name replacing an earlier one.
   */
  function PathOptions(options: seq<ConfigOption>): (m: map<string, ConfigOption>)
    ensures forall k | k in m :: m[k].kind.PathKind? && m[k].name == k
    ensures forall j | 0 <= j < |options| && options[j].kind.PathKind? :: options[j].name in m
    ensures options != [] && options[|options| - 1].kind.PathKind? ==>
      m[options[|options| - 1].name] == options[|options| - 1]
  {
    if options == [] then map[]
    else
      var init := options[..|options| - 1];
      var m := PathOptions(init);
      var o := options[|options| - 1];
      var r := if o.kind.PathKind? then m[o.name := o] else m;
      assert forall j | 0 <= j < |options| && options[j].kind.PathKind? :: options[j].name in r by {
        forall j | 0 <= j < |options| && options[j].kind.PathKind?
          ensures options[j].name in r
        {
          if j < |init| {
            assert init[j] == options[j];
          }
        }
      }
      r
  }

  /** The text each path variable stands for, as `get_path` substitutes it. */
  function PathMap(options: seq<ConfigOption>): map<string, string>
  {
    var p := PathOptions(options);
    map k | k in p && p[k].value.Str? :: p[k].value.s
  }

  /**
   * `ConfigInterfaceOption.interfaces`: the interface options' values by
   * variable name, a later declaration replacing an earlier one.
   */
  function InterfaceMap(options: seq<ConfigOption>): (m: map<string, Value>)
    ensures forall k | k in m :: exists j | 0 <= j < |options| :: options[j].kind.InterfaceKind? && options[j].name == k
    ensures options != [] && options[|options| - 1].kind.InterfaceKind? ==>
      options[|options| - 1].name in m && m[options[|options| - 1].name] == options[|options| - 1].value
  {
    if options == [] then map[]
    else
      var init := options[..|options| - 1];
      assert forall j | 0 <= j < |init| :: init[j] == options[j];
      var m := InterfaceMap(init);
      var o := options[|options| - 1];
      if o.kind.InterfaceKind? then m[o.name := o.value] else m
  }

  /**
   * Whether a directory the value refers to was created in this run:
   * `ask_to_mkdir` then creates this one without asking.
   */
  predicate ParentCreated(options: seq<ConfigOption>, value: Value)
  {
    var p := PathOptions(options);
    value.Str? &&
    var refs := VarRefs(value.s);
    exists i | 0 <= i < |refs| :: refs[i] in p && p[refs[i]].kind.created
  }

  /** An option as its constructor leaves it: at its default, not set. */
  predicate Fresh(o: ConfigOption)
  {
    o.value == o.default && !o.isSet
  }

  const SshDescription: string :=
    "Allow ClustrixDB to modify sshd_config " + "and /etc/hosts. This is required for " +
    "internode communication for " + "administrative tasks, including upgrades"

  const HugeTlbDescription: string :=
    "Enable HugeTLB memory allocation for " + "faster startup. NOTE: This causes " +
    "instability on some systems, contact " + "Clustrix Support before changing from " + "default"

  // ---------------------------------------------------------------- registry

  class Registry {
    /** `ConfigOption.options`, in declaration order. */
    var options: seq<ConfigOption>
    /** `ConfigOption.loaded_from_file`. */
    var loadedFromFile: bool

    constructor()
      ensures options == [] && !loadedFromFile
    {
      options := [];
      loadedFromFile := false;
    }

    /** What every option constructor does first: append the option. */
    method Register(o: ConfigOption)
      modifies this
      ensures options == old(options) + [o]
      ensures loadedFromFile == old(loadedFromFile)
    {
      options := options + [o];
    }

    /** `get_var`: scan the options in order for the variable name. */
    method GetVar(name: string) returns (r: Option<nat>)
      ensures r == Find(options, name)
    {
      var os := options;
      var i := 0;
      while i < |os|
        invariant 0 <= i <= |os|
        invariant forall j | 0 <= j < i :: !IsVar(os[j], name)
      {
        if IsVar(os[i], name) {
          FindFirst(os, name, i);
          return Some(i);
        }
        i := i + 1;
      }
      FindAbsent(os, name);
      return None;
    }

    /** Every option constructor, one after the other: each appends itself. */
    method RegisterAll(os: seq<ConfigOption>)
      modifies this
      ensures options == old(options) + os
      ensures loadedFromFile == old(loadedFromFile)
    {
      var i := 0;
      while i < |os|
        invariant 0 <= i <= |os|
        invariant options == old(options) + os[..i]
        invariant loadedFromFile == old(loadedFromFile)
      {
        Register(os[i]);
        assert os[..i + 1] == os[..i] + [os[i]];
        i := i + 1;
      }
    }

    /**
     * The option declarations at module level, in their order.  The memory
     * option looks for MAX_REDO among the options before it, finds none,
     * and keeps 1024 MiB; the MySQL port names FRONTEND_ADDR, which no
     * interface option declares, so it binds to the wildcard interface.
     * Too little memory ends the program (`ok` is false).
     *
     * One wildcard, built from `table`, stands for every `Interface()` the
     * declarations make.  In the program, LISTEN_ADDR's and MYSQL_PORT's are
     * made before `default_interface()` first reads the routing table, so
     * their masks come from an empty table; the two differ only when a
     * route names a device "Global".
     */
    method Declare(table: map<string, seq<Route>>, memKb: Option<nat>, hv: Hypervisor, backendDefault: Value)
      returns (ok: bool)
      requires options == []
      modifies this
      ensures ok <==> memKb.Some? && memKb.value >= MinSysRam(1024) * 1024
      ensures !ok ==> options == []
      ensures ok ==> options == Declarations(Wildcard(table), NodeMemory(1024, memKb).value, hv, backendDefault)
      ensures ok ==> options[0].kind == MemoryKind(memKb.value, 1024)
      ensures loadedFromFile == old(loadedFromFile)
    {
      var redo := MaxRedoFrom(options).value;
      var memory := NodeMemory(redo, memKb);
      if memory.Err? {
        return false;
      }
      RegisterAll(Declarations(Wildcard(table), memory.value, hv, backendDefault));
      ok := true;
    }

    /**
     * The load loop's body for the file variable `k`: an unknown variable
     * is handed to `add_extra`, a known one to its option's `set_value`.
     */
    method LoadVariable(cf: ConfigFile, k: string, setValue: Setter, keepUnknown: bool, refused: seq<string>, ghost unknown: seq<string>)
      returns (next: Result<seq<string>>, ghost unknownAfter: seq<string>)
      requires k in cf.current
      modifies this, cf
      ensures cf.current == old(cf.current)
      ensures var v := Visit(Loading(old(options), refused, unknown), k, old(cf.current)[k], setValue);
        (v.Err? ==> next == Err(v.error)) &&
        (v.Ok? ==> next == Ok(v.value.refused) && Loading(options, v.value.refused, unknownAfter) == v.value)
      ensures keepUnknown && Find(old(options), k).None? ==> cf.extra == old(cf.extra)[k := old(cf.current)[k]]
      ensures !(keepUnknown && Find(old(options), k).None?) ==> cf.extra == old(cf.extra)
      ensures loadedFromFile == old(loadedFromFile)
    {
      ghost var prev := Loading(options, refused, unknown);
      var text := cf.current[k];
      unknownAfter := unknown;
      var found := GetVar(k);
      if found.None? {
        cf.AddExtra(if keepUnknown then Some(k) else None);
        VisitUnknown(prev, k, text, setValue);
        unknownAfter := unknown + [k];
        next := Ok(refused);
      } else {
        var outcome := setValue(options[found.value], text);
        match outcome {
          case Stored(o) =>
            VisitStored(prev, k, text, setValue, found.value, o);
            options := options[found.value := Restored(options[found.value], o)];
            next := Ok(refused);
          case Reprompted =>
            VisitRefused(prev, k, text, setValue, found.value);
            next := Ok(refused + [k]);
          case Raised(e) =>
            VisitRaised(prev, k, text, setValue, found.value, e);
            next := Err(e);
        }
      }
    }

    /**
     * Reading the existing file into the options, as `main` does for
     * --load-config and --print-config.  The file's variables are visited
     * in `order`; an unknown one is handed to `add_extra`, by name when
     * `keepUnknown`, else as None, the way the program hands it (see
     * `LoadConfigAsWritten`).  The result is the variables whose text
     * `set_value` refused, or the error `set_value` raised.
     */
    method LoadVariables(cf: ConfigFile, order: seq<string>, setValue: Setter, keepUnknown: bool) returns (r: Result<seq<string>>)
      requires forall k :: k in order <==> k in cf.current
      modifies this, cf
      ensures cf.current == old(cf.current)
      ensures !keepUnknown ==> cf.extra == old(cf.extra)
      ensures var l := Loaded(old(options), old(cf.current), order, setValue);
        (l.Err? ==> r == Err(l.error)) &&
        (l.Ok? ==> r == Ok(l.value.refused) && options == l.value.options && loadedFromFile &&
                   cf.extra == (if keepUnknown then old(cf.extra) + Kept(old(cf.current), l.value.unknown) else old(cf.extra)))
    {
      var refused: seq<string> := [];
      ghost var unknown: seq<string> := [];
      var current := cf.current;
      assert old(cf.extra) + Kept(current, []) == old(cf.extra);
      var i := 0;
      while i < |order|
        invariant 0 <= i <= |order|
        invariant cf.current == current == old(cf.current)
        invariant Loaded(old(options), current, order[..i], setValue) == Ok(Loading(options, refused, unknown))
        invariant keepUnknown ==> cf.extra == old(cf.extra) + Kept(current, unknown)
        invariant !keepUnknown ==> cf.extra == old(cf.extra)
      {
        var k := order[i];
        ghost var prev := Loading(options, refused, unknown);
        var next;
        ghost var unknownAfter;
        next, unknownAfter := LoadVariable(cf, k, setValue, keepUnknown, refused, unknown);
        LoadIteration(old(options), current, order, i, setValue, prev, next,
          Loading(options, if next.Ok? then next.value else refused, unknownAfter));
        if next.Err? {
          return next;
        }
        if keepUnknown {
          KeptStep(old(cf.extra), current, unknown, k, Find(prev.options, k).None?);
        }
        refused, unknown := next.value, unknownAfter;
        ghost var before := order[..i + 1];
        i := i + 1;
        assert order[..i] == before;
      }
      assert order[..i] == order;
      loadedFromFile := true;
      return Ok(refused);
    }

    /**
     * The check loop of `main` outside the wizard: check every option in
     * order, each against the options as the earlier checks left them,
     * and stop at the first check that does not accept.  The program
     * itself runs with `asWritten` (see `Checks.Check`).
     */
    method CheckAll(mode: RunMode, worlds: seq<World>, asWritten: bool) returns (verdict: Verdict)
      requires |worlds| == |options|
      modifies this
      ensures (options, verdict) == CheckedFrom(old(options), mode, worlds, 0, asWritten)
      ensures loadedFromFile == old(loadedFromFile)
    {
      var i := 0;
      while i < |options|
        invariant i <= |options| == |worlds|
        invariant CheckedFrom(options, mode, worlds, i, asWritten) == CheckedFrom(old(options), mode, worlds, 0, asWritten)
        invariant loadedFromFile == old(loadedFromFile)
      {
        var o := options[i];
        var c := Check(o, mode, PathMap(options), ParentCreated(options, o.value), worlds[i], asWritten);
        CheckedStep(options, mode, worlds, i, asWritten, c);
        options := options[i := c.option];
        if !Continues(c.outcome) {
          return Stopped(i, c.outcome);
        }
        i := i + 1;
      }
      return Passed;
    }

    /**
     * --print-config: the arguments that configure another node the same
     * way, separated by spaces.
     */
    method PrintConfig() returns (r: Result<string>)
      ensures Args(options, loadedFromFile).Ok? ==> r == Ok(Join(Args(options, loadedFromFile).value, " "))
      ensures Args(options, loadedFromFile).Err? ==> r == Err(Args(options, loadedFromFile).error)
    {
      var args: seq<string> := [];
      var i := 0;
      while i < |options|
        invariant 0 <= i <= |options|
        invariant Args(options[..i], loadedFromFile) == Ok(args)
      {
        ArgsStep(options, loadedFromFile, i, args);
        var arg := MkArg(options[i], false, loadedFromFile);
        if arg.Err? {
          ArgsPrefixErr(options, loadedFromFile, i + 1);
          return Err(arg.error);
        }
        if arg.value.Some? && arg.value.value != "" {
          args := args + [arg.value.value];
        }
        i := i + 1;
      }
      assert options[..i] == options;
      return Ok(Join(args, " "));
    }

    /**
     * The load as the program does it: `main` passes `add_extra` the failed
     * lookup's None, which is never a key of the file, so the unknown
     * variables are not kept and `write` later drops them.
     */
    method LoadConfigAsWritten(cf: ConfigFile, order: seq<string>, env: Env) returns (r: Result<seq<string>>)
      requires forall k :: k in order <==> k in cf.current
      modifies this, cf
      ensures cf.current == old(cf.current) && cf.extra == old(cf.extra)
      ensures var l := Loaded(old(options), old(cf.current), order, SetterOf(env));
        (l.Err? ==> r == Err(l.error)) &&
        (l.Ok? ==> r == Ok(l.value.refused) && options == l.value.options && loadedFromFile)
    {
      r := LoadVariables(cf, order, SetterOf(env), false);
    }

    /**
     * The load with the variable's name passed to `add_extra`: every
     * variable of the file that no option has is kept, with its text,
     * for `write` to carry over.
     */
    method LoadConfig(cf: ConfigFile, order: seq<string>, env: Env) returns (r: Result<seq<string>>)
      requires forall k :: k in order <==> k in cf.current
      modifies this, cf
      ensures cf.current == old(cf.current)
      ensures var l := Loaded(old(options), old(cf.current), order, SetterOf(env));
        (l.Err? ==> r == Err(l.error)) &&
        (l.Ok? ==> r == Ok(l.value.refused) && options == l.value.options && loadedFromFile)
      ensures r.Ok? ==> forall k | k in old(cf.current) && Find(old(options), k).None? ::
        k in cf.extra && cf.extra[k] == old(cf.current)[k]
      ensures r.Ok? ==> forall k | k in cf.extra && k !in old(cf.extra) :: k in old(cf.current) && Find(old(options), k).None?
    {
      r := LoadVariables(cf, order, SetterOf(env), true);
      if r.Ok? {
        LoadedUnknown(old(options), old(cf.current), order, SetterOf(env));
      }
    }
  }

  /** The memory option as declared, for the redo space `maxRedo`. */
  function NodeMemory(maxRedo: int, memKb: Option<nat>): (r: Result<ConfigOption>)
    ensures r.Ok? <==> memKb.Some? && memKb.value >= MinSysRam(maxRedo) * 1024
    ensures r.Ok? ==> r.value.name == "NODE_MEMORY" && Fresh(r.value) && r.value.kind == MemoryKind(memKb.value, maxRedo)
  {
    NewMemory("NODE_MEMORY", "Memory to use for ClustrixDB, in MiB", Some("clxnode-mem"), maxRedo, memKb)
  }

  /** The options in declaration order, given the memory option. */
  function Declarations(wildcard: Interface, memory: ConfigOption, hv: Hypervisor, backendDefault: Value): (ds: seq<ConfigOption>)
    requires memory.name == "NODE_MEMORY" && Fresh(memory) && memory.kind.MemoryKind?
    ensures |ds| == 17 && ds[0] == memory
    ensures forall o | o in ds :: Fresh(o)
    ensures ds[9].name == "MYSQL_PORT" && ds[9].kind == PortKind([Tcp], Iface(wildcard), true)
    ensures ds[10].name == "BACKEND_ADDR" && ds[10].value == backendDefault
    ensures ds[11].name == "BACKEND_PORT" && ds[11].kind == PortKind([Tcp, Udp], backendDefault, true)
  {
    var early := Early(memory);
    Later(wildcard, early, hv, backendDefault)
  }

  /** The sizing and path options: no interface among them. */
  function Early(memory: ConfigOption): (ds: seq<ConfigOption>)
    requires memory.name == "NODE_MEMORY" && Fresh(memory) && memory.kind.MemoryKind?
    ensures |ds| == 8 && ds[0] == memory
    ensures forall o | o in ds :: Fresh(o) && !o.kind.InterfaceKind?
  {
    var sizing := Sizing(memory);
    var paths := PathDeclarations;
    FreshAppend(sizing, paths);
    sizing + paths
  }

  /** The network options and the flags, after the first eight. */
  function Later(wildcard: Interface, early: seq<ConfigOption>, hv: Hypervisor, backendDefault: Value): (ds: seq<ConfigOption>)
    requires |early| == 8
    requires forall o | o in early :: Fresh(o) && !o.kind.InterfaceKind?
    ensures |ds| == 17 && ds[0] == early[0]
    ensures forall o | o in ds :: Fresh(o)
    ensures ds[9].name == "MYSQL_PORT" && ds[9].kind == PortKind([Tcp], Iface(wildcard), true)
    ensures ds[10].name == "BACKEND_ADDR" && ds[10].value == backendDefault
    ensures ds[11].name == "BACKEND_PORT" && ds[11].kind == PortKind([Tcp, Udp], backendDefault, true)
  {
    var network := NetworkDeclarations(wildcard, early, backendDefault);
    Joined(early, network, FlagDeclarations(hv))
  }

  /** Eight fresh options, then seven, then two. */
  function Joined(early: seq<ConfigOption>, network: seq<ConfigOption>, flags: seq<ConfigOption>): (ds: seq<ConfigOption>)
    requires |early| == 8 && |network| == 7 && |flags| == 2
    requires forall o | o in early :: Fresh(o)
    requires forall o | o in network :: Fresh(o)
    requires forall o | o in flags :: Fresh(o)
    ensures |ds| == 17 && ds[0] == early[0]
    ensures ds[9] == network[1] && ds[10] == network[2] && ds[11] == network[3]
    ensures forall o | o in ds :: Fresh(o)
  {
    FreshAppend(early, network);
    FreshAppend(early + network, flags);
    early + network + flags
  }

  /** NODE_MEMORY, MAX_REDO and CPU_CORES. */
  function Sizing(memory: ConfigOption): (ds: seq<ConfigOption>)
    requires memory.name == "NODE_MEMORY" && memory.kind.MemoryKind? && Fresh(memory)
    ensures |ds| == 3 && ds[0] == memory
    ensures forall o | o in ds :: !o.kind.InterfaceKind?
    ensures forall o | o in ds :: Fresh(o)
    ensures ds[1].name == "MAX_REDO" && ds[2].name == "CPU_CORES"
    ensures Fresh(ds[1]) && Fresh(ds[2]) && ds[1].kind == Plain && ds[2].kind == Cores
  {
    [memory,
     NewOption("MAX_REDO", "Maximum ClustrixDB Redo Space, in MiB", Int(1024), false, None, Plain),
     NewOption("CPU_CORES", "CPU cores to use for ClustrixDB", Str("All"), false, Some("cpu-cores"), Cores)]
  }

  /** The path options, each after the ones its default refers to. */
  const PathDeclarations: seq<ConfigOption> := PathList(DataPath, LogPath, UiLogDir, UiCacheDir, UnixSocket)

  /** Five fresh path options, in the order given. */
  function PathList(a: ConfigOption, b: ConfigOption, c: ConfigOption, d: ConfigOption, e: ConfigOption): (ds: seq<ConfigOption>)
    requires Fresh(a) && Fresh(b) && Fresh(c) && Fresh(d) && Fresh(e)
    requires a.kind.PathKind? && b.kind.PathKind? && c.kind.PathKind? && d.kind.PathKind? && e.kind.PathKind?
    ensures |ds| == 5
    ensures forall o | o in ds :: Fresh(o) && o.kind.PathKind?
  {
    [a, b, c, d, e]
  }

  const DataPath: ConfigOption :=
    NewPath("DATA_PATH", "Database Storage", "/data/clustrix", Some("data-path"), MinFreeSpace, ValidFilesystems, false)

  const LogPath: ConfigOption :=
    NewPath("LOG_PATH", "Logs", "$DATA_PATH/log", Some("log-path"), 0, [], false)

  const UiLogDir: ConfigOption :=
    NewPath("UI_LOGDIR", "WebUI Logs", "$LOG_PATH/clustrix_ui", Some("ui-log-path"), 0, [], false)

  const UiCacheDir: ConfigOption :=
    NewPath("UI_CACHEDIR", "WebUI Cache", "/var/cache/clustrix/" + "django", None, 0, [], false)

  const UnixSocket: ConfigOption :=
    NewPath("UNIX_SOCKET_PATH", "MySQL Protocol Unix Socket", "/var/lib/mysql/" + "mysql.sock", Some("unix-socket"), 0, [], true)

  /**
   * The path options in order, each fresh: DATA_PATH is /data/clustrix, a
   * directory that wants the minimum free space and a recommended
   * filesystem; the log and UI directories refer to the paths before them;
   * the MySQL socket is a file.
   */
  lemma PathDefaults()
    ensures PathDeclarations == [DataPath, LogPath, UiLogDir, UiCacheDir, UnixSocket]
    ensures forall o | o in PathDeclarations :: Fresh(o) && o.kind.PathKind?
    ensures DataPath.name == "DATA_PATH" && DataPath.value == Str("/data/clustrix")
    ensures DataPath.kind == PathKind(MinFreeSpace, ValidFilesystems, false, false)
    ensures LogPath.name == "LOG_PATH" && LogPath.value == Str("$DATA_PATH/log") && LogPath.kind == PathKind(0, [], false, false)
    ensures UiLogDir.name == "UI_LOGDIR" && UiLogDir.value == Str("$LOG_PATH/clustrix_ui") && UiLogDir.kind == PathKind(0, [], false, false)
    ensures UiCacheDir.name == "UI_CACHEDIR" && UiCacheDir.value == Str("/var/cache/clustrix/django")
    ensures UiCacheDir.kind == PathKind(0, [], false, false)
    ensures UnixSocket.name == "UNIX_SOCKET_PATH" && UnixSocket.value == Str("/var/lib/mysql/mysql.sock")
    ensures UnixSocket.kind == PathKind(0, [], true, false)
  {
  }

  /**
   * The interface options and the ports, each port bound to the current
   * value of the interface option it names among those declared before it.
   */
  function NetworkDeclarations(wildcard: Interface, before: seq<ConfigOption>, backendDefault: Value): (ds: seq<ConfigOption>)
    requires forall o | o in before :: !o.kind.InterfaceKind?
    ensures forall o | o in ds :: Fresh(o)
    ensures |ds| == 7
    ensures ds[1].name == "MYSQL_PORT" && ds[2].name == "BACKEND_ADDR" && ds[3].name == "BACKEND_PORT"
    ensures ds[1].kind == PortKind([Tcp], Iface(wildcard), true)
    ensures ds[2].value == backendDefault
    ensures ds[3].kind == PortKind([Tcp, Udp], backendDefault, true)
  {
    var front := InterfaceDeclarations(wildcard, before, backendDefault);
    var rest := OtherPorts(wildcard, InterfaceMap(before + front));
    front + rest
  }

  /** The two interface options, each followed by the port that names it. */
  function InterfaceDeclarations(wildcard: Interface, before: seq<ConfigOption>, backendDefault: Value): (ds: seq<ConfigOption>)
    requires forall o | o in before :: !o.kind.InterfaceKind?
    ensures forall o | o in ds :: Fresh(o)
    ensures |ds| == 4
    ensures ds[0].kind == InterfaceKind(false) && ds[2].kind == InterfaceKind(true)
    ensures ds[1].name == "MYSQL_PORT" && ds[2].name == "BACKEND_ADDR" && ds[3].name == "BACKEND_PORT"
    ensures ds[1].kind == PortKind([Tcp], Iface(wildcard), true)
    ensures ds[2].value == backendDefault
    ensures ds[3].kind == PortKind([Tcp, Udp], backendDefault, true)
  {
    var listen := ListenAddr(wildcard);
    var front := FrontEnd(before, listen);
    assert BoundInterface(front, Some("FRONTEND_ADDR"), wildcard) == Iface(wildcard);
    var mysql := MysqlPort(wildcard, front);
    var backendAddr := BackendAddr(backendDefault);
    var back := BackEnd(before, listen, mysql, backendAddr);
    assert BoundInterface(back, Some("BACKEND_ADDR"), wildcard) == backendDefault;
    var backendPort := BackendPort(wildcard, back);
    FourFresh(listen, mysql, backendAddr, backendPort)
  }

  /** Four fresh options, in the order given. */
  function FourFresh(a: ConfigOption, b: ConfigOption, c: ConfigOption, d: ConfigOption): (ds: seq<ConfigOption>)
    requires Fresh(a) && Fresh(b) && Fresh(c) && Fresh(d)
    ensures ds == [a, b, c, d]
    ensures forall o | o in ds :: Fresh(o)
  {
    [a, b, c, d]
  }

  /** Three fresh options, in the order given. */
  function ThreeFresh(a: ConfigOption, b: ConfigOption, c: ConfigOption): (ds: seq<ConfigOption>)
    requires Fresh(a) && Fresh(b) && Fresh(c)
    ensures ds == [a, b, c]
    ensures forall o | o in ds :: Fresh(o)
  {
    [a, b, c]
  }

  /** The web UI, nanny and control ports, bound to no named interface. */
  function OtherPorts(wildcard: Interface, interfaces: map<string, Value>): (ds: seq<ConfigOption>)
    ensures |ds| == 3 && ds[0].name == "HTTP_PORT" && ds[1].name == "NANNY_PORT" && ds[2].name == "CONTROL_PORT"
    ensures forall o | o in ds :: Fresh(o)
  {
    ThreeFresh(HttpPort(wildcard, interfaces), NannyPort(wildcard, interfaces), ControlPort(wildcard, interfaces))
  }

  function ListenAddr(wildcard: Interface): (o: ConfigOption)
    ensures o.name == "LISTEN_ADDR" && Fresh(o) && o.kind == InterfaceKind(false) && o.value == Iface(wildcard)
  {
    NewInterfaceOption("LISTEN_ADDR", "Database Listen Address " + "(Front-End IP)", Iface(wildcard), Some("listen-addr"), false)
  }

  function BackendAddr(default: Value): (o: ConfigOption)
    ensures o.name == "BACKEND_ADDR" && Fresh(o) && o.kind == InterfaceKind(true) && o.value == default
  {
    NewInterfaceOption("BACKEND_ADDR", "Private (Back-End) IP", default, Some("cluster-addr"), true)
  }

  function MysqlPort(wildcard: Interface, interfaces: map<string, Value>): (o: ConfigOption)
    ensures o.name == "MYSQL_PORT" && Fresh(o) && o.value == Int(3306)
    ensures o.kind == PortKind([Tcp], BoundInterface(interfaces, Some("FRONTEND_ADDR"), wildcard), true)
  {
    NewPort("MYSQL_PORT", "Database MySQL", 3306, [Tcp], BoundInterface(interfaces, Some("FRONTEND_ADDR"), wildcard), true, Some("mysql-port"))
  }

  function BackendPort(wildcard: Interface, interfaces: map<string, Value>): (o: ConfigOption)
    ensures o.name == "BACKEND_PORT" && Fresh(o) && o.value == Int(24378)
    ensures o.kind == PortKind([Tcp, Udp], BoundInterface(interfaces, Some("BACKEND_ADDR"), wildcard), true)
  {
    NewPort("BACKEND_PORT", "Back End Network", 24378, [Tcp, Udp], BoundInterface(interfaces, Some("BACKEND_ADDR"), wildcard), true, Some("cluster-port"))
  }

  function HttpPort(wildcard: Interface, interfaces: map<string, Value>): (o: ConfigOption)
    ensures o.name == "HTTP_PORT" && Fresh(o) && o.value == Int(80)
    ensures o.kind == PortKind([Tcp], Iface(wildcard), true)
  {
    NewPort("HTTP_PORT", "WebUI HTTP", 80, [Tcp], BoundInterface(interfaces, None, wildcard), true, Some("http-port"))
  }

  function NannyPort(wildcard: Interface, interfaces: map<string, Value>): (o: ConfigOption)
    ensures o.name == "NANNY_PORT" && Fresh(o) && o.value == Int(2424)
    ensures o.kind == PortKind([Tcp], Iface(wildcard), false)
  {
    NewPort("NANNY_PORT", "Nanny", 2424, [Tcp], BoundInterface(interfaces, None, wildcard), false, None)
  }

  function ControlPort(wildcard: Interface, interfaces: map<string, Value>): (o: ConfigOption)
    ensures o.name == "CONTROL_PORT" && Fresh(o) && o.value == Int(2048)
    ensures o.kind == PortKind([Tcp], Iface(wildcard), false)
  {
    NewPort("CONTROL_PORT", "Control", 2048, [Tcp], BoundInterface(interfaces, None, wildcard), false, None)
  }

  /** The interfaces declared before the MySQL port: only the listen address. */
  function FrontEnd(before: seq<ConfigOption>, listen: ConfigOption): (m: map<string, Value>)
    requires forall o | o in before :: !o.kind.InterfaceKind?
    requires listen.name == "LISTEN_ADDR"
    ensures "FRONTEND_ADDR" !in m
  {
    InterfaceMapWithout(before + [listen], "FRONTEND_ADDR");
    InterfaceMap(before + [listen])
  }

  /**
   * MYSQL_PORT names FRONTEND_ADDR where LISTEN_ADDR is declared, but the
   * port takes its interface's value when it is built, and LISTEN_ADDR's
   * value then is the same wildcard: either name binds the port alike.
   */
  lemma FrontEndNameHarmless(before: seq<ConfigOption>, wildcard: Interface)
    requires forall o | o in before :: !o.kind.InterfaceKind?
    ensures var m := FrontEnd(before, ListenAddr(wildcard));
      BoundInterface(m, Some("LISTEN_ADDR"), wildcard) == BoundInterface(m, Some("FRONTEND_ADDR"), wildcard) == Iface(wildcard)
  {
    var listen := ListenAddr(wildcard);
    assert (before + [listen])[|before + [listen]| - 1] == listen;
  }

  /**
   * NODE_MEMORY looks for MAX_REDO before MAX_REDO is declared; declared
   * first, it would be read as its default, which is the fallback anyway.
   */
  lemma MaxRedoOrderHarmless(memory: ConfigOption)
    requires memory.name == "NODE_MEMORY" && memory.kind.MemoryKind? && Fresh(memory)
    ensures MaxRedoFrom([Sizing(memory)[1]]) == MaxRedoFrom([]) == Ok(1024)
  {
  }

  /** The interfaces declared once the back-end address is. */
  function BackEnd(before: seq<ConfigOption>, listen: ConfigOption, mysql: ConfigOption, backendAddr: ConfigOption): (m: map<string, Value>)
    requires backendAddr.kind.InterfaceKind?
    ensures backendAddr.name in m && m[backendAddr.name] == backendAddr.value
  {
    InterfaceMap(before + [listen, mysql, backendAddr])
  }

  /** The sshd-trust flag and the HugeTLB toggle. */
  function FlagDeclarations(hv: Hypervisor): (ds: seq<ConfigOption>)
    ensures |ds| == 2 && ds[0].name == "WRITE_HOSTS" && ds[1].name == "HUGE_TLB_ENABLE"
    ensures forall o | o in ds :: Fresh(o)
  {
    [NewOption("WRITE_HOSTS", SshDescription, Bool(true), false, Some("no-configure-sshd-trust"), SshTrust),
     NewHugeTlb("HUGE_TLB_ENABLE", HugeTlbDescription, Some("toggle-hugetlb"), hv)]
  }

  /** A name no interface option has is not among the interfaces. */
  lemma InterfaceMapWithout(options: seq<ConfigOption>, name: string)
    requires forall i | 0 <= i < |options| :: options[i].kind.InterfaceKind? ==> options[i].name != name
    ensures name !in InterfaceMap(options)
  {
  }

  lemma FreshAppend(a: seq<ConfigOption>, b: seq<ConfigOption>)
    requires forall o | o in a :: Fresh(o)
    requires forall o | o in b :: Fresh(o)
    ensures forall o | o in a + b :: Fresh(o)
  {
  }

  /** A name no option carries is not found. */
  lemma FindAbsent(options: seq<ConfigOption>, name: string)
    requires forall j | 0 <= j < |options| :: !IsVar(options[j], name)
    ensures Find(options, name) == None
  {
  }

  /** Whether an option is the variable `name`. */
  predicate IsVar(o: ConfigOption, name: string)
  {
    o.name == name
  }

  /** An index with the name and none before it is what `get_var` finds. */
  lemma {:induction false} FindFirst(options: seq<ConfigOption>, name: string, i: nat)
    requires i < |options| && IsVar(options[i], name)
    requires forall j | 0 <= j < i :: !IsVar(options[j], name)
    ensures Find(options, name) == Some(i)
  {
    if i > 0 {
      var rest := options[1..];
      assert !IsVar(options[0], name);
      assert forall j | 0 <= j < i - 1 :: rest[j] == options[j + 1];
      FindFirst(rest, name, i - 1);
    }
  }

  // ------------------------------------------------------------ load config

  /** What reading the file's variables did: the options, the variables whose text was refused, the unknown ones. */
  datatype Loading = Loading(options: seq<ConfigOption>, refused: seq<string>, unknown: seq<string>)

  /** The options differ from the old ones at most in their values and `is_set`. */
  predicate Retouched(before: seq<ConfigOption>, after: seq<ConfigOption>)
  {
    |after| == |before| &&
    forall j | 0 <= j < |before| :: after[j] == before[j].(value := after[j].value, isSet := after[j].isSet)
  }

  /** `set_value` on a file variable's text: the outcome for the option. */
  type Setter = (ConfigOption, string) -> SetOutcome

  /** The program's own `set_value`, under the run's environment. */
  function SetterOf(env: Env): Setter
  {
    (o: ConfigOption, text: string) => SetValue(o, Str(text), env)
  }

  /** `set_value` works on the option in place: only its value and `is_set` change. */
  function Restored(o: ConfigOption, after: ConfigOption): (r: ConfigOption)
    ensures r.value == after.value && r.isSet == after.isSet
    ensures after == o.(value := after.value, isSet := after.isSet) ==> r == after
  {
    o.(value := after.value, isSet := after.isSet)
  }

  /**
   * The loop of `main` over the file's variables, taken in `order`: a
   * variable some option has goes to that option's `set_value`; an unknown
   * one is passed on; an exception from `set_value` ends the program.
   */
  function Loaded(options: seq<ConfigOption>, current: map<string, string>, order: seq<string>, setValue: Setter): (r: Result<Loading>)
    requires forall i | 0 <= i < |order| :: order[i] in current
    ensures r.Ok? ==> Retouched(options, r.value.options)
    decreases |order|
  {
    if order == [] then Ok(Loading(options, [], []))
    else
      var prev :- Loaded(options, current, order[..|order| - 1], setValue);
      Visit(prev, order[|order| - 1], current[order[|order| - 1]], setValue)
  }

  /** One variable of the file, with its text. */
  function Visit(prev: Loading, k: string, text: string, setValue: Setter): (r: Result<Loading>)
    ensures r.Ok? ==> Retouched(prev.options, r.value.options)
    ensures r.Ok? ==> r.value.unknown == prev.unknown + (if Find(prev.options, k).None? then [k] else [])
  {
    match Find(prev.options, k)
    case None => Ok(prev.(unknown := prev.unknown + [k]))
    case Some(i) =>
      match setValue(prev.options[i], text)
      case Stored(o) => Ok(prev.(options := prev.options[i := Restored(prev.options[i], o)]))
      case Reprompted => Ok(prev.(refused := prev.refused + [k]))
      case Raised(e) => Err(e)
  }

  /** A variable no option is named after is only noted as unknown. */
  lemma VisitUnknown(prev: Loading, k: string, text: string, setValue: Setter)
    requires Find(prev.options, k).None?
    ensures Visit(prev, k, text, setValue) == Ok(Loading(prev.options, prev.refused, prev.unknown + [k]))
  {
  }

  /** A value the option accepts replaces that option. */
  lemma VisitStored(prev: Loading, k: string, text: string, setValue: Setter, i: nat, o: ConfigOption)
    requires Find(prev.options, k) == Some(i) && setValue(prev.options[i], text) == Stored(o)
    ensures Visit(prev, k, text, setValue) == Ok(Loading(prev.options[i := Restored(prev.options[i], o)], prev.refused, prev.unknown))
  {
  }

  /** A value the option refuses leaves the options alone and notes the variable. */
  lemma VisitRefused(prev: Loading, k: string, text: string, setValue: Setter, i: nat)
    requires Find(prev.options, k) == Some(i) && setValue(prev.options[i], text) == Reprompted
    ensures Visit(prev, k, text, setValue) == Ok(Loading(prev.options, prev.refused + [k], prev.unknown))
  {
  }

  /** A visit that succeeds extends the loading by one variable. */
  lemma LoadStep(options: seq<ConfigOption>, current: map<string, string>, order: seq<string>, i: nat, setValue: Setter, prev: Loading, next: Result<Loading>)
    requires forall j | 0 <= j < |order| :: order[j] in current
    requires i < |order| && Loaded(options, current, order[..i], setValue) == Ok(prev)
    requires Visit(prev, order[i], current[order[i]], setValue) == next
    ensures Loaded(options, current, order[..i + 1], setValue) == next
  {
    LoadedSnoc(options, current, order, i, setValue);
  }

  /**
   * One pass of the load loop: an error ends the whole loading with that
   * error, otherwise the variables read so far are loaded into `after`.
   */
  lemma LoadIteration(options: seq<ConfigOption>, current: map<string, string>, order: seq<string>, i: nat, setValue: Setter,
                      prev: Loading, next: Result<seq<string>>, after: Loading)
    requires forall j | 0 <= j < |order| :: order[j] in current
    requires i < |order| && Loaded(options, current, order[..i], setValue) == Ok(prev)
    requires var v := Visit(prev, order[i], current[order[i]], setValue);
      (v.Err? ==> next == Err(v.error)) && (v.Ok? ==> next == Ok(v.value.refused) && after == v.value)
    ensures next.Err? ==> Loaded(options, current, order, setValue) == Err(next.error)
    ensures next.Ok? ==> Loaded(options, current, order[..i + 1], setValue) == Ok(after)
  {
    LoadStep(options, current, order, i, setValue, prev, Visit(prev, order[i], current[order[i]], setValue));
    if next.Err? {
      LoadedPrefixErr(options, current, order, i + 1, setValue);
    }
  }

  /** An error from `set_value` ends the loading with that error. */
  lemma VisitRaised(prev: Loading, k: string, text: string, setValue: Setter, i: nat, e: string)
    requires Find(prev.options, k) == Some(i) && setValue(prev.options[i], text) == Raised(e)
    ensures Visit(prev, k, text, setValue) == Err(e)
  {
  }

  /** Reading one more variable is one more visit. */
  lemma LoadedSnoc(options: seq<ConfigOption>, current: map<string, string>, order: seq<string>, i: nat, setValue: Setter)
    requires forall j | 0 <= j < |order| :: order[j] in current
    requires i < |order| && Loaded(options, current, order[..i], setValue).Ok?
    ensures Loaded(options, current, order[..i + 1], setValue) ==
      Visit(Loaded(options, current, order[..i], setValue).value, order[i], current[order[i]], setValue)
  {
    assert order[..i + 1][..i] == order[..i] && order[..i + 1][i] == order[i];
  }

  /** Lookups by name see through changes of value. */
  lemma {:induction false} FindRetouched(before: seq<ConfigOption>, after: seq<ConfigOption>, name: string)
    requires Retouched(before, after)
    ensures Find(after, name) == Find(before, name)
  {
    if before != [] {
      assert Retouched(before[1..], after[1..]) by {
        forall j | 0 <= j < |before| - 1
          ensures after[1..][j] == before[1..][j].(value := after[1..][j].value, isSet := after[1..][j].isSet)
        {
          assert after[1..][j] == after[j + 1] && before[1..][j] == before[j + 1];
        }
      }
      FindRetouched(before[1..], after[1..], name);
    }
  }

  /**
   * A variable is passed on as unknown exactly when it is in the file and
   * no option has its name.
   */
  lemma {:induction false} LoadedUnknown(options: seq<ConfigOption>, current: map<string, string>, order: seq<string>, setValue: Setter)
    requires forall i | 0 <= i < |order| :: order[i] in current
    requires Loaded(options, current, order, setValue).Ok?
    ensures forall k :: k in Loaded(options, current, order, setValue).value.unknown <==> k in order && Find(options, k).None?
  {
    if order != [] {
      var init, k := order[..|order| - 1], order[|order| - 1];
      UnknownStep(options, current, order, setValue);
      LoadedUnknown(options, current, init, setValue);
      UnknownSnoc(options, Loaded(options, current, init, setValue).value.unknown, order);
    }
  }

  /** The last variable read is added to the unknown names exactly when no option has its name. */
  lemma UnknownStep(options: seq<ConfigOption>, current: map<string, string>, order: seq<string>, setValue: Setter)
    requires forall i | 0 <= i < |order| :: order[i] in current
    requires order != [] && Loaded(options, current, order, setValue).Ok?
    ensures var init, k := order[..|order| - 1], order[|order| - 1];
      Loaded(options, current, init, setValue).Ok? &&
      Loaded(options, current, order, setValue).value.unknown ==
        Loaded(options, current, init, setValue).value.unknown + (if Find(options, k).None? then [k] else [])
  {
    var init, k := order[..|order| - 1], order[|order| - 1];
    var prev := Loaded(options, current, init, setValue).value;
    FindRetouched(options, prev.options, k);
  }

  /** The unknown names of one more variable. */
  lemma UnknownSnoc(options: seq<ConfigOption>, unknown: seq<string>, order: seq<string>)
    requires order != []
    requires forall x :: x in unknown <==> x in order[..|order| - 1] && Find(options, x).None?
    ensures var k := order[|order| - 1];
      forall x :: x in unknown + (if Find(options, k).None? then [k] else []) <==> x in order && Find(options, x).None?
  {
    var init, k := order[..|order| - 1], order[|order| - 1];
    assert order == init + [k];
    forall x
      ensures x in unknown + (if Find(options, k).None? then [k] else []) <==> x in order && Find(options, x).None?
    {
      assert x in init + [k] <==> x in init || x == k;
    }
  }

  /** Once a variable raises, the whole loop raises the same error. */
  lemma {:induction false} LoadedPrefixErr(options: seq<ConfigOption>, current: map<string, string>, order: seq<string>, n: nat, setValue: Setter)
    requires forall i | 0 <= i < |order| :: order[i] in current
    requires n <= |order| && Loaded(options, current, order[..n], setValue).Err?
    ensures Loaded(options, current, order, setValue) == Loaded(options, current, order[..n], setValue)
    decreases |order| - n
  {
    if n < |order| {
      assert order[..n + 1][..n] == order[..n];
      LoadedPrefixErr(options, current, order, n + 1, setValue);
    } else {
      assert order[..n] == order;
    }
  }

  /**
   * A path, port, interface or memory variable whose text is stored gets
   * the value `set_value` makes of the text, and the next variable of the
   * same name finds the option changed.
   */
  lemma LoadedOne(options: seq<ConfigOption>, current: map<string, string>, k: string, env: Env)
    requires k in current && Find(options, k).Some?
    requires SetValue(options[Find(options, k).value], Str(current[k]), env).Stored?
    ensures var i := Find(options, k).value;
      Loaded(options, current, [k], SetterOf(env)) ==
        Ok(Loading(options[i := SetValue(options[i], Str(current[k]), env).option], [], []))
  {
    var i := Find(options, k).value;
    var o := SetValue(options[i], Str(current[k]), env).option;
    assert [k][..0] == [];
    assert Restored(options[i], o) == o;
  }

  /** The file's values for the given names. */
  function Kept(current: map<string, string>, names: seq<string>): (m: map<string, string>)
    ensures forall k :: k in m <==> k in current && k in names
    ensures forall k | k in m :: m[k] == current[k]
  {
    map k | k in current && k in names :: current[k]
  }

  lemma KeptSnoc(current: map<string, string>, names: seq<string>, k: string)
    requires k in current
    ensures Kept(current, names + [k]) == Kept(current, names)[k := current[k]]
  {
  }

  /** Handing one more unknown variable to `add_extra` adds it to the kept ones. */
  lemma KeptGrows(base: map<string, string>, current: map<string, string>, unknown: seq<string>, k: string)
    requires k in current
    ensures (base + Kept(current, unknown))[k := current[k]] == base + Kept(current, unknown + [k])
  {
    KeptSnoc(current, unknown, k);
    UpdateUnion(base, Kept(current, unknown), k, current[k]);
  }

  /** The kept variables after one more variable, unknown or not. */
  lemma KeptStep(base: map<string, string>, current: map<string, string>, unknown: seq<string>, k: string, isUnknown: bool)
    requires k in current
    ensures var before := base + Kept(current, unknown);
      (if isUnknown then before[k := current[k]] else before) ==
        base + Kept(current, unknown + (if isUnknown then [k] else []))
  {
    if isUnknown {
      KeptGrows(base, current, unknown, k);
    } else {
      assert unknown + [] == unknown;
    }
  }

  lemma UpdateUnion<K, V>(a: map<K, V>, b: map<K, V>, k: K, v: V)
    ensures (a + b)[k := v] == a + b[k := v]
  {
  }

  // -------------------------------------------------------------- check loop

  /** How the check loop ends: every option passed, or the check of one option stopped it. */
  datatype Verdict = Passed | Stopped(index: nat, outcome: Outcome)

  /** A check lets the loop go on when it accepts (the sshd-trust check is not modelled). */
  predicate Continues(outcome: Outcome)
  {
    outcome.Accepted? || outcome.External?
  }

  /**
   * A check leaves an option's name and settings alone: only the value,
   * and a path's record of having created its directory, change.
   */
  predicate Rechecked(before: ConfigOption, after: ConfigOption)
  {
    after == before.(value := after.value, kind := after.kind) &&
    (after.kind == before.kind || (before.kind.PathKind? && after.kind == before.kind.(created := true)))
  }

  /** What a check of one option can end the program for. */
  predicate MayBeFatal(o: ConfigOption, mode: RunMode)
  {
    o.kind.MemoryKind? || o.kind.InterfaceKind? || (o.kind.PortKind? && !o.kind.configurable && !mode.force)
  }

  /**
   * The check loop of `main` outside the wizard, from option `i` on: each
   * option's `check()` sees the options as the earlier checks left them,
   * with `worlds[j]` what the system and the user tell the check of
   * option `j`.  A check that does not accept ends the loop.  `asWritten`
   * picks the program's filesystem test or the corrected one.
   */
  function CheckedFrom(options: seq<ConfigOption>, mode: RunMode, worlds: seq<World>, i: nat, asWritten: bool): (r: (seq<ConfigOption>, Verdict))
    requires i <= |options| == |worlds|
    ensures |r.0| == |options|
    ensures forall j | 0 <= j < |options| :: Rechecked(options[j], r.0[j])
    ensures forall j | 0 <= j < i :: r.0[j] == options[j]
    ensures r.1.Stopped? ==> i <= r.1.index < |options| && !Continues(r.1.outcome)
    ensures r.1.Stopped? && r.1.outcome == Fatal ==> MayBeFatal(options[r.1.index], mode)
    decreases |options| - i
  {
    if i == |options| then (options, Passed)
    else
      var o := options[i];
      var c := Check(o, mode, PathMap(options), ParentCreated(options, o.value), worlds[i], asWritten);
      FatalOnlyWhen(o, mode, PathMap(options), ParentCreated(options, o.value), worlds[i], asWritten);
      var next := options[i := c.option];
      RecheckedOne(options, i, c.option);
      if !Continues(c.outcome) then (next, Stopped(i, c.outcome))
      else
        var r := CheckedFrom(next, mode, worlds, i + 1, asWritten);
        CheckedKept(options, next, r, i, mode);
        r
  }

  /** A check of one option leaves every option rechecked. */
  lemma RecheckedOne(options: seq<ConfigOption>, i: nat, after: ConfigOption)
    requires i < |options| && Rechecked(options[i], after)
    ensures forall j | 0 <= j < |options| :: Rechecked(options[j], options[i := after][j])
  {
  }

  /** The check loop from option `i` is the check of option `i`, then the loop from `i + 1` unless it stopped. */
  lemma CheckedStep(options: seq<ConfigOption>, mode: RunMode, worlds: seq<World>, i: nat, asWritten: bool, c: Checked)
    requires i < |options| == |worlds|
    requires c == Check(options[i], mode, PathMap(options), ParentCreated(options, options[i].value), worlds[i], asWritten)
    ensures CheckedFrom(options, mode, worlds, i, asWritten) ==
      if !Continues(c.outcome) then (options[i := c.option], Stopped(i, c.outcome))
      else CheckedFrom(options[i := c.option], mode, worlds, i + 1, asWritten)
  {
  }

  /**
   * What the rest of the loop leaves, seen from option `i`: checking option
   * `i` first changes that option only as a check may, so the whole loop
   * still keeps every option's name and settings and the earlier options.
   */
  lemma CheckedKept(options: seq<ConfigOption>, next: seq<ConfigOption>, r: (seq<ConfigOption>, Verdict), i: nat, mode: RunMode)
    requires i < |options| == |next| == |r.0|
    requires next == options[i := next[i]] && Rechecked(options[i], next[i])
    requires forall j | 0 <= j < |next| :: Rechecked(next[j], r.0[j])
    requires forall j | 0 <= j < i + 1 :: r.0[j] == next[j]
    requires r.1.Stopped? ==> i < r.1.index < |next|
    requires r.1.Stopped? && r.1.outcome == Fatal ==> MayBeFatal(next[r.1.index], mode)
    ensures forall j | 0 <= j < |options| :: Rechecked(options[j], r.0[j])
    ensures forall j | 0 <= j < i :: r.0[j] == options[j]
    ensures r.1.Stopped? && r.1.outcome == Fatal ==> MayBeFatal(options[r.1.index], mode)
  {
  }

  // ------------------------------------------------------------ print config

  /**
   * The arguments --print-config prints: every option's `mkarg(False)`
   * that is not empty, in declaration order.
   */
  function Args(options: seq<ConfigOption>, loadedFromFile: bool): (r: Result<seq<string>>)
    ensures r.Ok? ==> |r.value| <= |options|
    ensures r.Ok? ==> forall j | 0 <= j < |r.value| :: "--" <= r.value[j]
  {
    if options == [] then Ok([])
    else
      var init :- Args(options[..|options| - 1], loadedFromFile);
      var arg :- MkArg(options[|options| - 1], false, loadedFromFile);
      MkArgDashes(options[|options| - 1], false, loadedFromFile);
      Ok(if arg.Some? && arg.value != "" then init + [arg.value] else init)
  }

  /** One more option: its `mkarg` error, or its argument appended when not empty. */
  lemma ArgsStep(options: seq<ConfigOption>, loadedFromFile: bool, i: nat, args: seq<string>)
    requires i < |options| && Args(options[..i], loadedFromFile) == Ok(args)
    ensures var arg := MkArg(options[i], false, loadedFromFile);
      Args(options[..i + 1], loadedFromFile) ==
        if arg.Err? then Err(arg.error)
        else Ok(if arg.value.Some? && arg.value.value != "" then args + [arg.value.value] else args)
  {
    assert options[..i + 1][..i] == options[..i] && options[..i + 1][i] == options[i];
  }

  /** Once an option's `mkarg` raises, printing raises the same error. */
  lemma {:induction false} ArgsPrefixErr(options: seq<ConfigOption>, loadedFromFile: bool, n: nat)
    requires n <= |options| && Args(options[..n], loadedFromFile).Err?
    ensures Args(options, loadedFromFile) == Args(options[..n], loadedFromFile)
    decreases |options| - n
  {
    if n < |options| {
      assert options[..n + 1][..n] == options[..n];
      ArgsPrefixErr(options, loadedFromFile, n + 1);
    } else {
      assert options[..n] == options;
    }
  }

  /** The argument of a named plain option: "--name=value", or "--name=<VAR>" per node. */
  function PlainArgText(o: ConfigOption): string
    requires Named(o.optionName)
  {
    "--" + o.optionName.value + "=" + (if o.perNode then "<" + o.name + ">" else Show(o.value))
  }

  /**
   * When every option is a named plain option, --print-config prints one
   * argument per option, each naming the option and its value, even
   * options left at their defaults.
   */
  lemma {:induction false} ArgsPlain(options: seq<ConfigOption>, loadedFromFile: bool)
    requires forall j | 0 <= j < |options| :: PlainArg(options[j].kind) && Named(options[j].optionName) && IsDefault(options[j]).Ok?
    ensures Args(options, loadedFromFile).Ok?
    ensures |Args(options, loadedFromFile).value| == |options|
    ensures forall j | 0 <= j < |options| :: Args(options, loadedFromFile).value[j] == PlainArgText(options[j])
  {
    if options != [] {
      var init := options[..|options| - 1];
      var last := options[|options| - 1];
      ArgsPlain(init, loadedFromFile);
      var front := Args(init, loadedFromFile).value;
      ArgsPlainLast(options, loadedFromFile, front);
      PlainArgsSnoc(options, front);
    }
  }

  /** A named plain option at the end adds its argument to those before it. */
  lemma ArgsPlainLast(options: seq<ConfigOption>, loadedFromFile: bool, front: seq<string>)
    requires options != [] && Args(options[..|options| - 1], loadedFromFile) == Ok(front)
    requires var last := options[|options| - 1];
      PlainArg(last.kind) && Named(last.optionName) && IsDefault(last).Ok?
    ensures Args(options, loadedFromFile) == Ok(front + [PlainArgText(options[|options| - 1])])
  {
    var last := options[|options| - 1];
    MkArgPlain(last, false, loadedFromFile);
    var arg := PlainArgText(last);
    assert MkArg(last, false, loadedFromFile) == Ok(Some(arg));
    assert |arg| >= 2;
    ArgsStep(options, loadedFromFile, |options| - 1, front);
    assert options[..|options|] == options;
  }

  /** One argument per option before the last, then the last one's. */
  lemma PlainArgsSnoc(options: seq<ConfigOption>, front: seq<string>)
    requires |options| > 0 && |front| == |options| - 1
    requires forall j | 0 <= j < |options| :: Named(options[j].optionName)
    requires forall j | 0 <= j < |front| :: front[j] == PlainArgText(options[j])
    ensures forall j | 0 <= j < |options| :: (front + [PlainArgText(options[|options| - 1])])[j] == PlainArgText(options[j])
  {
    var all := front + [PlainArgText(options[|options| - 1])];
    forall j | 0 <= j < |options|
      ensures all[j] == PlainArgText(options[j])
    {
      if j < |front| { assert all[j] == front[j]; }
    }
  }
}
