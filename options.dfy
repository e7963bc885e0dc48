/**
 * The installer's configuration options.  Every option is a value holding
 * its variable name, descriptions, default, current value and whether it
 * was set; its kind carries what the option's class adds.  This module
 * gives each kind's constructor, `set_value`, `is_default`, `mkarg` and
 * `config_string`; the checks are in module Checks and the registry that
 * holds the options, and updates them in place, in module Registry.
 */
module Options {
  import opened Wrappers
  import opened Text
  import opened Address
  import opened Routes
  import opened Interfaces
  import opened Values
  import opened Paths
  import opened RunFlags

  /** Memory left to the operating system, in MiB. */
  const MinimumOsRam: int := 1024
  /** The least memory the database is given, in MiB. */
  const MinimumClxRam: int := 3072
  /** Free space the data directory should have, in GiB. */
  const MinFreeSpace: nat := 20
  /** Filesystems recommended for the data directory. */
  const ValidFilesystems: seq<string> := ["ext4", "xfs"]

  datatype Proto = Tcp | Udp

  /**
   * What an option's class adds to a plain option.
   *  - Flag: a yes/no option; SshTrust: the sshd-trust flag, whose check
   *    edits system files.
   *  - PathKind: free space wanted in GiB (0 for no test), recommended
   *    filesystems (empty for no test), whether the path names a file, and
   *    whether this run created its directory (`mkdir`).
   *  - InterfaceKind: whether an assigned address is required.
   *  - PortKind: protocols, the interface the port is bound to, and whether
   *    the user may choose the port.
   *  - MemoryKind: MemTotal in kB and the redo space in MiB.
   */
  datatype Kind =
    | Plain
    | Flag
    | SshTrust
    | HugeTlb
    | PathKind(minFree: nat, validFs: seq<string>, isFile: bool, created: bool)
    | InterfaceKind(requiresAddress: bool)
    | PortKind(protos: seq<Proto>, bound: Value, configurable: bool)
    | MemoryKind(memKb: nat, maxRedo: int)
    | Cores

  /** One configuration option. */
  datatype ConfigOption = ConfigOption(
    name: string,
    description: string,
    longDescription: string,
    default: Value,
    value: Value,
    perNode: bool,
    optionName: Option<string>,
    isSet: bool,
    kind: Kind)

  /** A string is truthy when it is present and not empty. */
  predicate Named(s: Option<string>)
  {
    s.Some? && s.value != ""
  }

  // ------------------------------------------------------------ construction

  /** The description shown to users: prefixed with "ClustrixDB " unless it names it already. */
  function LongDescription(description: string): string
  {
    if Occurs("ClustrixDB", description) then description else "ClustrixDB " + description
  }

  /**
   * The long description names ClustrixDB and ends with the description,
   * and it is the description itself exactly when that names ClustrixDB.
   */
  lemma LongDescriptionSpec(description: string)
    ensures Occurs("ClustrixDB", LongDescription(description))
    ensures var r := LongDescription(description);
      |description| <= |r| && r[|r| - |description|..] == description
    ensures LongDescription(description) == description <==> Occurs("ClustrixDB", description)
  {
    var r := LongDescription(description);
    if !Occurs("ClustrixDB", description) {
      assert OccursAt("ClustrixDB", r, 0);
      assert |r| > |description|;
    }
  }

  /** `ConfigOption.__init__`: the option starts at its default, not set. */
  function NewOption(name: string, description: string, default: Value, perNode: bool, optionName: Option<string>, kind: Kind): (o: ConfigOption)
    ensures o.name == name && o.description == description && o.kind == kind
    ensures o.optionName == optionName && o.perNode == perNode
    ensures o.value == o.default == default && !o.isSet
    ensures o.longDescription == LongDescription(description)
  {
    ConfigOption(name, description, LongDescription(description), default, default, perNode, optionName, false, kind)
  }

  /** `ConfigPathOption.__init__`: a directory's descriptions end in " Path". */
  function NewPath(name: string, description: string, default: string, optionName: Option<string>,
                   minFree: nat, validFs: seq<string>, isFile: bool): (o: ConfigOption)
    ensures o.name == name && o.value == o.default == Str(default) && !o.isSet
    ensures o.kind == PathKind(minFree, validFs, isFile, false)
    ensures isFile ==> o.description == description
    ensures !isFile ==> o.description == description + " Path"
    ensures !isFile ==> o.longDescription == LongDescription(description) + " Path"
  {
    var o := NewOption(name, description, Str(default), false, optionName, PathKind(minFree, validFs, isFile, false));
    if isFile then o
    else o.(description := description + " Path", longDescription := o.longDescription + " Path")
  }

  /** `ConfigInterfaceOption.__init__`: the long description ends in " Interface". */
  function NewInterfaceOption(name: string, description: string, default: Value, optionName: Option<string>,
                              requiresAddress: bool): (o: ConfigOption)
    ensures o.name == name && o.value == o.default == default && !o.isSet
    ensures o.kind == InterfaceKind(requiresAddress)
    ensures o.longDescription == LongDescription(description) + " Interface"
  {
    var o := NewOption(name, description, default, false, optionName, InterfaceKind(requiresAddress));
    o.(longDescription := o.longDescription + " Interface")
  }

  function ProtoText(p: Proto): string
  {
    match p
    case Tcp => "TCP"
    case Udp => "UDP"
  }

  /** The protocols' names joined by '/'. */
  function ProtoStr(protos: seq<Proto>): string
  {
    Join(seq(|protos|, i requires 0 <= i < |protos| => ProtoText(protos[i])), "/")
  }

  /**
   * The interface a port binds to: the current value of the interface
   * option called `interfaceName` when one is registered, otherwise the
   * wildcard `Interface()`.
   */
  function BoundInterface(interfaces: map<string, Value>, interfaceName: Option<string>, wildcard: Interface): (v: Value)
    ensures interfaceName.Some? && interfaceName.value in interfaces ==> v == interfaces[interfaceName.value]
    ensures !(interfaceName.Some? && interfaceName.value in interfaces) ==> v == Iface(wildcard)
  {
    if interfaceName.Some? && interfaceName.value in interfaces then interfaces[interfaceName.value] else Iface(wildcard)
  }

  /** `ConfigPortOption.__init__`: the description names the protocols and the port. */
  function NewPort(name: string, description: string, default: int, protos: seq<Proto>, bound: Value,
                   configurable: bool, optionName: Option<string>): (o: ConfigOption)
    ensures o.name == name && o.value == o.default == Int(default) && !o.isSet
    ensures o.kind == PortKind(protos, bound, configurable)
  {
    var o := NewOption(name, description, Int(default), false, optionName, PortKind(protos, bound, configurable));
    o.(description := description + " " + ProtoStr(protos) + " Port", longDescription := o.longDescription + " Port")
  }

  /**
   * A port's description is the given one followed by its protocols and
   * " Port"; its long description names ClustrixDB and ends in " Port".
   */
  lemma PortDescriptions(name: string, description: string, default: int, protos: seq<Proto>, bound: Value,
                         configurable: bool, optionName: Option<string>)
    ensures var o := NewPort(name, description, default, protos, bound, configurable, optionName);
      description + " " <= o.description && o.description[|o.description| - 5..] == " Port" &&
      Occurs(ProtoStr(protos), o.description)
    ensures var o := NewPort(name, description, default, protos, bound, configurable, optionName);
      Occurs("ClustrixDB", o.longDescription) && o.longDescription[|o.longDescription| - 5..] == " Port"
  {
    var o := NewPort(name, description, default, protos, bound, configurable, optionName);
    var long := LongDescription(description);
    LongDescriptionSpec(description);
    assert o.description == description + " " + ProtoStr(protos) + " Port";
    assert OccursAt(ProtoStr(protos), o.description, |description| + 1);
    assert o.longDescription == long + " Port";
    var i :| 0 <= i <= |long| && OccursAt("ClustrixDB", long, i);
    assert OccursAt("ClustrixDB", o.longDescription, i);
  }

  /** Memory kept back from the database: the OS share plus the redo space. */
  function Reserve(maxRedo: int): int
  {
    MinimumOsRam + maxRedo
  }

  /** The least total memory the system needs. */
  function MinSysRam(maxRedo: int): int
  {
    MinimumClxRam + Reserve(maxRedo)
  }

  /**
   * The redo space `ConfigMemOption.__init__` finds among the options
   * registered before it: the value of the last one named MAX_REDO, or
   * 1024.  A value that is not a number cannot be added to, a TypeError.
   */
  function MaxRedoFrom(registered: seq<ConfigOption>): Result<int>
  {
    if registered == [] then Ok(1024)
    else if registered[|registered| - 1].name == "MAX_REDO" then
      var v := registered[|registered| - 1].value;
      if Numeric(v) then Ok(AsInt(v)) else Err("TypeError: unsupported operand type(s) for +")
    else MaxRedoFrom(registered[..|registered| - 1])
  }

  /** Without an earlier MAX_REDO, the redo space is 1024 MiB. */
  lemma {:induction false} MaxRedoAbsent(registered: seq<ConfigOption>)
    requires forall k | 0 <= k < |registered| :: registered[k].name != "MAX_REDO"
    ensures MaxRedoFrom(registered) == Ok(1024)
  {
    if registered != [] {
      MaxRedoAbsent(registered[..|registered| - 1]);
    }
  }

  /**
   * `ConfigMemOption.__init__`: the installer exits when MemTotal is
   * missing or below the system minimum; otherwise the default is what
   * remains after the reserve, in whole MiB.  MemTotal is `memKb` kB, and
   * comparing `memKb / 1024` with a whole number of MiB is comparing
   * `memKb` with that number times 1024.
   */
  function NewMemory(name: string, description: string, optionName: Option<string>, maxRedo: int, memKb: Option<nat>): (r: Result<ConfigOption>)
    ensures r.Ok? <==> memKb.Some? && memKb.value >= MinSysRam(maxRedo) * 1024
    ensures r.Ok? ==> r.value.name == name && r.value.value == r.value.default && !r.value.isSet
    ensures r.Ok? ==> r.value.kind == MemoryKind(memKb.value, maxRedo)
    ensures r.Ok? ==> r.value.default.Int? && r.value.default.i >= MinimumClxRam
    ensures r.Ok? ==> (r.value.default.i + Reserve(maxRedo)) * 1024 <= memKb.value < (r.value.default.i + Reserve(maxRedo) + 1) * 1024
  {
    if memKb.None? || memKb.value < MinSysRam(maxRedo) * 1024 then Err("exit(1): not enough memory")
    else
      var d := (memKb.value - Reserve(maxRedo) * 1024) / 1024;
      Ok(NewOption(name, description, Int(d), false, optionName, MemoryKind(memKb.value, maxRedo)))
  }

  /** What /sys/hypervisor/type says, if it exists, and whether /proc/acpi exists. */
  datatype Hypervisor = NoHypervisor | Hypervisor(kind: string, hasAcpi: bool)

  /**
   * `ConfigHugeTLBOption.__init__`: HugeTLB is on by default on bare metal
   * and on a Xen guest with ACPI, off on a Xen guest without ACPI and under
   * any other hypervisor.
   */
  function NewHugeTlb(name: string, description: string, optionName: Option<string>, hv: Hypervisor): (o: ConfigOption)
    ensures o.name == name && o.kind == HugeTlb && !o.isSet && o.value == o.default
    ensures o.default == Bool(hv.NoHypervisor? || (Strip(hv.kind) == "xen" && hv.hasAcpi))
  {
    var on := match hv
      case NoHypervisor => true
      case Hypervisor(kind, acpi) => Strip(kind) == "xen" && acpi;
    var o := NewOption(name, description, Null, false, optionName, HugeTlb);
    o.(default := Bool(on), value := Bool(on))
  }

  // --------------------------------------------------------------- set_value

  /** The run modes and the system facts `set_value` depends on. */
  datatype Env = Env(mode: RunMode, sys: System, table: map<string, seq<Route>>, home: string, homes: map<string, string>, cwd: string)

  /**
   * What `set_value` does: store a new value (and `is_set`), re-prompt the
   * user (the answer is not modelled), or raise.
   */
  datatype SetOutcome = Stored(option: ConfigOption) | Reprompted | Raised(error: string)

  /** `v in (True, False)`, compared with Python's `==`, so 1 and 0 count. */
  function IsBoolLike(v: Value): Result<bool>
  {
    var t :- Equals(v, Bool(true));
    if t then Ok(true) else Equals(v, Bool(false))
  }

  /** Python 2's `int(v)`: a ValueError is None here; None and interfaces raise TypeError. */
  function IntOf(v: Value): Result<Option<int>>
  {
    match v
    case Str(s) => Ok(ParseInt(s, 10))
    case Int(i) => Ok(Some(i))
    case Bool(b) => Ok(Some(if b then 1 else 0))
    case Null => Err("TypeError: int() argument must be a string or a number, not 'NoneType'")
    case Iface(_) => Err("TypeError: int() argument must be a string or a number, not 'Interface'")
  }

  /** The bool options' `set_value`: a bool is kept, anything else gives `otherwise`. */
  function SetBool(o: ConfigOption, input: Value, otherwise: Value): (r: SetOutcome)
    ensures r.Stored? ==> r.option == o.(value := r.option.value, isSet := true)
  {
    match IsBoolLike(input)
    case Err(e) => Raised(e)
    case Ok(b) => Stored(o.(value := if b then input else otherwise, isSet := true))
  }

  /**
   * What `Interface()` makes of its argument: a string is a name; any
   * other falsy value (None, 0, False, an interface that is not external)
   * skips the '/' test and is read by `IP()` as 0.0.0.0, like no name at
   * all; any other truthy value fails the '/' test with a TypeError.
   */
  function InterfaceArg(input: Value): (r: Result<Option<string>>)
    ensures r == Ok(None) <==> !input.Str? && !Values.Truthy(input)
    ensures r.Err? <==> !input.Str? && Values.Truthy(input)
  {
    match input
    case Str(s) => Ok(Some(s))
    case _ =>
      if Values.Truthy(input) then Err("TypeError: argument of type is not iterable")
      else Ok(None)
  }

  /**
   * An address with a netmask but no interface stands for the one local
   * interface in that subnet: none (or a non-external one) is None, and
   * several raise.  Anything else is taken as it is.
   */
  function Localize(env: Env, parsed: Interface): Result<Option<Interface>>
  {
    if !Named(parsed.iface) && parsed.mask.Some? && parsed.mask.value != 0 then
      var local :- InterfaceInSubnet(env.sys, env.table, parsed);
      Ok(if local.Some? && IsExternal(local.value) then local else None)
    else Ok(Some(parsed))
  }

  /**
   * `ConfigInterfaceOption.set_value`.  Input that is no interface
   * re-prompts; under --force the parsed interface is stored as it is.
   * Otherwise the interface must be 0.0.0.0 or belong to a device, and
   * must not be 0.0.0.0 when an address is required.
   */
  function SetInterface(o: ConfigOption, input: Value, env: Env, requiresAddress: bool): (r: SetOutcome)
    ensures r.Stored? ==> r.option == o.(value := r.option.value, isSet := true)
  {
    match InterfaceArg(input)
    case Err(e) => Raised(e)
    case Ok(name) =>
      match MakeInterface(env.sys, env.table, name)
      case Err(_) => Reprompted
      case Ok(parsed) =>
        if env.mode.force then Stored(o.(value := Iface(parsed), isSet := true))
        else
          match Localize(env, parsed)
          case Err(e) => Raised(e)
          case Ok(None) => Reprompted
          case Ok(Some(i)) =>
            if i.addr != 0 && !Named(i.iface) then Reprompted
            else if requiresAddress && i.addr == 0 then Reprompted
            else Stored(o.(value := Iface(i), isSet := true))
  }

  /** The words the cores option reads as "all cores". */
  const AllCores: seq<string> := ["max", "maximum", "all"]

  /** `ConfigPathOption.set_value`: `~` expanded, made absolute against the working directory. */
  function SetPath(o: ConfigOption, input: Value, env: Env): (r: SetOutcome)
    ensures r.Stored? ==> r.option == o.(value := r.option.value, isSet := true)
  {
    if input.Str? then Stored(o.(value := Str(AbsPath(ExpandUser(input.s, env.home, env.homes), env.cwd)), isSet := true))
    else Raised("AttributeError: object has no attribute 'startswith'")
  }

  /**
   * The port and memory options' `set_value`: the input as an int; text
   * that is no number stores None, and the port option also clears
   * `is_set`.
   */
  function SetNumber(o: ConfigOption, input: Value, clearOnError: bool): (r: SetOutcome)
    ensures r.Stored? ==> r.option == o.(value := r.option.value, isSet := r.option.isSet)
  {
    match IntOf(input)
    case Err(e) => Raised(e)
    case Ok(None) => Stored(o.(value := Null, isSet := if clearOnError then false else o.isSet))
    case Ok(Some(n)) => Stored(o.(value := Int(n), isSet := true))
  }

  /**
   * `ConfigCoresOption.set_value`: "max", "maximum" and "all" store '0'; a
   * non-negative number is stored as typed; anything else asks again.
   */
  function SetCores(o: ConfigOption, input: Value): (r: SetOutcome)
    ensures r.Stored? ==> r.option == o.(value := r.option.value, isSet := true)
  {
    if !input.Str? then Raised("AttributeError: object has no attribute 'lower'")
    else if Lower(input.s) in AllCores then Stored(o.(value := Str("0"), isSet := true))
    else
      match ParseInt(input.s, 10)
      case None => Reprompted
      case Some(n) => if n < 0 then Reprompted else Stored(o.(value := input, isSet := true))
  }

  /** Each option kind's `set_value`; it changes nothing but the value and `is_set`. */
  function SetValue(o: ConfigOption, input: Value, env: Env): (r: SetOutcome)
    ensures r.Stored? ==> r.option == o.(value := r.option.value, isSet := r.option.isSet)
  {
    match o.kind
    case Plain => Stored(o.(value := input, isSet := true))
    case Flag => SetBool(o, input, Bool(!Values.Truthy(o.default)))
    case SshTrust => SetBool(o, input, Bool(!Values.Truthy(o.default)))
    case HugeTlb => SetBool(o, input, Bool(true))
    case PathKind(_, _, _, _) => SetPath(o, input, env)
    case InterfaceKind(requiresAddress) => SetInterface(o, input, env, requiresAddress)
    case PortKind(_, _, _) => SetNumber(o, input, true)
    case MemoryKind(_, _) => SetNumber(o, input, false)
    case Cores => SetCores(o, input)
  }

  /**
   * `ConfigBoolOption.optcallback`: giving a flag on the command line sets
   * it to the opposite of its default, without marking it set.
   */
  function FlagCallback(o: ConfigOption): (n: ConfigOption)
    requires o.kind.Flag? || o.kind.SshTrust? || o.kind.HugeTlb?
    ensures n == o.(value := n.value) && Values.Truthy(n.value) != Values.Truthy(o.default)
  {
    o.(value := Bool(!Values.Truthy(o.default)))
  }

  // -------------------------------------------------------------- is_default

  /**
   * `is_default`: the value equals the default; for the cores option, the
   * value is 0, '0' or 'All'; for HugeTLB, the value is false.
   */
  function IsDefault(o: ConfigOption): Result<bool>
  {
    match o.kind
    case HugeTlb => Ok(!Values.Truthy(o.value))
    case Cores =>
      var zero :- Equals(o.value, Int(0));
      if zero then Ok(true)
      else
        var zeroText :- Equals(o.value, Str("0"));
        if zeroText then Ok(true) else Equals(o.value, Str("All"))
    case _ => Equals(o.value, o.default)
  }

  /**
   * An option fresh from its constructor is at its default, except that
   * HugeTLB counts as default exactly when it is off.
   */
  lemma FreshIsDefault(name: string, description: string, default: Value, perNode: bool, optionName: Option<string>, kind: Kind)
    requires !kind.Cores? && !kind.HugeTlb?
    ensures IsDefault(NewOption(name, description, default, perNode, optionName, kind)) == Ok(true)
  {
    EqualsProperties(default, default);
  }

  // ------------------------------------------------------------------- mkarg

  /** "--<option_name>"; `%s` of a missing name gives "None". */
  function Switch(o: ConfigOption): string
  {
    "--" + (if o.optionName.Some? then o.optionName.value else "None")
  }

  /**
   * `mkarg(no_defaults)`, the command-line argument that reproduces the
   * option, if any.  Flags give their switch when changed; HugeTLB gives
   * it when the option was left out of a loaded file while on by default,
   * or was set away from the default.  Other options give nothing without
   * an option name or, when `noDefaults`, at the default; a per-node
   * option gives "--name=<VAR>" and any other "--name=value".
   */
  function MkArg(o: ConfigOption, noDefaults: bool, loadedFromFile: bool): Result<Option<string>>
  {
    match o.kind
    case Flag => Ok(if Differs(o.value, o.default) then Some(Switch(o)) else None)
    case SshTrust => Ok(if Differs(o.value, o.default) then Some(Switch(o)) else None)
    case HugeTlb =>
      var missing :- if loadedFromFile && !o.isSet then Equals(o.default, Bool(true)) else Ok(false);
      if missing then Ok(Some(Switch(o)))
      else if o.isSet && Differs(o.default, o.value) then Ok(Some(Switch(o)))
      else Ok(None)
    case _ =>
      if !Named(o.optionName) then Ok(None)
      else
        var atDefault :- IsDefault(o);
        if atDefault && noDefaults then Ok(None)
        else if o.perNode then Ok(Some("--" + o.optionName.value + "=<" + o.name + ">"))
        else Ok(Some("--" + o.optionName.value + "=" + Show(o.value)))
  }

  /** Every argument `mkarg` produces is a long option, starting "--". */
  lemma MkArgDashes(o: ConfigOption, noDefaults: bool, loadedFromFile: bool)
    ensures var r := MkArg(o, noDefaults, loadedFromFile);
      r.Ok? && r.value.Some? ==> "--" <= r.value.value
  {
  }

  /** An option kind whose `mkarg` is the one `ConfigOption` defines. */
  predicate PlainArg(k: Kind)
  {
    !k.Flag? && !k.SshTrust? && !k.HugeTlb?
  }

  /**
   * For a plain-argument option with an option name, `mkarg` gives nothing
   * exactly when the option is at its default and defaults are skipped,
   * and otherwise names the option and its value (or its variable, per
   * node).
   */
  lemma MkArgPlain(o: ConfigOption, noDefaults: bool, loadedFromFile: bool)
    requires PlainArg(o.kind) && Named(o.optionName) && IsDefault(o).Ok?
    ensures MkArg(o, noDefaults, loadedFromFile).Ok?
    ensures MkArg(o, noDefaults, loadedFromFile).value.None? <==> IsDefault(o).value && noDefaults
    ensures MkArg(o, noDefaults, loadedFromFile).value.Some? ==>
      var arg := MkArg(o, noDefaults, loadedFromFile).value.value;
      "--" + o.optionName.value + "=" <= arg &&
      arg == "--" + o.optionName.value + "=" + (if o.perNode then "<" + o.name + ">" else Show(o.value))
  {
  }

  /** Without an option name, a plain-argument option never has an argument. */
  lemma MkArgUnnamed(o: ConfigOption, noDefaults: bool, loadedFromFile: bool)
    requires PlainArg(o.kind) && !Named(o.optionName)
    ensures MkArg(o, noDefaults, loadedFromFile) == Ok(None)
  {
  }

  /** A flag's argument is its switch exactly when its value has moved off the default. */
  lemma MkArgFlag(o: ConfigOption, noDefaults: bool, loadedFromFile: bool)
    requires o.kind.Flag? || o.kind.SshTrust?
    requires Numeric(o.value) && Numeric(o.default)
    ensures MkArg(o, noDefaults, loadedFromFile) == Ok(if AsInt(o.value) != AsInt(o.default) then Some(Switch(o)) else None)
  {
  }

  // ----------------------------------------------------------- config_string

  /**
   * `config_string`, the text written after "NAME=": a path option's
   * resolved path ("None" when a reference cannot be resolved; a crash
   * raises), an interface option's address, any other option's value.
   */
  function ConfigString(o: ConfigOption, paths: map<string, string>): Result<string>
  {
    match o.kind
    case PathKind(_, _, _, _) =>
      if !o.value.Str? then Err("TypeError: argument of type is not iterable")
      else
        (match Resolve(paths, o.value.s, RecursionLimit)
         case Resolved(p) => Ok(p)
         case Unresolvable => Ok("None")
         case Crashed => Err("TypeError: expected a character buffer object"))
    case InterfaceKind(_) =>
      if o.value.Iface? then Ok(DottedText(o.value.iface.addr))
      else Err("AttributeError: object has no attribute 'addr'")
    case _ => Ok(Show(o.value))
  }

  // ------------------------------------------------------ lemmas on set_value

  /** A port takes any integer text as its number, and anything else as "no port". */
  lemma PortSetValue(o: ConfigOption, n: int, text: string, env: Env)
    requires o.kind.PortKind?
    ensures SetValue(o, Str(IntStr(n)), env) == Stored(o.(value := Int(n), isSet := true))
    ensures ParseInt(text, 10).None? ==> SetValue(o, Str(text), env) == Stored(o.(value := Null, isSet := false))
  {
    PortDispatch(o, IntStr(n), env);
    PortDispatch(o, text, env);
    ParseIntStrSigned(n);
    NumberText(o, IntStr(n));
    NumberText(o, text);
  }

  lemma PortDispatch(o: ConfigOption, s: string, env: Env)
    requires o.kind.PortKind?
    ensures SetValue(o, Str(s), env) == SetNumber(o, Str(s), true)
  {
  }

  /** Text reaches `SetNumber` as `int()` reads it. */
  lemma NumberText(o: ConfigOption, s: string)
    ensures ParseInt(s, 10).Some? ==> SetNumber(o, Str(s), true) == Stored(o.(value := Int(ParseInt(s, 10).value), isSet := true))
    ensures ParseInt(s, 10).None? ==> SetNumber(o, Str(s), true) == Stored(o.(value := Null, isSet := false))
  {
  }

  /**
   * "all", "max" and "maximum", in any letter case, set the cores option
   * to '0', which counts as the default.
   */
  lemma CoresAll(o: ConfigOption, word: string, env: Env)
    requires o.kind.Cores? && Lower(word) in AllCores
    ensures SetValue(o, Str(word), env) == Stored(o.(value := Str("0"), isSet := true))
    ensures IsDefault(o.(value := Str("0"), isSet := true)) == Ok(true)
  {
  }

  /** A non-negative number of cores is stored as typed; a negative one asks again. */
  lemma CoresNumber(o: ConfigOption, n: int, env: Env)
    requires o.kind.Cores?
    ensures n >= 0 ==> SetValue(o, Str(IntStr(n)), env) == Stored(o.(value := Str(IntStr(n)), isSet := true))
    ensures n < 0 ==> SetValue(o, Str(IntStr(n)), env) == Reprompted
  {
    ParseIntStrSigned(n);
    IntStrLead(n);
    NotCoreWord(IntStr(n));
    CoresParsed(o, IntStr(n), n, env);
  }

  /** Text that reads as a number and is no "all cores" word: kept when not negative. */
  lemma CoresParsed(o: ConfigOption, s: string, n: int, env: Env)
    requires o.kind.Cores? && ParseInt(s, 10) == Some(n) && Lower(s) !in AllCores
    ensures SetValue(o, Str(s), env) == if n < 0 then Reprompted else Stored(o.(value := Str(s), isSet := true))
  {
    CoresDispatch(o, Str(s), env);
    CoresParsedText(o, s, n);
  }

  lemma CoresParsedText(o: ConfigOption, s: string, n: int)
    requires ParseInt(s, 10) == Some(n) && Lower(s) !in AllCores
    ensures SetCores(o, Str(s)) == if n < 0 then Reprompted else Stored(o.(value := Str(s), isSet := true))
  {
  }

  lemma CoresDispatch(o: ConfigOption, input: Value, env: Env)
    requires o.kind.Cores?
    ensures SetValue(o, input, env) == SetCores(o, input)
  {
  }

  /** A word starting with a sign or a digit is none of the "all cores" words. */
  lemma NotCoreWord(s: string)
    requires s != [] && (s[0] == '-' || '0' <= s[0] <= '9')
    ensures Lower(s) !in AllCores
  {
    assert Lower(s)[0] == s[0];
    assert forall w | w in AllCores :: 'a' <= w[0] <= 'z';
  }

  /**
   * Bool options: a bool (or 0 or 1) is kept; any other input, as read from
   * a config file, moves a flag off its default and turns HugeTLB on.
   */
  lemma BoolSetValue(o: ConfigOption, b: bool, text: string, env: Env)
    requires o.kind.Flag? || o.kind.SshTrust? || o.kind.HugeTlb?
    ensures SetValue(o, Bool(b), env) == Stored(o.(value := Bool(b), isSet := true))
    ensures !o.kind.HugeTlb? ==> SetValue(o, Str(text), env) == Stored(o.(value := Bool(!Values.Truthy(o.default)), isSet := true))
    ensures o.kind.HugeTlb? ==> SetValue(o, Str(text), env) == Stored(o.(value := Bool(true), isSet := true))
  {
  }

  /**
   * A flag read from a config file has moved off its bool default, so
   * `mkarg` gives its switch; HugeTLB read from a file is on, so it is not
   * at its default.
   */
  lemma FlagFromFile(o: ConfigOption, text: string, env: Env, noDefaults: bool, loadedFromFile: bool)
    requires o.kind.Flag? && o.default.Bool?
    ensures SetValue(o, Str(text), env).Stored?
    ensures MkArg(SetValue(o, Str(text), env).option, noDefaults, loadedFromFile) == Ok(Some(Switch(o)))
  {
  }

  /** HugeTLB read from a file is on, so it is not at its default and is written uncommented. */
  lemma HugeTlbFromFile(o: ConfigOption, text: string, env: Env)
    requires o.kind.HugeTlb?
    ensures SetValue(o, Str(text), env).Stored?
    ensures IsDefault(SetValue(o, Str(text), env).option) == Ok(false)
  {
  }

  /** A path given relative to an absolute working directory is stored as an absolute path. */
  lemma PathSetValueAbsolute(o: ConfigOption, text: string, env: Env)
    requires o.kind.PathKind? && |env.cwd| > 0 && env.cwd[0] == '/'
    ensures SetValue(o, Str(text), env).Stored?
    ensures var v := SetValue(o, Str(text), env).option.value;
      v.Str? && |v.s| > 0 && v.s[0] == '/'
  {
  }

  /**
   * An interface stored without --force is 0.0.0.0 or belongs to a
   * device, and has an address when one is required.
   */
  lemma InterfaceSetValue(o: ConfigOption, input: Value, env: Env)
    requires o.kind.InterfaceKind? && !env.mode.force
    ensures SetValue(o, input, env).Stored? ==>
      var v := SetValue(o, input, env).option.value;
      v.Iface? && (v.iface.addr == 0 || Named(v.iface.iface)) &&
      (o.kind.requiresAddress ==> v.iface.addr != 0)
  {
  }

  /** Under --force, whatever parses as an interface is stored as parsed. */
  lemma InterfaceSetValueForced(o: ConfigOption, text: string, env: Env)
    requires o.kind.InterfaceKind? && env.mode.force
    ensures MakeInterface(env.sys, env.table, Some(text)).Ok? ==>
      SetValue(o, Str(text), env) == Stored(o.(value := Iface(MakeInterface(env.sys, env.table, Some(text)).value), isSet := true))
    ensures MakeInterface(env.sys, env.table, Some(text)).Err? ==> SetValue(o, Str(text), env) == Reprompted
  {
  }
}
