/**
 * Each option kind's `check()`: whether the current value is usable.  The
 * source returns True, returns False on a fatal error, or re-prompts (and
 * then returns the check of the new answer); here the outcome says which,
 * and the user's answers and what the file system reports are parameters.
 */
module Checks {
  import opened Wrappers
  import opened Text
  import opened Interfaces
  import opened Values
  import opened Paths
  import opened RunFlags
  import opened Options

  /**
   * How a check ends: the value is accepted, the error is fatal even with
   * --force, the user is asked again, Python raises, or the check is one
   * this model does not cover (the sshd-trust option edits system files).
   */
  datatype Outcome = Accepted | Fatal | Reprompt | Raises(error: string) | External

  /**
   * What a check learns from the system and the user: whether the
   * directory (the file's directory for a file option) exists; whether the
   * path exists, is a symlink or a directory; whether there is enough free
   * space; the filesystem type from /proc/mounts; the protocols that cannot
   * bind the port; and the answers to the yes/no questions.
   */
  datatype World = World(
    dirExists: bool,
    pathExists: bool,
    isLink: bool,
    isDir: bool,
    enoughSpace: bool,
    fsType: Option<string>,
    unbindable: set<Proto>,
    mkdirAnswer: bool,
    overwriteAnswer: bool,
    acceptAnswer: bool,
    hugeTlbAnswer: bool)

  /**
   * The result of a check: its outcome, the option afterwards (a path
   * check records that it created the directory, the memory and HugeTLB
   * checks may change the value), and the wizard's "accept current
   * settings?" answer when the filesystem question was asked.
   */
  datatype Checked = Checked(outcome: Outcome, option: ConfigOption, configured: Option<bool>)

  // ------------------------------------------------------------------- paths

  /** A path problem under --force is reported and accepted; otherwise the user is asked again. */
  function ForceOr(mode: RunMode): Outcome
  {
    if mode.force then Accepted else Reprompt
  }

  /**
   * The filesystem test as written: it only runs when recommended
   * filesystems are given.  An unknown type reaches a message that names a
   * variable the method never defines, a NameError.  A type that is not
   * recommended asks the wizard (without --force) whether to accept the
   * settings anyway; either way the check goes on to pass.
   */
  function FsCheckAsWritten(validFs: seq<string>, fsType: Option<string>, mode: RunMode, acceptAnswer: bool): (r: Result<Option<bool>>)
    ensures r.Err? <==> validFs != [] && fsType.None?
    ensures r.Ok? ==> (r.value.Some? <==> validFs != [] && fsType.value !in validFs && !mode.force && mode.wizard)
    ensures r.Ok? && r.value.Some? ==> r.value.value == acceptAnswer
  {
    if validFs == [] then Ok(None)
    else if fsType.None? then Err("NameError: global name 'path' is not defined")
    else if fsType.value !in validFs && !mode.force && mode.wizard then Ok(Some(acceptAnswer))
    else Ok(None)
  }

  /**
   * The filesystem test with the message fixed: an unknown type is one
   * that is not recommended.
   */
  function FsCheck(validFs: seq<string>, fsType: Option<string>, mode: RunMode, acceptAnswer: bool): (r: Option<bool>)
    ensures r.Some? <==> validFs != [] && (fsType.None? || fsType.value !in validFs) && !mode.force && mode.wizard
    ensures r.Some? ==> r.value == acceptAnswer
  {
    if validFs != [] && (fsType.None? || fsType.value !in validFs) && !mode.force && mode.wizard then Some(acceptAnswer)
    else None
  }

  /** The fixed test agrees with the written one wherever that does not raise. */
  lemma FsCheckAgrees(validFs: seq<string>, fsType: Option<string>, mode: RunMode, acceptAnswer: bool)
    ensures FsCheckAsWritten(validFs, fsType, mode, acceptAnswer).Ok? ==>
      FsCheck(validFs, fsType, mode, acceptAnswer) == FsCheckAsWritten(validFs, fsType, mode, acceptAnswer).value
    ensures FsCheckAsWritten(["ext4", "xfs"], None, mode, acceptAnswer).Err?
  {
  }

  /**
   * The part of the path check that runs on an absolute path: create a
   * missing directory (without asking when a referenced directory was just
   * created, or under --yes), then make sure a directory is not a file and
   * a file is not a directory nor overwritten unasked, then test free space
   * and the filesystem type.
   */
  function PathOnDisk(o: ConfigOption, mode: RunMode, parentCreated: bool, w: World, asWritten: bool): (c: Checked)
    requires o.kind.PathKind?
    ensures c.outcome in {Accepted, Reprompt} || c.outcome.Raises?
    ensures c.option == o || (!w.dirExists && c.option == o.(kind := o.kind.(created := true)))
  {
    var k := o.kind;
    if !w.dirExists && !(parentCreated || mode.yes || w.mkdirAnswer) then Checked(Reprompt, o, None)
    else
      var o1 := if !w.dirExists then o.(kind := k.(created := true)) else o;
      if w.pathExists && !w.isLink && k.isFile && w.isDir then Checked(Reprompt, o1, None)
      else if w.pathExists && !w.isLink && k.isFile && !mode.yes && !w.overwriteAnswer then Checked(Reprompt, o1, None)
      else if w.pathExists && !w.isLink && !k.isFile && !w.isDir then Checked(Reprompt, o1, None)
      else if k.minFree > 0 && !w.enoughSpace && !mode.force then Checked(Reprompt, o1, None)
      else if asWritten then
        match FsCheckAsWritten(k.validFs, w.fsType, mode, w.acceptAnswer)
        case Err(e) => Checked(Raises(e), o1, None)
        case Ok(configured) => Checked(Accepted, o1, configured)
      else Checked(Accepted, o1, FsCheck(k.validFs, w.fsType, mode, w.acceptAnswer))
  }

  /**
   * `ConfigPathOption.check`.  A reference that cannot be resolved, an
   * empty path or a relative one is accepted under --force and asked again
   * otherwise; a crash while resolving raises.
   */
  function PathCheck(o: ConfigOption, mode: RunMode, paths: map<string, string>, parentCreated: bool, w: World, asWritten: bool): (c: Checked)
    requires o.kind.PathKind?
    ensures c.outcome in {Accepted, Reprompt} || c.outcome.Raises?
    ensures c.option == o || (!w.dirExists && c.option == o.(kind := o.kind.(created := true)))
  {
    if !o.value.Str? then Checked(Raises("TypeError: argument of type is not iterable"), o, None)
    else
      match Resolve(paths, o.value.s, RecursionLimit)
      case Crashed => Checked(Raises("TypeError: expected a character buffer object"), o, None)
      case Unresolvable => Checked(ForceOr(mode), o, None)
      case Resolved(p) =>
        if p == "" || p[0] != '/' then Checked(ForceOr(mode), o, None)
        else PathOnDisk(o, mode, parentCreated, w, asWritten)
  }

  /**
   * The fixed path check raises only when a nested reference crashes the
   * resolution; as written it also raises on a recommended-filesystem
   * path whose filesystem type is unknown.
   */
  lemma PathCheckRaises(o: ConfigOption, mode: RunMode, paths: map<string, string>, parentCreated: bool, w: World)
    requires o.kind.PathKind? && o.value.Str?
    ensures PathCheck(o, mode, paths, parentCreated, w, false).outcome.Raises? <==>
      Resolve(paths, o.value.s, RecursionLimit).Crashed?
    ensures PathCheck(o, mode, paths, parentCreated, w, true).outcome.Raises? ==>
      Resolve(paths, o.value.s, RecursionLimit).Crashed? || (o.kind.validFs != [] && w.fsType.None?)
  {
  }

  /**
   * Under --force the path check still asks again when the directory is
   * missing and may not be created, or when a file is found where a
   * directory belongs (or the reverse, or a file is not to be overwritten),
   * and for nothing else.
   */
  lemma PathCheckForced(o: ConfigOption, mode: RunMode, paths: map<string, string>, parentCreated: bool, w: World)
    requires o.kind.PathKind? && mode.force
    ensures PathCheck(o, mode, paths, parentCreated, w, false).outcome == Reprompt ==>
      (!w.dirExists && !(parentCreated || mode.yes || w.mkdirAnswer)) ||
      (w.pathExists && !w.isLink && (o.kind.isFile == w.isDir || (o.kind.isFile && !mode.yes && !w.overwriteAnswer)))
  {
  }

  /** A path whose directory is missing is created exactly when that is allowed or agreed to. */
  lemma PathCheckCreates(o: ConfigOption, mode: RunMode, paths: map<string, string>, parentCreated: bool, w: World, p: string)
    requires o.kind.PathKind? && o.value.Str? && !o.kind.created && !w.dirExists
    requires Resolve(paths, o.value.s, RecursionLimit) == Resolved(p) && |p| > 0 && p[0] == '/'
    ensures PathCheck(o, mode, paths, parentCreated, w, false).option.kind.created <==> parentCreated || mode.yes || w.mkdirAnswer
    ensures !(parentCreated || mode.yes || w.mkdirAnswer) ==> PathCheck(o, mode, paths, parentCreated, w, false).outcome == Reprompt
  {
  }

  // ------------------------------------------------------------------- ports

  /**
   * `value > 65535 or value < 1` in Python 2: None is below every number,
   * and strings and objects are above every number.
   */
  predicate InvalidPort(v: Value)
  {
    if Numeric(v) then AsInt(v) > 65535 || AsInt(v) < 1 else true
  }

  /**
   * The binding test, protocol by protocol: the first one that cannot be
   * bound asks again (or, for a fixed port, is fatal) unless --force.
   */
  function BindOutcome(protos: seq<Proto>, unbindable: set<Proto>, mode: RunMode, configurable: bool): (r: Outcome)
    ensures r in {Accepted, Reprompt, Fatal}
    ensures r != Accepted <==> !mode.force && exists i | 0 <= i < |protos| :: protos[i] in unbindable
    ensures r == Fatal ==> !configurable
    ensures r == Reprompt ==> configurable
  {
    if protos == [] then Accepted
    else if protos[0] in unbindable && !mode.force then (if configurable then Reprompt else Fatal)
    else
      var r := BindOutcome(protos[1..], unbindable, mode, configurable);
      assert forall i | 1 <= i < |protos| :: protos[i] == protos[1..][i - 1];
      r
  }

  /**
   * `ConfigPortOption.check`: an invalid port number asks again unless
   * --force or the port is fixed; a valid one must bind on every protocol
   * on the bound interface.
   */
  function PortCheck(o: ConfigOption, mode: RunMode, w: World): (c: Checked)
    requires o.kind.PortKind?
    ensures c.option == o && c.configured.None?
    ensures InvalidPort(o.value) ==> c.outcome == (if !mode.force && o.kind.configurable then Reprompt else Accepted)
  {
    if InvalidPort(o.value) then Checked(if !mode.force && o.kind.configurable then Reprompt else Accepted, o, None)
    else if !o.kind.bound.Iface? then Checked(Raises("AttributeError: object has no attribute 'addr'"), o, None)
    else Checked(BindOutcome(o.kind.protos, w.unbindable, mode, o.kind.configurable), o, None)
  }

  // -------------------------------------------------------------- interfaces

  /** `ConfigInterfaceOption.check`: a required address that is 0.0.0.0 is fatal. */
  function InterfaceCheck(o: ConfigOption): (c: Checked)
    requires o.kind.InterfaceKind?
    ensures c.option == o && c.configured.None?
    ensures c.outcome == Fatal <==> o.kind.requiresAddress && o.value.Iface? && o.value.iface.addr == 0
    ensures c.outcome.Raises? <==> o.kind.requiresAddress && !o.value.Iface?
  {
    if !o.kind.requiresAddress then Checked(Accepted, o, None)
    else if !o.value.Iface? then Checked(Raises("AttributeError: object has no attribute 'addr'"), o, None)
    else if o.value.iface.addr == 0 then Checked(Fatal, o, None)
    else Checked(Accepted, o, None)
  }

  // ------------------------------------------------------------------ memory

  /** `v < n` in Python 2 for a number `n`: None is below, strings and objects above. */
  predicate PyBelow(v: Value, n: int)
  {
    if Numeric(v) then AsInt(v) < n else v.Null?
  }

  /**
   * `ConfigMemOption.check`: too little memory in the machine is fatal; no
   * value asks again; less than the minimum asks again, or under --force
   * becomes the minimum; more than the machine can spare asks again unless
   * --force.
   */
  function MemoryCheck(o: ConfigOption, mode: RunMode): (c: Checked)
    requires o.kind.MemoryKind?
    ensures c.configured.None? && c.option == o.(value := c.option.value)
    ensures c.outcome == Fatal <==> o.kind.memKb < MinSysRam(o.kind.maxRedo) * 1024
    ensures c.option.value != o.value ==> mode.force && c.option.value == Int(MinimumClxRam)
  {
    var k := o.kind;
    if k.memKb < MinSysRam(k.maxRedo) * 1024 then Checked(Fatal, o, None)
    else if !Values.Truthy(o.value) then Checked(Reprompt, o, None)
    else if PyBelow(o.value, MinimumClxRam) && !mode.force then Checked(Reprompt, o, None)
    else
      var o1 := if PyBelow(o.value, MinimumClxRam) then o.(value := Int(MinimumClxRam)) else o;
      if !Numeric(o1.value) then Checked(Raises("TypeError: unsupported operand type(s) for +"), o1, None)
      else if k.memKb < (k.maxRedo + MinimumOsRam + AsInt(o1.value)) * 1024 && !mode.force then Checked(Reprompt, o1, None)
      else Checked(Accepted, o1, None)
  }

  /** The default a memory option is built with passes its check. */
  lemma FreshMemoryAccepted(name: string, description: string, optionName: Option<string>, maxRedo: int, memKb: Option<nat>, mode: RunMode)
    requires NewMemory(name, description, optionName, maxRedo, memKb).Ok?
    ensures MemoryCheck(NewMemory(name, description, optionName, maxRedo, memKb).value, mode) ==
      Checked(Accepted, NewMemory(name, description, optionName, maxRedo, memKb).value, None)
  {
  }

  /**
   * A memory value below the minimum is asked again, or under --force
   * raised to the minimum and accepted when the machine can spare it.
   */
  lemma MemoryClamp(o: ConfigOption, mode: RunMode, v: int)
    requires o.kind.MemoryKind? && o.value == Int(v) && 0 < v < MinimumClxRam
    requires o.kind.memKb >= MinSysRam(o.kind.maxRedo) * 1024
    ensures !mode.force ==> MemoryCheck(o, mode).outcome == Reprompt
    ensures mode.force ==> MemoryCheck(o, mode) == Checked(Accepted, o.(value := Int(MinimumClxRam)), None)
  {
  }

  // ----------------------------------------------------------------- HugeTLB

  /**
   * `ConfigHugeTLBOption.check`: turning HugeTLB on where it is off by
   * default needs confirmation unless --yes; the answer becomes the value.
   */
  function HugeTlbCheck(o: ConfigOption, mode: RunMode, w: World): (c: Checked)
    requires o.kind.HugeTlb?
    ensures c.outcome == Accepted && c.configured.None? && c.option == o.(value := c.option.value)
    ensures c.option.value != o.value ==>
      !mode.yes && !Values.Truthy(o.default) && Values.Truthy(o.value) && c.option.value == Bool(w.hugeTlbAnswer)
  {
    if !mode.yes && !Values.Truthy(o.default) && Values.Truthy(o.value) then Checked(Accepted, o.(value := Bool(w.hugeTlbAnswer)), None)
    else Checked(Accepted, o, None)
  }

  // --------------------------------------------------------------- all kinds

  /**
   * `check()` for any option.  Plain options, flags and the cores option
   * accept anything; the sshd-trust option's check is not modelled.
   * `asWritten` gives path options the program's filesystem test, which
   * raises a NameError on an unknown filesystem type; otherwise they get
   * the corrected test, `FsCheck`.
   */
  function Check(o: ConfigOption, mode: RunMode, paths: map<string, string>, parentCreated: bool, w: World, asWritten: bool): (c: Checked)
    ensures c.option == o.(value := c.option.value, kind := c.option.kind)
    ensures c.option.kind == o.kind || (o.kind.PathKind? && c.option.kind == o.kind.(created := true))
  {
    match o.kind
    case PathKind(_, _, _, _) => PathCheck(o, mode, paths, parentCreated, w, asWritten)
    case PortKind(_, _, _) => PortCheck(o, mode, w)
    case InterfaceKind(_) => InterfaceCheck(o)
    case MemoryKind(_, _) => MemoryCheck(o, mode)
    case HugeTlb => HugeTlbCheck(o, mode, w)
    case SshTrust => Checked(External, o, None)
    case _ => Checked(Accepted, o, None)
  }

  /**
   * The program's check and the corrected one differ only on a path whose
   * filesystem type is unknown while recommended types are given, where
   * the program raises its NameError.
   */
  lemma CheckAsWrittenDiffers(o: ConfigOption, mode: RunMode, paths: map<string, string>, parentCreated: bool, w: World)
    ensures Check(o, mode, paths, parentCreated, w, true) != Check(o, mode, paths, parentCreated, w, false) ==>
      o.kind.PathKind? && o.kind.validFs != [] && w.fsType.None? &&
      Check(o, mode, paths, parentCreated, w, true).outcome == Raises("NameError: global name 'path' is not defined")
  {
    if o.kind.PathKind? {
      FsCheckAgrees(o.kind.validFs, w.fsType, mode, w.acceptAnswer);
    }
  }

  /**
   * Only three things are fatal: a machine with too little memory, a
   * required address that is 0.0.0.0, and a fixed port that cannot be
   * bound without --force.
   */
  lemma FatalOnlyWhen(o: ConfigOption, mode: RunMode, paths: map<string, string>, parentCreated: bool, w: World, asWritten: bool)
    ensures Check(o, mode, paths, parentCreated, w, asWritten).outcome == Fatal <==>
      (o.kind.MemoryKind? && o.kind.memKb < MinSysRam(o.kind.maxRedo) * 1024) ||
      (o.kind.InterfaceKind? && o.kind.requiresAddress && o.value.Iface? && o.value.iface.addr == 0) ||
      (o.kind.PortKind? && !InvalidPort(o.value) && o.kind.bound.Iface? && !o.kind.configurable && !mode.force &&
       exists i | 0 <= i < |o.kind.protos| :: o.kind.protos[i] in w.unbindable)
  {
  }

  /** An interface that `set_value` stored without --force passes its check. */
  lemma StoredInterfaceAccepted(o: ConfigOption, input: Value, env: Env)
    requires o.kind.InterfaceKind? && !env.mode.force && SetValue(o, input, env).Stored?
    ensures InterfaceCheck(SetValue(o, input, env).option).outcome == Accepted
  {
    InterfaceSetValue(o, input, env);
  }

  /**
   * A port typed as a number from 1 to 65535 is accepted when every
   * protocol binds; a number outside that range is asked again unless
   * --force or the port is fixed.
   */
  lemma PortTyped(o: ConfigOption, n: int, env: Env, w: World)
    requires o.kind.PortKind? && o.kind.bound.Iface?
    ensures var c := PortCheck(SetValue(o, Str(IntStr(n)), env).option, env.mode, w);
      (1 <= n <= 65535 && (forall i | 0 <= i < |o.kind.protos| :: o.kind.protos[i] !in w.unbindable) ==> c.outcome == Accepted) &&
      (!(1 <= n <= 65535) ==> c.outcome == (if !env.mode.force && o.kind.configurable then Reprompt else Accepted))
  {
    PortSetValue(o, n, "", env);
  }
}
