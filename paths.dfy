/**
 * Path options may refer to other path options as `$NAME`.  `get_path`
 * replaces each reference, in order of appearance, by the referenced
 * option's own resolved path.
 */
module Paths {
  import opened Wrappers
  import opened Text

  predicate NameStart(c: char)
  {
    'a' <= c <= 'z' || 'A' <= c <= 'Z' || c == '_'
  }

  predicate NameChar(c: char)
  {
    NameStart(c) || '0' <= c <= '9'
  }

  /** A variable name as the reference pattern captures it. */
  predicate IsName(s: string)
  {
    |s| > 0 && NameStart(s[0]) && forall j | 0 <= j < |s| :: NameChar(s[j])
  }

  /** The length of the run of name characters at the start of `s`. */
  function NameLen(s: string): (n: nat)
    ensures n <= |s|
    ensures forall j | 0 <= j < n :: NameChar(s[j])
    ensures n < |s| ==> !NameChar(s[n])
  {
    if s == [] || !NameChar(s[0]) then 0 else 1 + NameLen(s[1..])
  }

  /**
   * `re.findall(r"\$([a-zA-Z_]+[a-zA-Z0-9_]*)", s)`: each '$' followed by a
   * name start begins a reference that runs as far as name characters go;
   * the scan resumes after it.
   */
  function VarRefs(s: string): (refs: seq<string>)
    ensures forall i | 0 <= i < |refs| :: IsName(refs[i])
    decreases |s|
  {
    if |s| < 2 then []
    else if s[0] == '$' && NameStart(s[1]) then
      var n := 1 + NameLen(s[2..]);
      [s[1..1 + n]] + VarRefs(s[1 + n..])
    else VarRefs(s[1..])
  }

  /** A string without '$' refers to nothing. */
  lemma {:induction false} NoDollarNoRefs(s: string)
    requires '$' !in s
    ensures VarRefs(s) == []
    decreases |s|
  {
    if |s| >= 2 {
      assert s[0] != '$';
      NoDollarNoRefs(s[1..]);
    }
  }

  /** A reference to a name followed by a non-name character is read whole. */
  lemma LeadingRef(name: string, rest: string)
    requires IsName(name)
    requires |rest| > 0 && !NameChar(rest[0])
    ensures VarRefs("$" + name + rest) == [name] + VarRefs(rest)
  {
    var s := "$" + name + rest;
    assert s[2..] == name[1..] + rest;
    NameLenOf(name[1..], rest);
    assert s[1..1 + |name|] == name;
    assert s[1 + |name|..] == rest;
  }

  lemma {:induction false} NameLenOf(word: string, rest: string)
    requires forall j | 0 <= j < |word| :: NameChar(word[j])
    requires |rest| > 0 && !NameChar(rest[0])
    ensures NameLen(word + rest) == |word|
  {
    if word != [] {
      assert (word + rest)[1..] == word[1..] + rest;
      NameLenOf(word[1..], rest);
    }
  }

  /**
   * `os.path.expanduser`: "~" and "~/..." take the home directory `home`;
   * "~user/..." takes that user's home from `homes`, and an unknown user
   * leaves the path alone.  The home loses its trailing '/'s, and a result
   * that comes out empty is "/".
   */
  function ExpandUser(path: string, home: string, homes: map<string, string>): string
  {
    if |path| == 0 || path[0] != '~' then path
    else
      var i := if '/' in path[1..] then 1 + IndexOf(path[1..], '/') else |path|;
      if i != 1 && path[1..i] !in homes then path
      else
        var userhome := TrimRight(if i == 1 then home else homes[path[1..i]], '/');
        if userhome + path[i..] == "" then "/" else userhome + path[i..]
  }

  /** A path that does not start with '~' is left as it is. */
  lemma ExpandUserPlain(path: string, home: string, homes: map<string, string>)
    requires |path| == 0 || path[0] != '~'
    ensures ExpandUser(path, home, homes) == path
  {
  }

  /** "~/rest" is the home directory, without trailing '/'s, followed by "/rest". */
  lemma ExpandUserHome(rest: string, home: string, homes: map<string, string>)
    ensures ExpandUser("~/" + rest, home, homes) == TrimRight(home, '/') + "/" + rest
  {
    var path := "~/" + rest;
    assert path[1..][0] == '/';
    assert path[1..] == "/" + rest;
    assert path[1..1] == "";
    assert path[1..] == path[1..][0..];
  }

  /**
   * `os.path.abspath` without its final normalisation: a relative path is
   * joined onto the working directory `cwd`.
   */
  function AbsPath(path: string, cwd: string): (r: string)
    ensures |path| > 0 && path[0] == '/' ==> r == path
    ensures |cwd| > 0 && cwd[0] == '/' ==> |r| > 0 && r[0] == '/'
    ensures |path| == 0 || path[0] != '/' ==> |r| >= |path| && r[|r| - |path|..] == path
  {
    if |path| > 0 && path[0] == '/' then path
    else if cwd == "" || cwd[|cwd| - 1] == '/' then cwd + path
    else cwd + "/" + path
  }

  /** What `get_path` gives: a path, None, or an exception that escapes it. */
  datatype Resolution = Resolved(path: string) | Unresolvable | Crashed

  /**
   * The depth of nested `get_path` calls at which the interpreter raises
   * RuntimeError (Python's default recursion limit).
   */
  const RecursionLimit: nat := 1000

  /**
   * `get_path` as written, for the option whose value is `value`, given
   * every path option's value by name.  A reference to a non-path option
   * gives None.  A nested call that gives None, or runs into the recursion
   * limit, makes `str.replace` receive None, which raises TypeError that
   * nothing catches.
   */
  function Resolve(paths: map<string, string>, value: string, depth: nat): Resolution
    decreases depth, 1, 0
  {
    if '$' !in value then Resolved(value)
    else if depth == 0 then Crashed
    else Substitute(paths, value, VarRefs(value), depth)
  }

  /** The loop of `get_path` over the references still to replace. */
  function Substitute(paths: map<string, string>, path: string, refs: seq<string>, depth: nat): Resolution
    requires depth >= 1
    decreases depth, 0, |refs|
  {
    if refs == [] then Resolved(path)
    else if refs[0] !in paths then Unresolvable
    else
      match Resolve(paths, paths[refs[0]], depth - 1)
      case Resolved(p) => Substitute(paths, ReplaceAll(path, "$" + refs[0], p), refs[1..], depth)
      case _ => Crashed
  }

  /**
   * `get_path` as its comments intend: a reference that cannot be resolved,
   * at any depth, gives None.
   */
  function ResolveFixed(paths: map<string, string>, value: string, depth: nat): Resolution
    decreases depth, 1, 0
  {
    if '$' !in value then Resolved(value)
    else if depth == 0 then Unresolvable
    else SubstituteFixed(paths, value, VarRefs(value), depth)
  }

  function SubstituteFixed(paths: map<string, string>, path: string, refs: seq<string>, depth: nat): Resolution
    requires depth >= 1
    decreases depth, 0, |refs|
  {
    if refs == [] then Resolved(path)
    else if refs[0] !in paths then Unresolvable
    else
      match ResolveFixed(paths, paths[refs[0]], depth - 1)
      case Resolved(p) => SubstituteFixed(paths, ReplaceAll(path, "$" + refs[0], p), refs[1..], depth)
      case _ => Unresolvable
  }

  /**
   * The intended `get_path` never raises, and it agrees with the written one
   * wherever the written one does not raise.
   */
  lemma {:induction false} ResolveFixedAgrees(paths: map<string, string>, value: string, depth: nat)
    ensures ResolveFixed(paths, value, depth) != Crashed
    ensures Resolve(paths, value, depth) != Crashed ==> ResolveFixed(paths, value, depth) == Resolve(paths, value, depth)
    decreases depth, 1, 0
  {
    if '$' in value && depth > 0 {
      SubstituteFixedAgrees(paths, value, VarRefs(value), depth);
    }
  }

  lemma {:induction false} SubstituteFixedAgrees(paths: map<string, string>, path: string, refs: seq<string>, depth: nat)
    requires depth >= 1
    ensures SubstituteFixed(paths, path, refs, depth) != Crashed
    ensures Substitute(paths, path, refs, depth) != Crashed ==>
      SubstituteFixed(paths, path, refs, depth) == Substitute(paths, path, refs, depth)
    decreases depth, 0, |refs|
  {
    if refs != [] && refs[0] in paths {
      ResolveFixedAgrees(paths, paths[refs[0]], depth - 1);
      match ResolveFixed(paths, paths[refs[0]], depth - 1)
      case Resolved(p) =>
        SubstituteFixedAgrees(paths, ReplaceAll(path, "$" + refs[0], p), refs[1..], depth);
      case _ =>
    }
  }

  /** A path option that refers to itself makes `get_path` raise at every depth. */
  lemma {:induction false} SelfReferenceCrashes(paths: map<string, string>, name: string, depth: nat)
    requires IsName(name) && name in paths && paths[name] == "$" + name
    ensures Resolve(paths, "$" + name, depth) == Crashed
    ensures ResolveFixed(paths, "$" + name, depth) == Unresolvable
  {
    var s := "$" + name;
    assert '$' in s by { assert s[0] == '$'; }
    if depth > 0 {
      SelfReferenceCrashes(paths, name, depth - 1);
      RefsOfLone(name);
    }
  }

  /** A lone reference refers to its name only. */
  lemma RefsOfLone(name: string)
    requires IsName(name)
    ensures VarRefs("$" + name) == [name]
  {
    var s := "$" + name;
    assert s[2..] == name[1..];
    NameLenOf(name[1..], "/");
    assert NameLen(name[1..] + "/") == |name| - 1;
    NameLenWhole(name[1..]);
    assert s[1..1 + |name|] == name;
    assert s[1 + |name|..] == [];
  }

  lemma {:induction false} NameLenWhole(word: string)
    requires forall j | 0 <= j < |word| :: NameChar(word[j])
    ensures NameLen(word) == |word|
  {
    if word != [] {
      NameLenWhole(word[1..]);
    }
  }

  /** What one replacement step gives, from the nested call's result. */
  function AfterNested(nested: Resolution, value: string, name: string, failed: Resolution): Resolution
  {
    match nested
    case Resolved(p) => Resolved(ReplaceAll(value, "$" + name, p))
    case _ => failed
  }

  /** `get_path` of a value holding exactly one reference. */
  lemma OneReference(paths: map<string, string>, value: string, name: string, depth: nat)
    requires depth >= 1 && '$' in value && VarRefs(value) == [name]
    ensures name !in paths ==> Resolve(paths, value, depth) == Unresolvable
    ensures name in paths ==>
      Resolve(paths, value, depth) == AfterNested(Resolve(paths, paths[name], depth - 1), value, name, Crashed)
    ensures name !in paths ==> ResolveFixed(paths, value, depth) == Unresolvable
    ensures name in paths ==>
      ResolveFixed(paths, value, depth) == AfterNested(ResolveFixed(paths, paths[name], depth - 1), value, name, Unresolvable)
  {
    assert [name][1..] == [];
    if name in paths {
      assert Resolve(paths, value, depth) == Substitute(paths, value, [name], depth);
      match Resolve(paths, paths[name], depth - 1) {
        case Resolved(p) =>
          assert Substitute(paths, ReplaceAll(value, "$" + name, p), [], depth) == Resolved(ReplaceAll(value, "$" + name, p));
        case _ =>
      }
      assert ResolveFixed(paths, value, depth) == SubstituteFixed(paths, value, [name], depth);
      match ResolveFixed(paths, paths[name], depth - 1) {
        case Resolved(p) =>
          assert SubstituteFixed(paths, ReplaceAll(value, "$" + name, p), [], depth) == Resolved(ReplaceAll(value, "$" + name, p));
        case _ =>
      }
    }
  }

  /**
   * A reference whose target refers to an unknown name makes the written
   * `get_path` raise, where the intended one gives None.
   */
  lemma NestedUnknown(paths: map<string, string>, value: string, a: string, b: string, depth: nat)
    requires depth >= 2 && '$' in value && VarRefs(value) == [a]
    requires a in paths && '$' in paths[a] && VarRefs(paths[a]) == [b] && b !in paths
    ensures Resolve(paths, value, depth) == Crashed
    ensures ResolveFixed(paths, value, depth) == Unresolvable
  {
    OneReference(paths, paths[a], b, depth - 1);
    OneReference(paths, value, a, depth);
  }

  /** Replacing a leading pattern in a text whose rest holds no '$'. */
  lemma ReplaceLeading(pat: string, rest: string, rep: string)
    requires |pat| > 0 && pat[0] == '$' && '$' !in rest
    ensures ReplaceAll(pat + rest, pat, rep) == rep + rest
  {
    assert (pat + rest)[..|pat|] == pat;
    assert (pat + rest)[|pat|..] == rest;
    ReplaceNothing(rest, pat, rep);
  }

  lemma {:induction false} ReplaceNothing(s: string, pat: string, rep: string)
    requires |pat| > 0 && pat[0] == '$' && '$' !in s
    ensures ReplaceAll(s, pat, rep) == s
    decreases |s|
  {
    if |s| >= |pat| {
      assert s[..|pat|][0] == s[0] != '$';
      ReplaceNothing(s[1..], pat, rep);
    }
  }

  /** The references of "$NAME/rest" for a name made of upper-case letters and '_'. */
  lemma LeadingRefName(name: string, rest: string)
    requires UpperName(name) && PlainTail(rest)
    ensures VarRefs("$" + name + rest) == [name]
    ensures '$' in "$" + name + rest
  {
    LeadingRef(name, rest);
    NoDollarNoRefs(rest);
    assert ("$" + name + rest)[0] == '$';
  }

  /** The shipped path values: the data directory, and the logs below it. */
  const DefaultPaths: map<string, string> := map[
    "DATA_PATH" := "/data/clustrix",
    "LOG_PATH" := "$DATA_PATH/log",
    "UI_LOGDIR" := "$LOG_PATH/clustrix_ui",
    "UI_CACHEDIR" := "/var/cache/clustrix/django",
    "UNIX_SOCKET_PATH" := "/var/lib/mysql/mysql.sock"]

  /** An upper-case name, as the installer's option names are. */
  predicate UpperName(name: string)
  {
    |name| > 0 && forall j | 0 <= j < |name| :: 'A' <= name[j] <= 'Z' || name[j] == '_'
  }

  /** A path tail after a reference: it starts a new component and refers to nothing. */
  predicate PlainTail(rest: string)
  {
    |rest| > 0 && rest[0] == '/' && '$' !in rest
  }

  /**
   * A value "$A<ra>" where A's value is "$B<rb>" and B's value is a plain
   * path resolves to B's path followed by both tails.
   */
  lemma TwoLevels(paths: map<string, string>, a: string, ra: string, b: string, rb: string, depth: nat)
    requires UpperName(a) && UpperName(b) && PlainTail(ra) && PlainTail(rb)
    requires a in paths && b in paths && paths[a] == "$" + b + rb && '$' !in paths[b]
    requires depth >= 2
    ensures Resolve(paths, paths[a], depth - 1) == Resolved(paths[b] + rb)
    ensures Resolve(paths, "$" + a + ra, depth) == Resolved(paths[b] + rb + ra)
  {
    LeadingRefName(b, rb);
    LeadingRefName(a, ra);
    OneReference(paths, paths[a], b, depth - 1);
    assert paths[a] == ("$" + b) + rb;
    ReplaceLeading("$" + b, rb, paths[b]);
    OneReference(paths, "$" + a + ra, a, depth);
    assert "$" + a + ra == ("$" + a) + ra;
    ReplaceLeading("$" + a, ra, paths[b] + rb);
  }

  /**
   * A value "$A<ra>" where A's value is "$B<rb>" and B is not a path option:
   * the written `get_path` raises, the intended one gives None.
   */
  lemma TwoLevelsUnknown(paths: map<string, string>, a: string, ra: string, b: string, rb: string, c: string, rc: string, depth: nat)
    requires UpperName(a) && UpperName(b) && UpperName(c) && PlainTail(ra) && PlainTail(rb) && PlainTail(rc)
    requires a in paths && b in paths && c !in paths
    requires paths[a] == "$" + b + rb && paths[b] == "$" + c + rc
    requires depth >= 3
    ensures Resolve(paths, "$" + a + ra, depth) == Crashed
    ensures ResolveFixed(paths, "$" + a + ra, depth) == Unresolvable
  {
    LeadingRefName(a, ra);
    LeadingRefName(b, rb);
    LeadingRefName(c, rc);
    assert '$' in paths[a] && VarRefs(paths[a]) == [b];
    assert '$' in paths[b] && VarRefs(paths[b]) == [c];
    NestedUnknown(paths, paths[a], b, c, depth - 1);
    assert Resolve(paths, paths[a], depth - 1) == Crashed;
    assert ResolveFixed(paths, paths[a], depth - 1) == Unresolvable;
    OneReference(paths, "$" + a + ra, a, depth);
  }

  /**
   * With the shipped values, the log directories resolve below the data
   * directory.
   */
  lemma DefaultsResolve(paths: map<string, string>, depth: nat)
    requires paths == DefaultPaths && depth >= 2
    ensures Resolve(paths, paths["LOG_PATH"], depth - 1) == Resolved("/data/clustrix/log")
    ensures Resolve(paths, paths["UI_LOGDIR"], depth) == Resolved("/data/clustrix/log/clustrix_ui")
  {
    DefaultEntries();
    ShippedNames();
    ShippedJoins();
    TwoLevels(paths, "LOG_PATH", "/clustrix_ui", "DATA_PATH", "/log", depth);
  }

  /** The shipped log entries, each a reference followed by a plain tail. */
  lemma DefaultEntries()
    ensures DefaultPaths["LOG_PATH"] == "$" + "DATA_PATH" + "/log"
    ensures DefaultPaths["UI_LOGDIR"] == "$" + "LOG_PATH" + "/clustrix_ui"
    ensures DefaultPaths["DATA_PATH"] == "/data/clustrix" && '$' !in DefaultPaths["DATA_PATH"]
  {
  }

  /** The shipped names and tails have the shapes the resolution lemmas ask for. */
  lemma ShippedNames()
    ensures UpperName("LOG_PATH") && UpperName("DATA_PATH")
    ensures PlainTail("/log") && PlainTail("/clustrix_ui")
  {
  }

  /** DATA_PATH rewritten to refer to a name that is not declared. */
  lemma MissingEntry(paths: map<string, string>)
    requires paths == DefaultPaths["DATA_PATH" := "$MISSING/data"]
    ensures paths["DATA_PATH"] == "$" + "MISSING" + "/data" && "MISSING" !in paths
    ensures UpperName("MISSING") && PlainTail("/data")
  {
  }

  /** The shipped directories, joined. */
  lemma ShippedJoins()
    ensures "/data/clustrix" + "/log" == "/data/clustrix/log"
    ensures "/data/clustrix/log" + "/clustrix_ui" == "/data/clustrix/log/clustrix_ui"
  {
  }

  /**
   * The defect, on the shipped names: when DATA_PATH refers to an unknown
   * name, UI_LOGDIR's written `get_path` raises where the intended one gives
   * None.
   */
  lemma NestedUnknownReference(paths: map<string, string>, depth: nat)
    requires paths == DefaultPaths["DATA_PATH" := "$MISSING/data"] && depth >= 3
    ensures Resolve(paths, paths["UI_LOGDIR"], depth) == Crashed
    ensures ResolveFixed(paths, paths["UI_LOGDIR"], depth) == Unresolvable
  {
    DefaultEntries();
    ShippedNames();
    MissingEntry(paths);
    TwoLevelsUnknown(paths, "LOG_PATH", "/clustrix_ui", "DATA_PATH", "/log", "MISSING", "/data", depth);
  }
}
