/**
 * Network interfaces: building an `Interface` from a name, an address or an
 * address with a mask, enumerating the host's interfaces, finding the one
 * inside a subnet, and the class-level routing table with its default route.
 *
 * The host itself is a parameter: which interface names exist, in the order
 * the kernel lists them, and which IPv4 address each one has.
 */
module Interfaces {
  import opened Wrappers
  import opened Text
  import opened Address
  import opened Routes

  /** The interface names under /sys/class/net, and the address of each that has one. */
  datatype System = System(names: seq<string>, addrs: map<string, int>)

  /**
   * `ip_for_interface`: "Global" is cached as 0.0.0.0; any other name is
   * asked of the kernel by its first 15 characters and raises when the
   * interface is missing or has no address.
   */
  function IpForInterface(sys: System, name: string): Result<int>
  {
    var key := if |name| > 15 then name[..15] else name;
    if name == "Global" then Ok(0)
    else if key in sys.addrs then Ok(sys.addrs[key])
    else Err("Interface " + name + " does not exist or has no address assigned")
  }

  /** The first of `names` whose address is `addr`. */
  function FirstWithAddr(sys: System, names: seq<string>, addr: int): Option<string>
  {
    if names == [] then None
    else if IpForInterface(sys, names[0]) == Ok(addr) then Some(names[0])
    else FirstWithAddr(sys, names[1..], addr)
  }

  /** What `interface_for_ip` answers: "Global" for 0.0.0.0, else the first owner. */
  function InterfaceOf(sys: System, addr: int): Option<string>
  {
    if addr == 0 then Some("Global") else FirstWithAddr(sys, sys.names, addr)
  }

  /** `interface_for_ip`: a scan of the listed names that stops at the first owner. */
  method InterfaceForIp(sys: System, addr: int) returns (name: Option<string>)
    ensures name == InterfaceOf(sys, addr)
  {
    if addr == 0 {
      return Some("Global");
    }
    var names := sys.names;
    for i := 0 to |names|
      invariant FirstWithAddr(sys, names, addr) == FirstWithAddr(sys, names[i..], addr)
    {
      assert names[i..][1..] == names[i + 1..];
      var found := IpForInterface(sys, names[i]);
      if found == Ok(addr) {
        return Some(names[i]);
      }
    }
    return None;
  }

  /**
   * `interface_for_ip` maps 0.0.0.0 to "Global"; otherwise it names the first
   * listed interface with that address, and answers None only when no
   * listed interface has it.
   */
  lemma {:induction false} InterfaceOfSpec(sys: System, addr: int)
    ensures addr == 0 ==> InterfaceOf(sys, addr) == Some("Global")
    ensures addr != 0 && InterfaceOf(sys, addr).None? ==>
      forall k | 0 <= k < |sys.names| :: IpForInterface(sys, sys.names[k]) != Ok(addr)
    ensures addr != 0 && InterfaceOf(sys, addr).Some? ==>
      exists k | 0 <= k < |sys.names| :: sys.names[k] == InterfaceOf(sys, addr).value &&
        IpForInterface(sys, sys.names[k]) == Ok(addr) &&
        forall j | 0 <= j < k :: IpForInterface(sys, sys.names[j]) != Ok(addr)
  {
    if addr != 0 {
      FirstWithAddrSpec(sys, sys.names, addr);
    }
  }

  lemma {:induction false} FirstWithAddrSpec(sys: System, names: seq<string>, addr: int)
    ensures FirstWithAddr(sys, names, addr).None? ==>
      forall k | 0 <= k < |names| :: IpForInterface(sys, names[k]) != Ok(addr)
    ensures FirstWithAddr(sys, names, addr).Some? ==>
      exists k | 0 <= k < |names| :: names[k] == FirstWithAddr(sys, names, addr).value &&
        IpForInterface(sys, names[k]) == Ok(addr) &&
        forall j | 0 <= j < k :: IpForInterface(sys, names[j]) != Ok(addr)
  {
    if names != [] && IpForInterface(sys, names[0]) != Ok(addr) {
      var rest := names[1..];
      FirstWithAddrSpec(sys, rest, addr);
      assert forall k | 0 <= k < |rest| :: rest[k] == names[k + 1];
      if FirstWithAddr(sys, rest, addr).Some? {
        var k :| 0 <= k < |rest| && rest[k] == FirstWithAddr(sys, rest, addr).value &&
          IpForInterface(sys, rest[k]) == Ok(addr) &&
          forall j | 0 <= j < k :: IpForInterface(sys, rest[j]) != Ok(addr);
        assert names[k + 1] == rest[k];
        assert forall j | 0 <= j < k + 1 :: IpForInterface(sys, names[j]) != Ok(addr) by {
          forall j | 0 <= j < k + 1
            ensures IpForInterface(sys, names[j]) != Ok(addr)
          {
            if j > 0 {
              assert names[j] == rest[j - 1];
            }
          }
        }
      }
    }
  }

  // -------------------------------------------------------------- interfaces

  /**
   * An `Interface`: the name it was built from, the interface name it
   * resolved to, its address and its netmask (None when none was found).
   */
  datatype Interface = Interface(name: Option<string>, iface: Option<string>, addr: int, mask: Option<int>)

  /** Whether `Interface(name)` splits off a netmask after a '/'. */
  predicate HasMaskPart(name: Option<string>)
  {
    name.Some? && name.value != "" && '/' in name.value
  }

  /**
   * The interface name and address for the part before any '/': an address
   * is looked up among the interfaces (possibly finding none), anything else
   * is taken as an interface name and must have an address.
   */
  function Locate(sys: System, host: Option<string>): Result<(Option<string>, int)>
  {
    match host
    case None => Ok((InterfaceOf(sys, 0), 0))
    case Some(h) =>
      match ParseAddr(Chars(h))
      case Ok(a) => Ok((InterfaceOf(sys, a), a))
      case Err(_) =>
        var a :- IpForInterface(sys, h);
        Ok((Some(h), a))
  }

  /**
   * `Interface(name)`.  "addr/mask" must have exactly one '/'; an explicit
   * non-empty mask is parsed as an address, otherwise the mask comes from
   * the routing table as `mask_for_interface` picks it, which is the first
   * non-zero applicable mask (see `Routes.MaskAsWritten`).  Every failure
   * is a ValueError.
   */
  function MakeInterface(sys: System, table: map<string, seq<Route>>, name: Option<string>): (r: Result<Interface>)
    ensures r.Ok? ==> r.value.name == name
  {
    if HasMaskPart(name) && |Split(name.value, '/')| != 2 then Err("too many values to unpack")
    else
      var host := if HasMaskPart(name) then Some(Split(name.value, '/')[0]) else name;
      var maskText := if HasMaskPart(name) then Split(name.value, '/')[1] else "";
      var located :- Locate(sys, host);
      var mask :-
        if maskText != "" then
          var m :- ParseAddr(Chars(maskText));
          Ok(Some(m))
        else Ok(MaskForAsWritten(table, located.0, located.1));
      Ok(Interface(name, located.0, located.1, mask))
  }

  /** `Interface.__init__`, calling the address parser and the lookups in turn. */
  method NewInterface(sys: System, table: map<string, seq<Route>>, name: Option<string>) returns (r: Result<Interface>)
    ensures r == MakeInterface(sys, table, name)
  {
    var host := name;
    var maskText := "";
    if HasMaskPart(name) {
      var parts := Split(name.value, '/');
      if |parts| != 2 {
        return Err("too many values to unpack");
      }
      host := Some(parts[0]);
      maskText := parts[1];
    }
    var iface: Option<string>;
    var addr: int;
    var parsed := NewIP(if host.None? then NoInput else Chars(host.value));
    if parsed.Ok? {
      addr := parsed.value;
      iface := InterfaceForIp(sys, addr);
    } else {
      var found := IpForInterface(sys, host.value);
      if found.Err? {
        return Err(found.error);
      }
      iface := host;
      addr := found.value;
    }
    var mask: Option<int>;
    if maskText != "" {
      var m := NewIP(Chars(maskText));
      if m.Err? {
        return Err(m.error);
      }
      mask := Some(m.value);
    } else {
      mask := MaskForAsWritten(table, iface, addr);
    }
    return Ok(Interface(name, iface, addr, mask));
  }

  /** `Interface()`: the wildcard 0.0.0.0, named "Global". */
  function Wildcard(table: map<string, seq<Route>>): Interface
  {
    Interface(None, Some("Global"), 0, MaskForAsWritten(table, Some("Global"), 0))
  }

  /** `Interface()` always succeeds, giving the wildcard. */
  lemma WildcardInterface(sys: System, table: map<string, seq<Route>>)
    ensures MakeInterface(sys, table, None) == Ok(Wildcard(table))
  {
  }

  /**
   * Whenever an interface name is resolved, it and the address agree: the
   * kernel reports that address for that name.
   */
  lemma InterfaceAddressAgree(sys: System, table: map<string, seq<Route>>, name: Option<string>)
    requires MakeInterface(sys, table, name).Ok?
    requires MakeInterface(sys, table, name).value.iface.Some?
    ensures IpForInterface(sys, MakeInterface(sys, table, name).value.iface.value) ==
            Ok(MakeInterface(sys, table, name).value.addr)
  {
    var i := MakeInterface(sys, table, name).value;
    InterfaceOfSpec(sys, i.addr);
  }

  /**
   * An address with an explicit prefix length, such as "10.1.2.3/24", keeps
   * the address, takes the mask from the prefix, and looks the address up
   * among the interfaces.
   */
  lemma AddressWithPrefix(sys: System, table: map<string, seq<Route>>, a: int, n: nat)
    requires 0 <= a < 0x1_0000_0000 && n < 32
    ensures MakeInterface(sys, table, Some(DottedText(a) + "/" + DecStr(n))) ==
            Ok(Interface(Some(DottedText(a) + "/" + DecStr(n)), InterfaceOf(sys, a), a, Some(PrefixMask(n))))
  {
    var digits := DecStr(n);
    OctetStrsSlashFree(a);
    assert '/' !in digits;
    ParseDotted(a);
    ParsePrefixLength(n);
    assert digits != "" by { assert Canonical(digits); }
    HostWithMask(sys, table, DottedText(a), digits, a, PrefixMask(n));
  }

  /** "host/mask", each part free of '/', takes its address from the host and its mask from the rest. */
  lemma HostWithMask(sys: System, table: map<string, seq<Route>>, host: string, mask: string, a: int, m: int)
    requires '/' !in host && '/' !in mask && mask != ""
    requires ParseAddr(Chars(host)) == Ok(a) && ParseAddr(Chars(mask)) == Ok(m)
    ensures MakeInterface(sys, table, Some(host + "/" + mask)) ==
            Ok(Interface(Some(host + "/" + mask), InterfaceOf(sys, a), a, Some(m)))
  {
    SplitAppend(host, mask, '/');
    SplitSingle(host, '/');
    SplitSingle(mask, '/');
    assert host + "/" + mask == host + ['/'] + mask;
  }

  /** A dotted quad holds no '/'. */
  lemma OctetStrsSlashFree(a: int)
    ensures '/' !in DottedText(a)
  {
    OctetStrsFour(a);
    var parts := OctetStrs(a, 4);
    forall k | 0 <= k < 4
      ensures '/' !in parts[k]
    {
      DigitsHaveNoSlash(parts[k]);
    }
    JoinAvoids(parts, ".", '/');
  }

  lemma DigitsHaveNoSlash(s: string)
    requires IsDigits(s, 10)
    ensures '/' !in s
  {
  }

  /**
   * A name that is not an address is an interface name: the interface
   * exists exactly when the kernel reports an address for it, and then the
   * mask is the routing table's choice for that interface and address, as
   * the program makes it.
   */
  lemma NamedInterface(sys: System, table: map<string, seq<Route>>, h: string)
    requires h == "" || '/' !in h
    requires ParseAddr(Chars(h)).Err?
    ensures MakeInterface(sys, table, Some(h)).Ok? <==> IpForInterface(sys, h).Ok?
    ensures IpForInterface(sys, h).Ok? ==>
      MakeInterface(sys, table, Some(h)) ==
      Ok(Interface(Some(h), Some(h), IpForInterface(sys, h).value, MaskForAsWritten(table, Some(h), IpForInterface(sys, h).value)))
  {
  }

  /** `Interface.__nonzero__`: an external interface has an address and is not "lo". */
  predicate IsExternal(i: Interface)
  {
    i.addr != 0 && i.name != Some("lo")
  }

  /**
   * `Interface.in_subnet`: `other`'s address lies in this interface's subnet;
   * never when this interface's mask or address is missing or zero.
   */
  predicate Contains(subnet: Interface, other: Interface)
  {
    subnet.mask.Some? && subnet.mask.value != 0 && subnet.addr != 0 &&
    InSubnet(subnet.addr, other.addr, subnet.mask.value)
  }

  /**
   * Under a prefix mask, a 32-bit subnet contains exactly the addresses that
   * share its top bits; a subnet contains itself.
   */
  lemma ContainsPrefix(subnet: Interface, other: Interface, n: nat)
    requires 0 < subnet.addr < 0x1_0000_0000 && 0 <= other.addr < 0x1_0000_0000
    requires 0 < n <= 32 && subnet.mask == Some(PrefixMask(n))
    ensures Contains(subnet, other) <==> subnet.addr / Pow2(32 - n) == other.addr / Pow2(32 - n)
    ensures Contains(subnet, subnet)
  {
    Pow2Values();
    InSubnetPrefix(subnet.addr, other.addr, n);
    PrefixNonZero(n);
  }

  lemma PrefixNonZero(n: nat)
    requires 0 < n <= 32
    ensures PrefixMask(n) != 0
  {
    assert Pow2(n) >= 2 by { Pow2Add(1, n - 1); }
    MulAtLeast(Pow2(n) - 1, Pow2(32 - n));
  }

  // ------------------------------------------------------------ enumerating

  /** The values of `build` on `names` that succeed, in order. */
  function Successes(build: string -> Result<Interface>, names: seq<string>): seq<Interface>
  {
    if names == [] then []
    else
      var last := build(names[|names| - 1]);
      Successes(build, names[..|names| - 1]) + (if last.Ok? then [last.value] else [])
  }

  /** `Interface(name)` as a function of the name. */
  function Builder(sys: System, table: map<string, seq<Route>>): string -> Result<Interface>
  {
    name => MakeInterface(sys, table, Some(name))
  }

  /** The interfaces built from `names` that have an address, in order. */
  function Built(sys: System, table: map<string, seq<Route>>, names: seq<string>): seq<Interface>
  {
    Successes(Builder(sys, table), names)
  }

  /** What `list_interfaces` returns: the wildcard, then each interface with an address. */
  function Listed(sys: System, table: map<string, seq<Route>>): seq<Interface>
  {
    [Wildcard(table)] + Built(sys, table, sys.names)
  }

  /** `list_interfaces`: a ValueError from one name skips that name. */
  method ListInterfaces(sys: System, table: map<string, seq<Route>>) returns (list: seq<Interface>)
    ensures list == Listed(sys, table)
  {
    var global := NewInterface(sys, table, None);
    WildcardInterface(sys, table);
    list := [global.value];
    var names := sys.names;
    for i := 0 to |names|
      invariant list == [Wildcard(table)] + Built(sys, table, names[..i])
    {
      var next := NewInterface(sys, table, Some(names[i]));
      SuccessesSnoc(Builder(sys, table), names, i);
      if next.Ok? {
        list := list + [next.value];
      }
    }
    assert names[..|names|] == names;
  }

  /**
   * The list starts with the wildcard; every later entry is built from a
   * listed name, and every listed name that builds is present.
   */
  lemma BuiltSpec(sys: System, table: map<string, seq<Route>>, names: seq<string>)
    ensures forall i | 0 <= i < |Built(sys, table, names)| ::
      exists k | 0 <= k < |names| :: MakeInterface(sys, table, Some(names[k])) == Ok(Built(sys, table, names)[i])
    ensures forall k | 0 <= k < |names| && MakeInterface(sys, table, Some(names[k])).Ok? ::
      MakeInterface(sys, table, Some(names[k])).value in Built(sys, table, names)
  {
    var build := Builder(sys, table);
    var built := Built(sys, table, names);
    SuccessesFrom(build, names);
    forall i | 0 <= i < |built|
      ensures exists k | 0 <= k < |names| :: MakeInterface(sys, table, Some(names[k])) == Ok(built[i])
    {
      var k :| 0 <= k < |names| && build(names[k]) == Ok(built[i]);
      assert MakeInterface(sys, table, Some(names[k])) == Ok(built[i]);
    }
    forall k | 0 <= k < |names| && MakeInterface(sys, table, Some(names[k])).Ok?
      ensures MakeInterface(sys, table, Some(names[k])).value in Built(sys, table, names)
    {
      SuccessesHas(build, names, k);
    }
  }

  /** One more name adds its value when it succeeds. */
  lemma SuccessesSnoc(build: string -> Result<Interface>, names: seq<string>, i: nat)
    requires i < |names|
    ensures Successes(build, names[..i + 1]) ==
      Successes(build, names[..i]) + (if build(names[i]).Ok? then [build(names[i]).value] else [])
  {
    assert names[..i + 1][..i] == names[..i];
  }

  /** Every success comes from one of the names. */
  lemma {:induction false} SuccessesFrom(build: string -> Result<Interface>, names: seq<string>)
    ensures forall i | 0 <= i < |Successes(build, names)| ::
      exists k | 0 <= k < |names| :: build(names[k]) == Ok(Successes(build, names)[i])
  {
    if names != [] {
      var init := names[..|names| - 1];
      SuccessesFrom(build, init);
      var before := Successes(build, init);
      var last := build(names[|names| - 1]);
      var all := Successes(build, names);
      assert all == before + (if last.Ok? then [last.value] else []);
      forall i | 0 <= i < |all|
        ensures exists k | 0 <= k < |names| :: build(names[k]) == Ok(all[i])
      {
        if i < |before| {
          var k :| 0 <= k < |init| && build(init[k]) == Ok(before[i]);
          assert init[k] == names[k] && all[i] == before[i];
          assert build(names[k]) == Ok(all[i]);
        } else {
          var k := |names| - 1;
          assert build(names[k]) == Ok(all[i]);
        }
      }
    } else {
      assert Successes(build, names) == [];
    }
  }

  /** Every name that builds contributes its interface. */
  lemma {:induction false} SuccessesHas(build: string -> Result<Interface>, names: seq<string>, k: nat)
    requires k < |names| && build(names[k]).Ok?
    ensures build(names[k]).value in Successes(build, names)
  {
    var init := names[..|names| - 1];
    if k < |init| {
      assert init[k] == names[k];
      SuccessesHas(build, init, k);
    }
  }

  // ------------------------------------------------------- subnet search

  /** The entries of `list` inside `subnet`, in order. */
  function Matches(list: seq<Interface>, subnet: Interface): seq<Interface>
  {
    if list == [] then []
    else
      Matches(list[..|list| - 1], subnet) + (if Contains(subnet, list[|list| - 1]) then [list[|list| - 1]] else [])
  }

  /** The verdict on the matches found: two or more is an error. */
  function Verdict(found: seq<Interface>): Result<Option<Interface>>
  {
    if |found| > 1 then Err("Multiple interfaces match given subnet")
    else if |found| == 1 then Ok(Some(found[0]))
    else Ok(None)
  }

  /** What `find_interface_in_subnet` answers. */
  function InterfaceInSubnet(sys: System, table: map<string, seq<Route>>, subnet: Interface): Result<Option<Interface>>
  {
    Verdict(Matches(Listed(sys, table), subnet))
  }

  /** `find_interface_in_subnet`: collect the matches, then judge their number. */
  method FindInterfaceInSubnet(sys: System, table: map<string, seq<Route>>, subnet: Interface)
    returns (r: Result<Option<Interface>>)
    ensures r == InterfaceInSubnet(sys, table, subnet)
  {
    var list := ListInterfaces(sys, table);
    var found := [];
    for i := 0 to |list|
      invariant found == Matches(list[..i], subnet)
    {
      assert list[..i + 1][..i] == list[..i];
      if Contains(subnet, list[i]) {
        found := found + [list[i]];
      }
    }
    assert list[..|list|] == list;
    if |found| > 1 {
      return Err("Multiple interfaces match given subnet");
    } else if |found| == 1 {
      return Ok(Some(found[0]));
    }
    return Ok(None);
  }

  /**
   * No match gives None, exactly one match gives that interface, and two or
   * more raise.
   */
  lemma {:induction false} VerdictSpec(list: seq<Interface>, subnet: Interface)
    ensures Verdict(Matches(list, subnet)) == Ok(None) <==>
      forall i | 0 <= i < |list| :: !Contains(subnet, list[i])
    ensures Verdict(Matches(list, subnet)).Ok? && Verdict(Matches(list, subnet)).value.Some? ==>
      exists k | 0 <= k < |list| :: list[k] == Verdict(Matches(list, subnet)).value.value &&
        Contains(subnet, list[k]) && forall j | 0 <= j < |list| && j != k :: !Contains(subnet, list[j])
    ensures Verdict(Matches(list, subnet)).Err? <==>
      exists j, k | 0 <= j < k < |list| :: Contains(subnet, list[j]) && Contains(subnet, list[k])
  {
    MatchesSpec(list, subnet);
  }

  lemma {:induction false} MatchesSpec(list: seq<Interface>, subnet: Interface)
    ensures |Matches(list, subnet)| == 0 <==> forall i | 0 <= i < |list| :: !Contains(subnet, list[i])
    ensures |Matches(list, subnet)| == 1 ==>
      exists k | 0 <= k < |list| :: list[k] == Matches(list, subnet)[0] &&
        Contains(subnet, list[k]) && forall j | 0 <= j < |list| && j != k :: !Contains(subnet, list[j])
    ensures |Matches(list, subnet)| >= 2 <==>
      exists j, k | 0 <= j < k < |list| :: Contains(subnet, list[j]) && Contains(subnet, list[k])
  {
    MatchesNone(list, subnet);
    MatchesOne(list, subnet);
    MatchesMany(list, subnet);
  }

  /** The matches collected so far, then the last interface if it matches. */
  lemma MatchesSnoc(list: seq<Interface>, subnet: Interface)
    requires list != []
    ensures var n := |list| - 1;
      Matches(list, subnet) == Matches(list[..n], subnet) + (if Contains(subnet, list[n]) then [list[n]] else [])
    ensures forall i | 0 <= i < |list| - 1 :: list[..|list| - 1][i] == list[i]
  {
  }

  lemma {:induction false} MatchesNone(list: seq<Interface>, subnet: Interface)
    ensures |Matches(list, subnet)| == 0 <==> forall i | 0 <= i < |list| :: !Contains(subnet, list[i])
  {
    if list != [] {
      MatchesSnoc(list, subnet);
      MatchesNone(list[..|list| - 1], subnet);
    }
  }

  lemma {:induction false} MatchesMany(list: seq<Interface>, subnet: Interface)
    ensures |Matches(list, subnet)| >= 2 <==>
      exists j, k | 0 <= j < k < |list| :: Contains(subnet, list[j]) && Contains(subnet, list[k])
  {
    if list != [] {
      var n := |list| - 1;
      var init := list[..n];
      MatchesSnoc(list, subnet);
      MatchesMany(init, subnet);
      MatchesNone(init, subnet);
      if |Matches(list, subnet)| >= 2 {
        if |Matches(init, subnet)| >= 2 {
          var j, k :| 0 <= j < k < n && Contains(subnet, init[j]) && Contains(subnet, init[k]);
          assert Contains(subnet, list[j]) && Contains(subnet, list[k]);
        } else {
          var j :| 0 <= j < n && Contains(subnet, init[j]);
          assert Contains(subnet, list[j]) && Contains(subnet, list[n]);
        }
      }
      if exists j, k | 0 <= j < k < |list| :: Contains(subnet, list[j]) && Contains(subnet, list[k]) {
        var j, k :| 0 <= j < k < |list| && Contains(subnet, list[j]) && Contains(subnet, list[k]);
        if k < n {
          assert Contains(subnet, init[j]) && Contains(subnet, init[k]);
        } else {
          assert Contains(subnet, init[j]);
        }
      }
    }
  }

  lemma {:induction false} MatchesOne(list: seq<Interface>, subnet: Interface)
    ensures |Matches(list, subnet)| == 1 ==>
      exists k | 0 <= k < |list| :: list[k] == Matches(list, subnet)[0] &&
        Contains(subnet, list[k]) && forall j | 0 <= j < |list| && j != k :: !Contains(subnet, list[j])
  {
    if list != [] && |Matches(list, subnet)| == 1 {
      var n := |list| - 1;
      var init := list[..n];
      MatchesSnoc(list, subnet);
      MatchesNone(init, subnet);
      var m := Matches(init, subnet);
      if Contains(subnet, list[n]) {
        assert |m| == 0;
        assert list[n] == Matches(list, subnet)[0];
        assert forall j | 0 <= j < |list| && j != n :: !Contains(subnet, list[j]);
      } else {
        MatchesOne(init, subnet);
        var k :| 0 <= k < n && init[k] == m[0] && Contains(subnet, init[k]) &&
          forall j | 0 <= j < n && j != k :: !Contains(subnet, init[j]);
        assert list[k] == Matches(list, subnet)[0];
        assert forall j | 0 <= j < |list| && j != k :: !Contains(subnet, list[j]);
      }
    }
  }

  // ---------------------------------------------------------- routing table

  /**
   * The table `populate_routes` leaves behind, the default route it leaves
   * and the exception it raises, if any, when it reads `text` with the
   * class-level table `table` and default route `default` in place.  The
   * table is never cleared, so every reading appends.
   */
  function Populated(sys: System, table: map<string, seq<Route>>, default: Option<Interface>, text: string)
    : (map<string, seq<Route>>, Option<Interface>, Option<string>)
  {
    var (parsed, failure) := Reading(BodyLines(text));
    var grouped := Group(table, parsed);
    if failure.Some? then (grouped, default, failure)
    else
      var name := FirstDefault(parsed);
      if name.None? || name.value == "" then (grouped, default, None)
      else
        match MakeInterface(sys, grouped, Some(name.value))
        case Ok(i) => (grouped, Some(i), None)
        case Err(e) => (grouped, default, Some(e))
  }

  /**
   * After a successful reading, every interface's routes are its earlier
   * routes followed by its rows of the file in order, and the default route,
   * if the file has a route with a zero mask, is built from the interface
   * of the first such route.
   */
  lemma PopulatedSpec(sys: System, table: map<string, seq<Route>>, default: Option<Interface>, text: string, name: string)
    requires Populated(sys, table, default, text).2.None?
    ensures var parsed := Reading(BodyLines(text)).0;
      Lookup(Populated(sys, table, default, text).0, name) == Lookup(table, name) + OfInterface(parsed, name)
    ensures var parsed := Reading(BodyLines(text)).0;
      Populated(sys, table, default, text).1 != default ==>
        exists k | 0 <= k < |parsed| :: parsed[k].mask == 0 &&
          Populated(sys, table, default, text).1.value.name == Some(parsed[k].iface) &&
          forall j | 0 <= j < k :: parsed[j].mask != 0
  {
    var parsed := Reading(BodyLines(text)).0;
    GroupByInterface(table, parsed, name);
    FirstDefaultSpec(parsed);
  }

  /** The routing state shared by the whole installer run. */
  class RouteTable {
    var routes: map<string, seq<Route>>
    var defaultRoute: Option<Interface>

    /** The class attributes' initial values: no routes and no default route. */
    constructor()
      ensures routes == map[] && defaultRoute == None
    {
      routes := map[];
      defaultRoute := None;
    }

    /**
     * `populate_routes`' loop over the lines after the header: every route
     * read is appended to its interface's list, and the first one with a
     * zero mask names the default; a line that does not parse stops it.
     */
    method ReadRoutes(lines: seq<string>) returns (default: Option<string>, failure: Option<string>)
      modifies this
      ensures routes == Group(old(routes), Reading(lines).0)
      ensures failure == Reading(lines).1 && default == FirstDefault(Reading(lines).0)
      ensures defaultRoute == old(defaultRoute)
    {
      ghost var done: seq<Route> := [];
      default := None;
      for i := 0 to |lines|
        invariant Reading(lines[..i]) == (done, None)
        invariant routes == Group(old(routes), done)
        invariant default == FirstDefault(done)
        invariant defaultRoute == old(defaultRoute)
      {
        ReadingStep(lines, i);
        var line := Strip(lines[i]);
        if line != [] {
          var route := ParseRoute(Fields(line));
          if route.Err? {
            ReadingStops(lines, i);
            return default, Some(route.error);
          }
          var r := route.value;
          GroupStep(old(routes), done, r);
          FirstDefaultStep(done, r);
          if r.mask == 0 && default.None? {
            default := Some(r.iface);
          }
          routes := AddRoute(routes, r);
          done := done + [r];
        }
      }
      assert lines[..|lines|] == lines;
      failure := None;
    }

    /** `populate_routes`, reading the routing table file's contents `text`. */
    method PopulateRoutes(sys: System, text: string) returns (failure: Option<string>)
      modifies this
      ensures (routes, defaultRoute, failure) == Populated(sys, old(routes), old(defaultRoute), text)
    {
      var default;
      default, failure := ReadRoutes(BodyLines(text));
      if failure.Some? {
        return;
      }
      if default.Some? && default.value != "" {
        var built := NewInterface(sys, routes, default);
        if built.Err? {
          return Some(built.error);
        }
        defaultRoute := Some(built.value);
      }
    }

    /**
     * `default_interface`: a default route that is an external interface is
     * returned as it is; otherwise the routing table is read again first.
     */
    method DefaultInterface(sys: System, text: string) returns (r: Result<Option<Interface>>)
      modifies this
      ensures old(defaultRoute).Some? && IsExternal(old(defaultRoute).value) ==>
        routes == old(routes) && defaultRoute == old(defaultRoute) && r == Ok(defaultRoute)
      ensures !(old(defaultRoute).Some? && IsExternal(old(defaultRoute).value)) ==>
        var (t, d, failure) := Populated(sys, old(routes), old(defaultRoute), text);
        routes == t && defaultRoute == d && r == (if failure.Some? then Err(failure.value) else Ok(d))
    {
      if defaultRoute.Some? && IsExternal(defaultRoute.value) {
        return Ok(defaultRoute);
      }
      var failure := PopulateRoutes(sys, text);
      if failure.Some? {
        return Err(failure.value);
      }
      return Ok(defaultRoute);
    }
  }
}
