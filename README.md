# clxnode_install: a verified model of the installer's configuration core

`bin/clxnode_install.py` configures a ClustrixDB node. It keeps a registry of
configuration options (memory, CPU cores, storage paths, listen and back-end
addresses, ports, the sshd-trust flag and HugeTLB). It takes values for them
from `/etc/clustrix/clxnode.conf` and the command line, checks each against the
machine, and writes the file back. Below that sit:

- a small IPv4 library: `IP`, with dotted, hex and prefix-length forms;
- `Interface`, an address with its device and netmask;
- `Route`, one line of `/proc/net/route`;
- `Interfaces`, the routing table and the device lookups.

This project models that core in Dafny and proves what it promises.

Modules, one file each:

| module | contents |
|---|---|
| `Text` | the Python string operations the installer relies on (`strip`, `split`, `join`, `int()`, `str()`, `lower`, `replace`) |
| `Address` | `IP`: the constructor's chain of parsers, `from_dotted`, `from_hex`, `to_dotted`, `in_subnet`, `__len__`, `is_loopback` |
| `Routes` | `Route`, reading the routing table, grouping routes by interface, `mask_for_interface` |
| `Interfaces` | `Interface` (construction, `__nonzero__`, `in_subnet`), `interface_for_ip`, `list_interfaces`, `find_interface_in_subnet`, and the class-level routing state (`populate_routes`, `default_interface`) as the class `RouteTable` |
| `Values` | the dynamically typed option values, Python 2 equality, truth and `str()` on them, `bool_to_english`, `grammar_list` |
| `Paths` | `$VAR` references in path values, `get_path`, `expanduser`/`abspath` |
| `RunFlags` | `RunFlag` and `WizardFlag` with `optcallback` |
| `Options` | every option class's constructor, `set_value`, `is_default`, `mkarg`, `config_string` |
| `Checks` | every option class's `check()` |
| `ConfigFiles` | `ConfigFile`: `load_from_file`, `add_extra`, `write` |
| `Registry` | `ConfigOption.options` as the class `Registry`, plus the parts of `main` that walk it: the declarations, loading the file, the check loop and `--print-config` |

Some parts work by updating state step by step: the routing table, the config
file, the run flags and the option registry. These are classes whose methods
are proved against specification functions. Some parts compute values with
loops: the address parsers and printers, `mask_for_interface`,
`interface_for_ip`, `list_interfaces` and `find_interface_in_subnet`. These are
methods with loop invariants, each tied to a function. Everything else is
functions and lemmas.

What the machine reports is passed in as parameters:

- the devices and their addresses;
- the text of `/proc/net/route`;
- MemTotal;
- the hypervisor type;
- which protocols fail to bind;
- whether paths exist;
- the free space and the filesystem type;
- the user's yes/no answers.

Where the program has a bug (see "## Findings"), the model follows the
program and keeps the corrected behaviour beside it. `Interface` takes the
mask `mask_for_interface` picks as written. `ConfigFile.Write`, the checks and
the check loop take a flag `asWritten`: set, they raise where the program
raises; clear, they behave as evidently intended.

## Model

| member | source | states |
|---|---|---|
| `Text.StripRightSpec` | bin/clxnode_install.py:307 | `rstrip()` keeps a prefix of the line, removes only whitespace, and leaves none at the end |
| `Text.StripLeftSpec` | bin/clxnode_install.py:307 | `lstrip()` keeps a suffix, removes only whitespace, and leaves none in front |
| `Text.StripUnchanged` | bin/clxnode_install.py:1025 | a string whose ends are not whitespace is left alone by `strip()` |
| `Text.Split` | bin/clxnode_install.py:917 | `split('.')` gives one more piece than there are separators, and no piece holds the separator |
| `Text.JoinSplit` | bin/clxnode_install.py:917-928 | joining the pieces of a split with the separator gives the string back |
| `Text.SplitJoin` | bin/clxnode_install.py:917-928 | splitting a join of separator-free pieces gives the pieces back |
| `Text.SplitAppend` | bin/clxnode_install.py:1022 | a split distributes over a separator placed between two strings |
| `Text.Fields` | bin/clxnode_install.py:1028 | `split()` gives only non-empty fields |
| `Text.WordLen` | bin/clxnode_install.py:1028 | a field runs up to the first whitespace character |
| `Text.IndexOf` | bin/clxnode_install.py:310 | the split point of `split('=', 1)` holds the first '=' and none comes before it |
| `Text.IndexOfAt` | bin/clxnode_install.py:310 | the one position holding '=' with none before it is the split point |
| `Text.Lower` | bin/clxnode_install.py:1418 | `lower()` keeps the length and changes only A-Z, each to its lower-case letter |
| `Text.ReplaceChar` | bin/clxnode_install.py:385 | replacing '-' by '_' keeps the length and changes only the '-' characters |
| `Text.TrimRight` | bin/clxnode_install.py:719 | `rstrip('/')` keeps a prefix and removes only trailing '/' |
| `Text.DecStr` | bin/clxnode_install.py:926 | `str(n)` is a numeral without a superfluous leading zero whose value is `n` |
| `Text.DecStrOfValue` | bin/clxnode_install.py:926 | a canonical numeral is exactly what `str()` writes for its value |
| `Text.ParseIntStr` | bin/clxnode_install.py:919 | `int()` reads back what `str()` writes for a natural number |
| `Text.ParseIntSpacedSign` | bin/clxnode_install.py:1275 | `int()` skips whitespace between the sign and the digits |
| `Text.ParseIntStrSigned` | bin/clxnode_install.py:1275 | `int()` reads back what `str()` writes for any integer, so a port typed as a number keeps it |
| `Address.CidrMask` | bin/clxnode_install.py:875-880 | the '0'-buffer loop with the first n set to '1', read in base 2, is the mask with n leading one bits, and 0.0.0.0 when n is negative |
| `Address.BinaryOnesZeros` | bin/clxnode_install.py:877-880 | n ones followed by k zeros, read in base 2, is (2^n - 1) * 2^k |
| `Address.AndLowOnes` | bin/clxnode_install.py:926 | `addr & 0xff` is the address modulo 256, for every int including negative ones |
| `Address.FromDotted` | bin/clxnode_install.py:910-920 | the loop computes `from_dotted`: None unless there are exactly three dots and every octet parses, else the shift-and-add of the octets |
| `Address.ShiftAddStops` | bin/clxnode_install.py:917-919 | once an octet fails to parse, the conversion fails |
| `Address.FromHex` | bin/clxnode_install.py:930-940 | the loop computes `from_hex`: None unless the text has eight characters, else the bytes read from the end |
| `Address.PairValueIsInt` | bin/clxnode_install.py:936-939 | the reading of each two-character slice of the hex text is `int(pair, 16)` |
| `Address.NewIP` | bin/clxnode_install.py:863-887 | the constructor's chain computes `ParseAddr`: a falsy input is 0, then dotted, then hex, then `int()` (below 32, a prefix mask), then a raw int, else ValueError |
| `Address.ToDotted` | bin/clxnode_install.py:921-928 | the loop writes the four octets, most significant first, joined by dots |
| `Address.InSubnetEquivalence` | bin/clxnode_install.py:941-944 | for every mask, sharing a subnet is reflexive, symmetric and transitive |
| `Address.DottedValueRoundTrip` | bin/clxnode_install.py:910-928 | `from_dotted(to_dotted(a)) == a` for every 32-bit address |
| `Address.DottedTextRoundTrip` | bin/clxnode_install.py:910-928 | `to_dotted(from_dotted(s)) == s` for every dotted quad written the way `to_dotted` writes it |
| `Address.HexRoundTrip` | bin/clxnode_install.py:930-940 | `from_hex` reads back every 32-bit address written in the routing table's byte order |
| `Address.ParsePrefixLength` | bin/clxnode_install.py:874-880 | a number below 32, as text or as an int, is the prefix mask of that length |
| `Address.ParseRawNumber` | bin/clxnode_install.py:874-875 | a decimal number of 32 or more, as text, is taken as a raw address whenever its numeral is not eight digits long |
| `Address.ParseEightDigits` | bin/clxnode_install.py:870-871 | eight decimal digits are caught by `from_hex` before `int()` is tried: each pair is read in base 16 and the last pair is the high byte, so `IP("10000000")` is 16, not ten million |
| `Address.ParseDotted` | bin/clxnode_install.py:867-868 | every 32-bit address parses back from its dotted text |
| `Address.ParseHex` | bin/clxnode_install.py:870-871 | every 32-bit address parses back from its routing-table hex text |
| `Address.MaskKeepsPrefix` | bin/clxnode_install.py:944 | masking a 32-bit address with an n-bit prefix mask keeps exactly its top n bits |
| `Address.InSubnetPrefix` | bin/clxnode_install.py:941-944 | under an n-bit prefix mask, two 32-bit addresses share a subnet exactly when their top n bits agree |
| `Address.LoopbackConstants` | bin/clxnode_install.py:1143-1144 | the constants `is_loopback` builds are 127.0.0.1 and the 8-bit prefix mask |
| `Address.LoopbackText` | bin/clxnode_install.py:1143 | the loopback constant prints as "127.0.0.1" |
| `Address.LoopbackRange` | bin/clxnode_install.py:1141-1145 | `is_loopback` holds for a 32-bit address exactly when it lies in 127.0.0.0/8 |
| `Address.LenAsWritten` | bin/clxnode_install.py:897-905 | `__len__` as written returns 0 for every non-negative address |
| `Address.Specificity` | bin/clxnode_install.py:897-905 | the intended `__len__` counts the one bits of the 32-bit pattern |
| `Address.PopCountLowOnes` | bin/clxnode_install.py:897-905 | the value with n low one bits has n one bits |
| `Address.PopCountShifted` | bin/clxnode_install.py:897-905 | shifting left does not change the number of one bits |
| `Address.PrefixSpecificity` | bin/clxnode_install.py:897-908 | an n-bit prefix mask has specificity n, so longer prefixes compare as more specific |
| `Routes.ReadingStep` | bin/clxnode_install.py:1024-1036 | one more line of the routing table: a blank line adds nothing, a parsed line adds its route, a bad line records the error |
| `Routes.ReadingStops` | bin/clxnode_install.py:1024-1029 | a line that does not parse ends the reading; later lines are never read |
| `Routes.RouteRowsAppend` | bin/clxnode_install.py:1024-1028 | the rows of the lines of two parts of a file are the rows of each part |
| `Routes.ParseRowsAllOk` | bin/clxnode_install.py:1028-1029 | when no row fails, there is one route per row, in file order, each what `Route(line)` builds |
| `Routes.ParseRowsStops` | bin/clxnode_install.py:1029 | a failing row hides every later row |
| `Routes.AddRoute` | bin/clxnode_install.py:1033-1036 | appending a route adds its interface to the table's keys and nothing else |
| `Routes.OfInterface` | bin/clxnode_install.py:1033-1036 | the routes selected for an interface all name that interface |
| `Routes.GroupByInterface` | bin/clxnode_install.py:1033-1036 | after grouping, each interface's routes are its earlier routes followed by its new ones in file order, and an interface is a key exactly when it had routes or a new route names it |
| `Routes.FirstDefaultSpec` | bin/clxnode_install.py:1030-1032 | the default route is the interface of the earliest route with mask 0.0.0.0, and there is none exactly when no route has that mask |
| `Routes.MaskAsWrittenSpec` | bin/clxnode_install.py:1118-1133 | as written, the mask is that of the first applicable route with a non-zero mask, or 0.0.0.0 when every applicable route has that mask, or none when no route applies |
| `Routes.MostSpecificMaskSpec` | bin/clxnode_install.py:1118-1133 | as intended, the mask belongs to an applicable route and has at least as many one bits as every applicable route's mask |
| `Routes.MaskForInterfaceAsWritten` | bin/clxnode_install.py:1118-1133 | the loop as written computes the as-written choice: none without a named interface that has routes |
| `Routes.MaskForInterface` | bin/clxnode_install.py:1118-1133 | the loop comparing one-bit counts computes the most specific mask |
| `Interfaces.InterfaceForIp` | bin/clxnode_install.py:1103-1116 | the scan over device names computes `InterfaceOf` and stops at the first owner |
| `Interfaces.InterfaceOfSpec` | bin/clxnode_install.py:1103-1116 | 0.0.0.0 is "Global"; otherwise the answer is the first listed device with that address, and None only when no listed device has it |
| `Interfaces.FirstWithAddrSpec` | bin/clxnode_install.py:1108-1116 | the name found has the address and no earlier name has it; none found means no name has it |
| `Interfaces.MakeInterface` | bin/clxnode_install.py:954-971 | a built interface keeps the name it was built from |
| `Interfaces.NewInterface` | bin/clxnode_install.py:954-971 | `Interface.__init__`, calling the address parser and the lookups in turn, computes `MakeInterface`, whose mask, unless given after '/', is the one `mask_for_interface` as written picks |
| `Interfaces.WildcardInterface` | bin/clxnode_install.py:954-971 | `Interface()` always succeeds and is the wildcard 0.0.0.0 named "Global", with the mask `mask_for_interface` as written gives "Global" |
| `Interfaces.InterfaceAddressAgree` | bin/clxnode_install.py:960-967 | whenever a device name is resolved, the kernel reports the interface's address for it |
| `Interfaces.AddressWithPrefix` | bin/clxnode_install.py:957-969 | "a.b.c.d/n" keeps the address, takes the prefix mask, and looks the address up among the devices |
| `Interfaces.NamedInterface` | bin/clxnode_install.py:963-971 | a name that is not an address builds exactly when the kernel reports an address for it, and then the mask is the first non-zero applicable one, as `mask_for_interface` is written |
| `Interfaces.ContainsPrefix` | bin/clxnode_install.py:988-995 | under a prefix mask, `in_subnet` holds exactly when the top bits agree, and a subnet contains itself |
| `Interfaces.ListInterfaces` | bin/clxnode_install.py:1046-1056 | the loop computes the wildcard followed by each device that builds, in order, skipping the ones that raise ValueError |
| `Interfaces.BuiltSpec` | bin/clxnode_install.py:1046-1056 | every listed interface is built from a device name, and every device name that builds is listed |
| `Interfaces.FindInterfaceInSubnet` | bin/clxnode_install.py:1147-1160 | the loop collects the matches and computes the verdict on them |
| `Interfaces.VerdictSpec` | bin/clxnode_install.py:1150-1160 | no match gives None, exactly one match gives that interface, and two or more raise ValueError |
| `Interfaces.MatchesSpec` | bin/clxnode_install.py:1150-1153 | the matches are exactly the listed interfaces inside the subnet, counted both ways |
| `Interfaces.PopulatedSpec` | bin/clxnode_install.py:1020-1040 | after a reading, each device's routes are its old routes followed by its new rows in order, and the default route is built from the first zero-mask route's device |
| `Interfaces.RouteTable.constructor` | bin/clxnode_install.py:1013-1014 | the class-level table starts empty, with no default route |
| `Interfaces.RouteTable.ReadRoutes` | bin/clxnode_install.py:1021-1036 | the reading loop appends the parsed routes to the table, and reports the first default-route device and the failure |
| `Interfaces.RouteTable.PopulateRoutes` | bin/clxnode_install.py:1020-1040 | `populate_routes` leaves the table, the default route and the exception that `Populated` describes |
| `Interfaces.RouteTable.DefaultInterface` | bin/clxnode_install.py:1135-1139 | a truthy default route is returned as it is; otherwise the routes are read again first |
| `Values.EqualsProperties` | bin/clxnode_install.py:975-977 | equality is reflexive and symmetric, and raises exactly when one side is an interface and the other is not |
| `Values.DiffersNegatesEquals` | bin/clxnode_install.py:975-977 | away from interfaces, `!=` is the negation of `==` |
| `Values.BoolToEnglishAnswers` | bin/clxnode_install.py:99-102 | "Yes" exactly for values equal to True (1 included) and for a non-number shown as "Yes"; a number gives "No" exactly when it equals False |
| `Values.GrammarListLong` | bin/clxnode_install.py:144-153 | three or more items read "a, b, ..., or z" |
| `Values.GrammarListPair` | bin/clxnode_install.py:149-150 | two items are joined by "or" whatever the delimiter |
| `Paths.NameLen` | bin/clxnode_install.py:638 | a reference runs as far as name characters go |
| `Paths.VarRefs` | bin/clxnode_install.py:638 | every reference `re.findall` returns is a variable name |
| `Paths.NoDollarNoRefs` | bin/clxnode_install.py:635-660 | a value without '$' refers to nothing |
| `Paths.LeadingRef` | bin/clxnode_install.py:638 | a reference followed by a non-name character is read whole, and the scan resumes after it |
| `Paths.ExpandUserPlain` | bin/clxnode_install.py:719 | a path not starting with '~' is left alone by `expanduser` |
| `Paths.ExpandUserHome` | bin/clxnode_install.py:719 | "~/rest" is the home directory, without trailing '/', then "/rest" |
| `Paths.AbsPath` | bin/clxnode_install.py:722 | an absolute path is kept; a relative one ends with the given path and starts with '/' when the working directory does |
| `Paths.ResolveFixedAgrees` | bin/clxnode_install.py:632-660 | the intended `get_path` never raises, and it agrees with the written one wherever that does not raise |
| `Paths.SelfReferenceCrashes` | bin/clxnode_install.py:639-651 | a path option that refers to itself makes the written `get_path` raise at every depth; the intended one gives None |
| `Paths.OneReference` | bin/clxnode_install.py:635-660 | a value with one reference: an unknown name gives None, a known one is replaced by its resolution, and a failed nested resolution crashes |
| `Paths.NestedUnknown` | bin/clxnode_install.py:639-656 | a reference whose target refers to an unknown name makes the written `get_path` raise where the intended one gives None |
| `Paths.TwoLevels` | bin/clxnode_install.py:635-657 | "$A/x", where A is "$B/y" and B is a plain path, resolves to B's path then "/y/x" |
| `Paths.TwoLevelsUnknown` | bin/clxnode_install.py:639-656 | two levels down, an unknown name makes the written `get_path` raise where the intended one gives None |
| `Paths.DefaultsResolve` | bin/clxnode_install.py:1859-1864 | with the shipped values, LOG_PATH is /data/clustrix/log and UI_LOGDIR is /data/clustrix/log/clustrix_ui |
| `Paths.NestedUnknownReference` | bin/clxnode_install.py:632-660 | when DATA_PATH refers to an unknown name, UI_LOGDIR's written `get_path` raises where the intended one gives None |
| `RunFlags.RunFlag.constructor` | bin/clxnode_install.py:382-390 | a flag starts at its default, and its variable name is the switch with '_' for '-' |
| `RunFlags.RunFlag.OptCallback` | bin/clxnode_install.py:404-411 | giving a switch moves the mode off its default; the wizard switch always turns the mode on |
| `RunFlags.VariableName` | bin/clxnode_install.py:385 | the variable name has the switch's length, no '-', and the switch's other characters |
| `Options.LongDescriptionSpec` | bin/clxnode_install.py:439-443 | the long description names ClustrixDB, ends with the description, and is the description itself when that names ClustrixDB already |
| `Options.NewOption` | bin/clxnode_install.py:434-449 | a new option has its name, kind and option name, starts at its default, and is not set |
| `Options.NewPath` | bin/clxnode_install.py:617-631 | a path option starts at its default and has not created a directory; a directory's descriptions end in " Path" |
| `Options.NewInterfaceOption` | bin/clxnode_install.py:1167-1171 | an interface option starts at its default, and its long description ends in " Interface" |
| `Options.BoundInterface` | bin/clxnode_install.py:1245-1248 | a port binds to the named interface option's value when one is registered, otherwise to the wildcard |
| `Options.NewPort` | bin/clxnode_install.py:1240-1257 | a port starts at its default with its protocols, bound value and configurability, and is not set |
| `Options.PortDescriptions` | bin/clxnode_install.py:1250-1257 | a port's description extends the given one, names the protocols and ends in " Port"; its long description names ClustrixDB and ends in " Port" |
| `Options.MaxRedoAbsent` | bin/clxnode_install.py:1335-1339 | with no earlier MAX_REDO option the redo space stays 1024 MiB |
| `Options.NewMemory` | bin/clxnode_install.py:1330-1361 | the memory option exists exactly when MemTotal is known and at least the system minimum; its default is what remains after the reserve, in whole MiB, and at least the database minimum |
| `Options.NewHugeTlb` | bin/clxnode_install.py:1718-1732 | HugeTLB is on by default on bare metal and on Xen with ACPI, and off otherwise |
| `Options.SetBool` | bin/clxnode_install.py:578-590 | a bool option's `set_value` changes only the value and marks it set |
| `Options.SetInterface` | bin/clxnode_install.py:1178-1217 | an interface option's `set_value` changes only the value and marks it set |
| `Options.SetPath` | bin/clxnode_install.py:716-724 | a path option's `set_value` changes only the value and marks it set |
| `Options.SetNumber` | bin/clxnode_install.py:1271-1282 | the port and memory options' `set_value` changes only the value and `is_set` |
| `Options.SetCores` | bin/clxnode_install.py:1416-1428 | the cores option's `set_value` changes only the value and marks it set |
| `Options.SetValue` | bin/clxnode_install.py:528-532 | no option's `set_value` changes anything but the value and `is_set` |
| `Options.FlagCallback` | bin/clxnode_install.py:603-605 | a flag given on the command line changes only its value, whose truth is the opposite of the default's |
| `Options.FreshIsDefault` | bin/clxnode_install.py:533-535 | an option fresh from its constructor is at its default (the cores and HugeTLB options define `is_default` differently) |
| `Options.MkArgPlain` | bin/clxnode_install.py:536-549 | a named option gives no argument exactly when at its default with defaults skipped, and otherwise "--name=value" (or "--name=<VAR>" per node) |
| `Options.MkArgUnnamed` | bin/clxnode_install.py:544-545 | an option without an option name never gives an argument |
| `Options.MkArgFlag` | bin/clxnode_install.py:606-611 | a flag gives its switch exactly when its value has moved off the default |
| `Options.PortSetValue` | bin/clxnode_install.py:1271-1282 | a port takes any integer text as its number, and stores None and clears `is_set` for anything else |
| `Options.CoresAll` | bin/clxnode_install.py:1416-1419 | "all", "max" and "maximum", in any case, set the cores to '0', which counts as the default |
| `Options.CoresNumber` | bin/clxnode_install.py:1420-1428 | a non-negative number of cores is stored as typed, and a negative one is asked again |
| `Options.BoolSetValue` | bin/clxnode_install.py:578-590 | a bool is kept as given; other text moves a flag off its default, and turns HugeTLB on |
| `Options.FlagFromFile` | bin/clxnode_install.py:586-611 | a flag read from the file has moved off its default, so `mkarg` gives its switch |
| `Options.HugeTlbFromFile` | bin/clxnode_install.py:1741-1756 | HugeTLB read from the file is on, and so not at its default |
| `Options.PathSetValueAbsolute` | bin/clxnode_install.py:716-724 | with an absolute working directory, a stored path is absolute |
| `Options.InterfaceSetValue` | bin/clxnode_install.py:1193-1217 | without --force, a stored interface is 0.0.0.0 or belongs to a device, and has an address when one is required |
| `Options.InterfaceSetValueForced` | bin/clxnode_install.py:1182-1192 | under --force, whatever parses as an interface is stored as parsed, and what does not is asked again |
| `Options.InterfaceArg` | bin/clxnode_install.py:957 | `name and '/' in name`: text goes on to the parser, any other falsy value is the wildcard, and any other truthy value raises TypeError |
| `Checks.FsCheckAsWritten` | bin/clxnode_install.py:829-847 | as written, the filesystem test raises NameError exactly when a type is recommended and the type is unknown; otherwise the user is asked only about a type that is not recommended, in the wizard without --force |
| `Checks.FsCheck` | bin/clxnode_install.py:829-847 | as intended, an unknown type is one that is not recommended, and the wizard asks about it without --force |
| `Checks.FsCheckAgrees` | bin/clxnode_install.py:829-847 | the intended test agrees with the written one wherever that does not raise, and ext4/xfs with an unknown type raises as written |
| `Checks.PathOnDisk` | bin/clxnode_install.py:780-859 | the on-disk part of a path check accepts, asks again or raises, and changes the option only by recording a created directory |
| `Checks.PathCheck` | bin/clxnode_install.py:750-859 | a path check accepts, asks again or raises, and changes the option only by recording a created directory |
| `Checks.PathCheckRaises` | bin/clxnode_install.py:750-859 | with the intended filesystem test, a path check raises exactly when `get_path` crashes on its value; as written, an unknown filesystem type where one is recommended raises too |
| `Checks.PathCheckForced` | bin/clxnode_install.py:754-859 | under --force a path check asks again only for a directory it may not create, or a file and directory mix-up or refused overwrite |
| `Checks.PathCheckCreates` | bin/clxnode_install.py:693-715 | a missing directory is created exactly when a referenced directory was just created, under --yes, or when the user agrees; otherwise the user is asked again |
| `Checks.BindOutcome` | bin/clxnode_install.py:1309-1325 | without --force, a protocol that cannot bind asks again for a configurable port and is fatal for a fixed one; with --force everything binds |
| `Checks.PortCheck` | bin/clxnode_install.py:1296-1325 | an invalid number asks again unless --force or the port is fixed; the port is never changed |
| `Checks.InterfaceCheck` | bin/clxnode_install.py:1218-1226 | fatal exactly when an address is required and is 0.0.0.0; raises exactly when an address is required and the value is no interface |
| `Checks.MemoryCheck` | bin/clxnode_install.py:1371-1400 | fatal exactly when the machine is below the minimum; the value changes only under --force, to the database minimum |
| `Checks.FreshMemoryAccepted` | bin/clxnode_install.py:1360-1400 | the default the memory option is built with passes its check |
| `Checks.MemoryClamp` | bin/clxnode_install.py:1385-1393 | a value below the minimum is asked again, or under --force raised to the minimum and accepted |
| `Checks.HugeTlbCheck` | bin/clxnode_install.py:1733-1740 | always accepts; the value changes only when HugeTLB was turned on where it is off by default, without --yes, and then becomes the answer |
| `Checks.Check` | bin/clxnode_install.py:495-505 | no check changes an option's name or settings, only its value and a path's record of a created directory, with either filesystem test |
| `Checks.CheckAsWrittenDiffers` | bin/clxnode_install.py:829-833 | the program's checks and the corrected ones differ only on a path that wants a filesystem type the machine does not report, where the program raises NameError |
| `Checks.FatalOnlyWhen` | bin/clxnode_install.py:1218-1400 | with either filesystem test, a check is fatal exactly for too little memory, a required address that is 0.0.0.0, or a fixed port that cannot bind without --force |
| `Checks.StoredInterfaceAccepted` | bin/clxnode_install.py:1204-1226 | an interface that `set_value` stored without --force passes its check |
| `Checks.PortTyped` | bin/clxnode_install.py:1271-1325 | a port typed as a number from 1 to 65535 is accepted when every protocol binds; outside that range it is asked again unless --force or fixed |
| `ConfigFiles.ReadLinesAppend` | bin/clxnode_install.py:306-311 | reading two runs of lines is reading the first, then the second |
| `ConfigFiles.ParseLine` | bin/clxnode_install.py:306-311 | a line and the text after it are read one after the other |
| `ConfigFiles.ParseEmpty` | bin/clxnode_install.py:306-311 | an empty file adds nothing |
| `ConfigFiles.CommentLine` | bin/clxnode_install.py:309 | a comment line adds nothing |
| `ConfigFiles.AssignmentRead` | bin/clxnode_install.py:308-311 | "name=value" sets the name to the stripped value, replacing any earlier one |
| `ConfigFiles.ConfigFile.constructor` | bin/clxnode_install.py:294-302 | a missing file gives no variables; an existing one is read; nothing is kept yet |
| `ConfigFiles.ConfigFile.LoadFromFile` | bin/clxnode_install.py:303-311 | the loop reads the file's lines over the variables already read, as `Parse` does, and leaves the kept variables alone |
| `ConfigFiles.ConfigFile.AddExtra` | bin/clxnode_install.py:312-318 | a name found in the file is kept with its text; anything else changes nothing |
| `ConfigFiles.ConfigFile.Write` | bin/clxnode_install.py:319-348 | the first option's error, or else, as the program runs, the AttributeError of `self.extra_options` when any variable is kept; otherwise (and always when corrected) the heading, the --force note, every option's lines and the kept variables |
| `ConfigFiles.ConfigFile.WriteOptions` | bin/clxnode_install.py:333-343 | the loop writes each option's two lines in order, or stops at the first error |
| `ConfigFiles.ConfigFile.WriteExtras` | bin/clxnode_install.py:344-348 | as the program runs, any kept variable raises AttributeError; corrected, kept variables get a heading and one "name=value" line each; none gives nothing either way |
| `ConfigFiles.EntryOf` | bin/clxnode_install.py:335-343 | an option's entry is its long description, commented out when at its default and not always written, its name and its `config_string` |
| `ConfigFiles.Entries` | bin/clxnode_install.py:333-343 | there is one entry per option |
| `ConfigFiles.EntriesSpec` | bin/clxnode_install.py:333-343 | each entry is that option's entry |
| `ConfigFiles.RenderAsWritten` | bin/clxnode_install.py:344-348 | as written, a write with any kept variable raises AttributeError; without one, the file is the intended one |
| `ConfigFiles.BlockRead` | bin/clxnode_install.py:341-343 | reading an option's two lines sets its name to its text exactly when it is not commented out |
| `ConfigFiles.BlocksRead` | bin/clxnode_install.py:333-343 | reading all options' lines gives the uncommented options' values |
| `ConfigFiles.PutAllSpec` | bin/clxnode_install.py:346-348 | putting the kept variables in any order gives each listed one its kept value |
| `ConfigFiles.PutAllCovers` | bin/clxnode_install.py:346-348 | listing every kept variable puts them all over what was read before |
| `ConfigFiles.ExtraLinesRead` | bin/clxnode_install.py:346-348 | reading the kept variables' lines gives back their values |
| `ConfigFiles.HeadingRead` | bin/clxnode_install.py:327-330 | the heading's lines are comments and a blank line, and read as nothing |
| `ConfigFiles.RoundTrip` | bin/clxnode_install.py:303-348 | reading the written file back gives the uncommented options' values and the kept variables, when every name and text fits on its line |
| `Registry.Find` | bin/clxnode_install.py:452-457 | the lookup finds the first option with the name, and None exactly when no option has it |
| `Registry.FindFirst` | bin/clxnode_install.py:452-457 | an index with the name and none before it is what the lookup finds |
| `Registry.PathOptions` | bin/clxnode_install.py:615-630 | `path_variables` holds every path option under its name, a later one replacing an earlier one |
| `Registry.InterfaceMap` | bin/clxnode_install.py:1164-1170 | `interfaces` holds only interface options' names, and the latest one's value |
| `Registry.InterfaceMapWithout` | bin/clxnode_install.py:1876-1877 | a name no interface option has, such as FRONTEND_ADDR, is not among the interfaces |
| `Registry.Registry.constructor` | bin/clxnode_install.py:417-422 | the registry starts empty and not loaded from a file |
| `Registry.Registry.Register` | bin/clxnode_install.py:436 | an option's constructor appends it to the registry |
| `Registry.Registry.GetVar` | bin/clxnode_install.py:452-457 | the scan finds what `Find` finds |
| `Registry.Registry.RegisterAll` | bin/clxnode_install.py:1848-1906 | constructors run in order append their options in order |
| `Registry.NodeMemory` | bin/clxnode_install.py:1848-1851 | NODE_MEMORY exists exactly when MemTotal is known and at least the system minimum for the redo space, and is then a fresh memory option over that MemTotal |
| `Registry.Registry.Declare` | bin/clxnode_install.py:1848-1906 | the declarations either stop the program for too little memory (redo space 1024, as no MAX_REDO precedes the memory option) leaving the registry empty, or leave exactly the 17 options of `Declarations` on the wildcard, starting with the memory option |
| `Registry.Declarations` | bin/clxnode_install.py:1848-1906 | the 17 declarations start with the memory option and are all fresh; MYSQL_PORT is bound to the wildcard, and BACKEND_PORT to BACKEND_ADDR's default |
| `Registry.Sizing` | bin/clxnode_install.py:1848-1856 | the memory option, then MAX_REDO as a plain option, then CPU_CORES as the cores option, all fresh |
| `Registry.MaxRedoOrderHarmless` | bin/clxnode_install.py:1335-1339 | NODE_MEMORY's look-up of MAX_REDO runs before MAX_REDO is declared; declared first, MAX_REDO would be read as its default, 1024, the same redo space as the fallback |
| `Registry.PathDefaults` | bin/clxnode_install.py:1859-1867 | the five path options in order, all fresh: DATA_PATH is /data/clustrix, a directory that wants the minimum free space and a recommended filesystem; LOG_PATH is $DATA_PATH/log; UI_LOGDIR is $LOG_PATH/clustrix_ui; UI_CACHEDIR is /var/cache/clustrix/django; UNIX_SOCKET_PATH is the file /var/lib/mysql/mysql.sock |
| `Registry.ListenAddr` | bin/clxnode_install.py:1870-1875 | LISTEN_ADDR defaults to the wildcard and needs no address |
| `Registry.MysqlPort` | bin/clxnode_install.py:1876-1879 | MYSQL_PORT is 3306/TCP, bound to whatever FRONTEND_ADDR names |
| `Registry.BackendAddr` | bin/clxnode_install.py:1880-1882 | BACKEND_ADDR defaults to the default route's interface and needs an address |
| `Registry.BackendPort` | bin/clxnode_install.py:1883-1885 | BACKEND_PORT is 24378/TCP+UDP, bound to BACKEND_ADDR |
| `Registry.HttpPort` | bin/clxnode_install.py:1886 | HTTP_PORT is 80/TCP on the wildcard, configurable |
| `Registry.NannyPort` | bin/clxnode_install.py:1887-1888 | NANNY_PORT is 2424/TCP on the wildcard, fixed |
| `Registry.ControlPort` | bin/clxnode_install.py:1889-1890 | CONTROL_PORT is 2048/TCP on the wildcard, fixed |
| `Registry.FrontEnd` | bin/clxnode_install.py:1876-1877 | when MYSQL_PORT is declared, FRONTEND_ADDR is not an interface option |
| `Registry.FrontEndNameHarmless` | bin/clxnode_install.py:1870-1877 | binding MYSQL_PORT through LISTEN_ADDR instead of the undeclared FRONTEND_ADDR gives the same wildcard, since the port takes the interface's value when it is built |
| `Registry.BackEnd` | bin/clxnode_install.py:1883-1885 | when BACKEND_PORT is declared, BACKEND_ADDR maps to its value |
| `Registry.FlagDeclarations` | bin/clxnode_install.py:1892-1906 | WRITE_HOSTS, then HUGE_TLB_ENABLE, both fresh |
| `Registry.Loaded` | bin/clxnode_install.py:1928-1935 | loading the file changes only options' values and `is_set` |
| `Registry.Visit` | bin/clxnode_install.py:1929-1935 | one file variable changes only an option's value and `is_set` |
| `Registry.FindRetouched` | bin/clxnode_install.py:1929 | lookups by name are not affected by changes of value |
| `Registry.LoadedUnknown` | bin/clxnode_install.py:1928-1934 | a variable is passed on as unknown exactly when it is in the file and no option has its name |
| `Registry.LoadedPrefixErr` | bin/clxnode_install.py:1935 | once `set_value` raises, loading raises that error |
| `Registry.LoadedOne` | bin/clxnode_install.py:1929-1935 | a known variable whose text is stored gets the value `set_value` makes of it |
| `Registry.Kept` | bin/clxnode_install.py:312-318 | the kept variables are the named ones found in the file, with the file's text |
| `Registry.Registry.LoadVariable` | bin/clxnode_install.py:1929-1935 | one pass of the load loop does what `Visit` says of the variable: an unknown one is handed to `add_extra` (by name, or as None) and the options are untouched; a known one gets its option's `set_value` outcome, stored, refused or raised; the file's variables stay as read |
| `Registry.Registry.LoadVariables` | bin/clxnode_install.py:1926-1936 | the load loop computes `Loaded` for any `set_value` passed in (`LoadConfig` passes the program's own), sets `loaded_from_file`, and keeps the unknown variables when they are passed by name |
| `Registry.Registry.LoadConfigAsWritten` | bin/clxnode_install.py:1926-1936 | as written, loading keeps no unknown variable |
| `Registry.Registry.LoadConfig` | bin/clxnode_install.py:1926-1936 | as intended, every file variable that no option has is kept with its text, and nothing else is added |
| `Registry.CheckedFrom` | bin/clxnode_install.py:2067-2073 | with either filesystem test, the check loop keeps every option's name and settings, stops only on a check that does not accept, and stops fatally only on memory, an interface, or a fixed port without --force |
| `Registry.Registry.CheckAll` | bin/clxnode_install.py:2067-2073 | the loop computes `CheckedFrom` from the first option, with the program's filesystem test when `asWritten` |
| `Registry.Args` | bin/clxnode_install.py:1937-1940 | at most one argument per option, each a "--" switch |
| `Registry.ArgsPrefixErr` | bin/clxnode_install.py:1939 | once an option's `mkarg` raises, printing raises that error |
| `Registry.ArgsPlain` | bin/clxnode_install.py:536-549 | with only named plain options, --print-config prints "--name=value" for every option, defaults included |
| `Registry.Registry.PrintConfig` | bin/clxnode_install.py:1937-1940 | the loop prints the arguments `Args` gives, joined by spaces |

## Left out

- I/O: reading files, `/proc`, `/sys` and the kernel (ioctl) are parameters.
  The devices and their addresses are a `System` value, the routing table is
  text, and MemTotal, the hypervisor, bind failures, path facts and the
  filesystem type are values.
- Prompts (`prompt`, `bool_prompt`, `text_prompt`): a check or `set_value`
  that would ask the user ends with the outcome `Reprompt`. The new answer is
  not modelled. Yes/no questions inside a check are answers in the `World`
  parameter.
- `ConfigSSHOption` (reading and writing `sshd_config`, `/etc/hosts`),
  `SysctlConfig`, package installation, NTP, service start-up and the
  licence: these run commands and edit system files. The sshd-trust check
  ends with the outcome `External`.
- The wizard menu and `ConfigOption.configured`. The check loop is the one
  that runs outside the wizard. The filesystem question's answer is returned
  in `Checked.configured`.
- optparse: `mkoptparse`, `mkhelp`, `prompt_str`, `human_value`,
  `all_strings` and `extra_help` are text for the user and are not modelled.
  `optcallback` is modelled.
- Floating point: MemTotal is kept in kB. `memtotal < X` in MiB is compared
  exactly as `kB < X * 1024`, and the default is rounded down to whole MiB.
  The free-space test is a boolean in the `World` parameter.
- Dictionary iteration order: `current_config` and `extra_config` are maps,
  and the order in which `main` and `write` visit them is an `order`
  parameter listing every key once.
- `os.path.normpath`, `realpath` and `ismount` are left out. `abspath` joins
  a relative path onto the working directory without normalising it.
  `expanduser` takes other users' homes from a map.
- The interface cache (`ifcache`) is left out. Every lookup of a name asks
  the `System` value, which always gives the same answer.
- Identity: two `Interface` objects with the same fields are one value here.
  Python's `!=` on distinct but equal interfaces is therefore not modelled.
- Python's recursion limit is the constant depth 1000, passed as a `depth`
  argument to `get_path`.
- A path option whose value is not a string (only possible after a
  non-string `set_value`) is treated as unresolvable by `PathMap`.
- Registry.Args: it states only that each argument is a "--" switch and that
  there is at most one per option. The exact text per option kind is stated by
  `ArgsPlain` and by `Options.MkArgFlag` and `Options.MkArgPlain`.
- Interfaces.NewInterface: it asks the routing table for the mask through the
  function `MaskForAsWritten`. A route with a negative mask, on which
  `IP.__len__` as written never returns, gets the function's answer instead of
  a hang; a mask read from the routing table is never negative.
- Text.ParseInt: the long form `int("12L")`, which Python 2 accepts only for
  numbers too large for a machine int, is not modelled.
- The unhappy paths of `main` between loading and checking (root check,
  version checks, RPM installation) are not part of this model.

## Findings

| source | as written | input that shows it | evidently intended | confidence | as-written member | corrected member |
|---|---|---|---|---|---|---|
| bin/clxnode_install.py:1929-1933 | a variable no option knows is passed to `add_extra` as the failed lookup's None, which is never a key, so it is dropped; and `write` reads `self.extra_options`, which does not exist (line 346) | a file holding `FOO=1` with no FOO option | the variable's name is passed, it is kept, and `write` writes it back under "# Extra Config Variables:" | high, not executed | `Registry.Registry.LoadConfigAsWritten`, `ConfigFiles.RenderAsWritten`, `ConfigFiles.ConfigFile.WriteExtras` | `Registry.Registry.LoadConfig`, `ConfigFiles.RoundTrip` |
| bin/clxnode_install.py:897-905 | `IP.__len__` counts the one bits in `x` but returns `a`, which the loop has driven to 0, so `route.mask > mask` is never true and `mask_for_interface` keeps the first non-zero mask | routes 10.0.0.0/8 then 10.1.0.0/16 for device eth0 and address 10.1.2.3 | the longest applicable prefix wins | high, not executed | `Address.LenAsWritten`, `Routes.MaskAsWrittenSpec`, `Interfaces.NamedInterface` | `Address.Specificity`, `Routes.MostSpecificMaskSpec`, `Routes.MaskForInterface` |
| bin/clxnode_install.py:639-651 | a nested `get_path` that gives None (an unknown name one level down) or hits the recursion limit hands None to `str.replace`, which raises TypeError; only RuntimeError is caught | DATA_PATH set to `$NOPE/data`, so that UI_LOGDIR → LOG_PATH → DATA_PATH fails | an unresolvable reference at any depth gives None, as the docstring says | high, not executed | `Paths.NestedUnknownReference`, `Paths.SelfReferenceCrashes` | `Paths.ResolveFixedAgrees` |
| bin/clxnode_install.py:829-833 | when the filesystem type cannot be found, the message names `path`, which `check` never defines: NameError | DATA_PATH on a mount point missing from /proc/mounts | print the message and treat the type as not recommended | high, not executed | `Checks.FsCheckAsWritten`, `Checks.CheckAsWrittenDiffers` | `Checks.FsCheck`, `Checks.FsCheckAgrees` |
