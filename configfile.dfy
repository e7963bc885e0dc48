/**
 * clxnode.conf: reading the variables it defines, keeping the ones no
 * option knows, and writing the options back with a comment above each
 * and the defaults commented out.
 */
module ConfigFiles {
  import opened Wrappers
  import opened Text
  import opened RunFlags
  import opened Options

  /** Variables written uncommented even at their default. */
  const AlwaysWrite: seq<string> := ["BACKEND_ADDR", "UI_LOGDIR"]

  // ----------------------------------------------------------------- reading

  /**
   * One line of the file: stripped, skipped when it has no '=' or starts
   * with '#', otherwise split at the first '=' into a stripped name and a
   * stripped value that replaces any earlier one.
   */
  function ReadLine(m: map<string, string>, line: string): map<string, string>
  {
    var t := Strip(line);
    if '=' !in t || t[0] == '#' then m
    else
      var i := IndexOf(t, '=');
      m[Strip(t[..i]) := Strip(t[i + 1..])]
  }

  /** The lines read one after the other. */
  function ReadLines(m: map<string, string>, lines: seq<string>): map<string, string>
  {
    if lines == [] then m
    else ReadLine(ReadLines(m, lines[..|lines| - 1]), lines[|lines| - 1])
  }

  /** Reading one more line of `lines`. */
  lemma ReadLinesSnoc(m: map<string, string>, lines: seq<string>, i: nat)
    requires i < |lines|
    ensures ReadLines(m, lines[..i + 1]) == ReadLine(ReadLines(m, lines[..i]), lines[i])
  {
    assert lines[..i + 1][..i] == lines[..i];
  }

  /** One more line read, with the assignment it makes, if any, applied to what came before. */
  lemma ReadLinesStep(m: map<string, string>, lines: seq<string>, i: nat, before: map<string, string>, after: map<string, string>)
    requires i < |lines| && before == ReadLines(m, lines[..i])
    requires var t := Strip(lines[i]);
      after == if '=' in t && t[0] != '#' then before[Strip(t[..IndexOf(t, '=')]) := Strip(t[IndexOf(t, '=') + 1..])] else before
    ensures after == ReadLines(m, lines[..i + 1])
  {
    ReadLinesSnoc(m, lines, i);
  }

  /** The file's text read line by line into `m`. */
  function Parse(m: map<string, string>, text: string): map<string, string>
  {
    ReadLines(m, Split(text, '\n'))
  }

  /**
   * A name the reader gives back as it is: no newline and no '=', not
   * starting with '#', and no whitespace at either end.
   */
  predicate WellFormedKey(k: string)
  {
    '\n' !in k && '=' !in k &&
    (|k| > 0 ==> k[0] != '#' && !IsSpace(k[0]) && !IsSpace(k[|k| - 1]))
  }

  /** A value the reader gives back as it is: no newline and no whitespace at either end. */
  predicate WellFormedValue(v: string)
  {
    '\n' !in v && (|v| > 0 ==> !IsSpace(v[0]) && !IsSpace(v[|v| - 1]))
  }

  /** Every name and value in `m` reads back as it is. */
  predicate WellFormed(m: map<string, string>)
  {
    forall k | k in m :: WellFormedKey(k) && WellFormedValue(m[k])
  }

  /** `order` names every key of `extra` exactly once, as a walk over the dict does. */
  ghost predicate ListsOnce(order: seq<string>, extra: map<string, string>)
  {
    (forall k :: k in order <==> k in extra) &&
    forall i, j | 0 <= i < j < |order| :: order[i] != order[j]
  }

  lemma {:induction false} ReadLinesAppend(m: map<string, string>, a: seq<string>, b: seq<string>)
    ensures ReadLines(m, a + b) == ReadLines(ReadLines(m, a), b)
    decreases |b|
  {
    if b == [] {
      assert a + b == a;
    } else {
      ReadLinesAppend(m, a, b[..|b| - 1]);
      assert (a + b)[..|a + b| - 1] == a + b[..|b| - 1];
    }
  }

  /** A line without a newline is read on its own, then the rest. */
  lemma ParseLine(m: map<string, string>, line: string, rest: string)
    requires '\n' !in line
    ensures Parse(m, line + "\n" + rest) == Parse(ReadLine(m, line), rest)
  {
    SplitAppend(line, rest, '\n');
    SplitSingle(line, '\n');
    ReadLinesAppend(m, [line], Split(rest, '\n'));
    assert [line][..0] == [];
  }

  /** An empty text, like an empty line, adds nothing. */
  lemma ParseEmpty(m: map<string, string>)
    ensures Parse(m, "") == m
  {
    assert Split("", '\n') == [""];
    assert [""][..0] == [];
    assert ReadLines(m, [""]) == ReadLine(ReadLines(m, []), "");
    assert Strip("") == "";
  }

  /** A comment line adds nothing. */
  lemma CommentLine(m: map<string, string>, line: string)
    requires |line| > 0 && line[0] == '#'
    ensures ReadLine(m, line) == m
  {
    StripKeepsHead(line);
  }

  /** "name=value" sets the name to the stripped value. */
  lemma AssignmentRead(m: map<string, string>, k: string, v: string)
    requires WellFormedKey(k)
    ensures ReadLine(m, k + "=" + v) == m[k := Strip(v)]
  {
    var line := k + "=" + v;
    var kq := k + "=";
    assert line == kq + v;
    StripRightAppend(kq, v);
    var t := kq + StripRight(v);
    assert StripRight(line) == t;
    assert t[0] == (if |k| > 0 then k[0] else '=');
    assert StripLeft(t) == t;
    assert Strip(line) == t;
    assert t[|k|] == '=';
    assert t[..|k|] == k;
    IndexOfAt(t, '=', |k|);
    assert t[..|k|] == k;
    StripUnchanged(k);
    assert t[|k| + 1..] == StripRight(v);
    StripRightIdempotent(v);
  }

  // ------------------------------------------------------------------- class

  /** The config file's variables as read, and the ones kept for no option. */
  class ConfigFile {
    var current: map<string, string>
    var extra: map<string, string>

    /** `ConfigFile()`: reads the file when it exists (its text, if any, is `text`). */
    constructor(text: Option<string>)
      ensures current == (if text.Some? then Parse(map[], text.value) else map[])
      ensures extra == map[]
    {
      current := map[];
      extra := map[];
      new;
      if text.Some? {
        LoadFromFile(text.value);
      }
    }

    /** `load_from_file`: every assignment in the text, later lines winning. */
    method LoadFromFile(text: string)
      modifies this
      ensures current == Parse(old(current), text)
      ensures extra == old(extra)
    {
      var lines := Split(text, '\n');
      var i := 0;
      while i < |lines|
        invariant 0 <= i <= |lines|
        invariant current == ReadLines(old(current), lines[..i])
        invariant extra == old(extra)
      {
        ghost var before := current;
        var line := Strip(lines[i]);
        if '=' in line && line[0] != '#' {
          var j := IndexOf(line, '=');
          current := current[Strip(line[..j]) := Strip(line[j + 1..])];
        }
        ReadLinesStep(old(current), lines, i, before, current);
        ghost var prefix := lines[..i + 1];
        i := i + 1;
        assert lines[..i] == prefix;
      }
      assert lines[..i] == lines;
    }

    /**
     * `add_extra`: keeps a variable of the file for writing back; a name
     * the file does not have (None included) is reported and ignored.
     */
    method AddExtra(name: Option<string>)
      modifies this
      ensures current == old(current)
      ensures name.Some? && name.value in current ==> extra == old(extra)[name.value := current[name.value]]
      ensures !(name.Some? && name.value in current) ==> extra == old(extra)
    {
      if name.Some? && name.value in current {
        extra := extra[name.value := current[name.value]];
      }
    }

    /**
     * `write`: the text of the new file.  `order` is the order in which
     * the kept variables come out of their dictionary.  An option whose
     * `is_default` or `config_string` raises stops the write.  With
     * `asWritten`, as the program runs, any kept variable makes the write
     * raise (`RenderAsWritten`); otherwise they are written back (`Render`).
     */
    method Write(options: seq<ConfigOption>, mode: RunMode, date: string, paths: map<string, string>, order: seq<string>, asWritten: bool)
      returns (r: Result<string>)
      requires ListsOnce(order, extra)
      ensures Entries(options, paths).Err? ==> r == Err(Entries(options, paths).error)
      ensures Entries(options, paths).Ok? && asWritten ==> r == RenderAsWritten(date, mode.force, Entries(options, paths).value, extra)
      ensures Entries(options, paths).Ok? && !asWritten ==> r == Ok(Render(date, mode.force, Entries(options, paths).value, extra, order))
    {
      var head := Heading(date) + (if mode.force then ForceNote else "");
      var body := WriteOptions(options, paths);
      if body.Err? {
        return Err(body.error);
      }
      var tail := WriteExtras(order, asWritten);
      if tail.Err? {
        return Err(tail.error);
      }
      r := Ok(head + body.value + tail.value);
    }

    /** The options' lines, one option after the other. */
    method WriteOptions(options: seq<ConfigOption>, paths: map<string, string>) returns (r: Result<string>)
      ensures Entries(options, paths).Err? ==> r == Err(Entries(options, paths).error)
      ensures Entries(options, paths).Ok? ==> r == Ok(Blocks(Entries(options, paths).value))
    {
      var text := "";
      var es: seq<Entry> := [];
      var i := 0;
      while i < |options|
        invariant 0 <= i <= |options|
        invariant Entries(options[..i], paths) == Ok(es)
        invariant text == Blocks(es)
      {
        var e := EntryOf(options[i], paths);
        WriteStep(options, paths, i, es, text, e);
        if e.Err? {
          return Err(e.error);
        }
        es, text, i := es + [e.value], text + Block(e.value), i + 1;
      }
      assert options[..i] == options;
      r := Ok(text);
    }

    /**
     * The kept variables under their heading, or nothing when there are
     * none.  As written, the loop reads a missing attribute and raises.
     */
    method WriteExtras(order: seq<string>, asWritten: bool) returns (r: Result<string>)
      requires ListsOnce(order, extra)
      ensures asWritten && |extra| > 0 ==> r == Err(NoExtraOptions)
      ensures !(asWritten && |extra| > 0) ==> r == Ok(if |extra| > 0 then ExtraHeading + ExtraLines(extra, order) else "")
    {
      var tail := "";
      if |extra| > 0 {
        if asWritten {
          return Err(NoExtraOptions);
        }
        tail := ExtraHeading;
        var j := 0;
        while j < |order|
          invariant 0 <= j <= |order|
          invariant tail == ExtraHeading + ExtraLines(extra, order[..j])
        {
          assert order[..j + 1][..j] == order[..j];
          tail := tail + order[j] + "=" + extra[order[j]] + "\n";
          j := j + 1;
        }
        assert order[..j] == order;
      }
      r := Ok(tail);
    }
  }

  // ----------------------------------------------------------------- writing

  /** What is written for one option. */
  datatype Entry = Entry(description: string, commented: bool, name: string, text: string)

  /**
   * An option's entry: its long description, commented out when it is at
   * its default and not one of the variables always written, and its
   * `config_string`.
   */
  function EntryOf(o: ConfigOption, paths: map<string, string>): (r: Result<Entry>)
    ensures r.Ok? <==> IsDefault(o).Ok? && ConfigString(o, paths).Ok?
    ensures r.Ok? ==> r.value == Entry(o.longDescription, IsDefault(o).value && o.name !in AlwaysWrite, o.name, ConfigString(o, paths).value)
  {
    var atDefault :- IsDefault(o);
    var text :- ConfigString(o, paths);
    Ok(Entry(o.longDescription, atDefault && o.name !in AlwaysWrite, o.name, text))
  }

  /** The options' entries in order, or the first error. */
  function Entries(options: seq<ConfigOption>, paths: map<string, string>): (r: Result<seq<Entry>>)
    ensures r.Ok? ==> |r.value| == |options|
  {
    if options == [] then Ok([])
    else
      var init :- Entries(options[..|options| - 1], paths);
      var e :- EntryOf(options[|options| - 1], paths);
      Ok(init + [e])
  }

  /** One more option: its entry's error, or its entry appended. */
  lemma EntriesStep(options: seq<ConfigOption>, paths: map<string, string>, i: nat, es: seq<Entry>)
    requires i < |options| && Entries(options[..i], paths) == Ok(es)
    ensures var e := EntryOf(options[i], paths);
      Entries(options[..i + 1], paths) == if e.Err? then Err(e.error) else Ok(es + [e.value])
  {
    assert options[..i + 1][..i] == options[..i];
  }

  /** One option more written: its block is appended, or its error is the write's. */
  lemma WriteStep(options: seq<ConfigOption>, paths: map<string, string>, i: nat, es: seq<Entry>, text: string,
                  e: Result<Entry>)
    requires i < |options| && Entries(options[..i], paths) == Ok(es) && text == Blocks(es)
    requires e == EntryOf(options[i], paths)
    ensures e.Err? ==> Entries(options, paths) == Err(e.error)
    ensures e.Ok? ==> Entries(options[..i + 1], paths) == Ok(es + [e.value]) && text + Block(e.value) == Blocks(es + [e.value])
  {
    EntriesStep(options, paths, i, es);
    if e.Err? {
      EntriesPrefixErr(options, paths, i + 1);
    } else {
      BlocksSnoc(es, e.value);
    }
  }

  /** A failing prefix fails the whole list with the same error. */
  lemma {:induction false} EntriesPrefixErr(options: seq<ConfigOption>, paths: map<string, string>, i: nat)
    requires i <= |options| && Entries(options[..i], paths).Err?
    ensures Entries(options, paths) == Entries(options[..i], paths)
    decreases |options| - i
  {
    if i < |options| {
      assert options[..i + 1][..i] == options[..i];
      EntriesPrefixErr(options, paths, i + 1);
    } else {
      assert options[..i] == options;
    }
  }

  /** Each entry succeeds, and gives the option's description, name and config string. */
  lemma {:induction false} EntriesSpec(options: seq<ConfigOption>, paths: map<string, string>, i: nat)
    requires Entries(options, paths).Ok? && i < |options|
    ensures EntryOf(options[i], paths) == Ok(Entries(options, paths).value[i])
    decreases |options|
  {
    if i < |options| - 1 {
      EntriesSpec(options[..|options| - 1], paths, i);
    }
  }

  const Title: string := "# ClustrixDB config file"
  const Rule: string := "# File must be valid Bash " + "with comment, blank lines " + "and varible definitions only."
  const Stamp: string := "# Config File Generated at: "

  /** The lines every file starts with: a title, a rule, a blank line and the time of writing. */
  function Heading(date: string): string
  {
    Title + "\n" + Rule + "\n" + "\n" + Stamp + date + "\n"
  }

  /** Written under --force, without a newline. */
  const ForceNote: string := "# This file generated with --force"

  /** The comment line above the kept variables. */
  const ExtraTitle: string := "# Extra Config Variables:"

  const ExtraHeading: string := ExtraTitle + "\n"

  /** The comment line above an option. */
  function DescriptionLine(e: Entry): string
  {
    "# " + e.description + ":"
  }

  /** The option's assignment, with a '#' in front when commented out. */
  function AssignmentLine(e: Entry): string
  {
    (if e.commented then "#" else "") + e.name + "=" + e.text
  }

  /** The two lines written for an option. */
  function Block(e: Entry): string
  {
    DescriptionLine(e) + "\n" + (AssignmentLine(e) + "\n")
  }

  function Blocks(es: seq<Entry>): string
  {
    if es == [] then "" else Block(es[0]) + Blocks(es[1..])
  }

  lemma {:induction false} BlocksSnoc(es: seq<Entry>, e: Entry)
    ensures Blocks(es + [e]) == Blocks(es) + Block(e)
  {
    if es != [] {
      assert (es + [e])[1..] == es[1..] + [e];
      BlocksSnoc(es[1..], e);
    }
  }

  /** "name=value" lines for the kept variables, in `order`. */
  function ExtraLines(extra: map<string, string>, order: seq<string>): string
    requires forall k | k in order :: k in extra
  {
    if order == [] then ""
    else ExtraLines(extra, order[..|order| - 1]) + order[|order| - 1] + "=" + extra[order[|order| - 1]] + "\n"
  }

  /** The whole file, with the kept variables written back. */
  function Render(date: string, force: bool, es: seq<Entry>, extra: map<string, string>, order: seq<string>): string
    requires forall k | k in order :: k in extra
  {
    Heading(date) + (if force then ForceNote else "") + Blocks(es) +
    (if |extra| > 0 then ExtraHeading + ExtraLines(extra, order) else "")
  }

  /** The error of reading `self.extra_options`, which `ConfigFile` never sets. */
  const NoExtraOptions := "AttributeError: 'ConfigFile' object has no attribute 'extra_options'"

  /**
   * The file as written: the kept variables are read from an attribute
   * that does not exist, so a write with any kept variable raises
   * AttributeError after the options are out.
   */
  function RenderAsWritten(date: string, force: bool, es: seq<Entry>, extra: map<string, string>): (r: Result<string>)
    ensures |extra| > 0 <==> r.Err?
    ensures r.Ok? ==> r.value == Render(date, force, es, map[], [])
  {
    if |extra| > 0 then Err(NoExtraOptions)
    else Ok(Render(date, force, es, map[], []))
  }

  // -------------------------------------------------------------- round trip

  /** What reading the written options gives: each uncommented one's name and stripped text. */
  function Assigned(m: map<string, string>, es: seq<Entry>): map<string, string>
  {
    if es == [] then m
    else
      var e := es[|es| - 1];
      var init := Assigned(m, es[..|es| - 1]);
      if e.commented then init else init[e.name := Strip(e.text)]
  }

  /** An entry the reader can take back: one-line description, well-formed name, one-line text. */
  predicate Writable(e: Entry)
  {
    '\n' !in e.description && WellFormedKey(e.name) && '\n' !in e.text
  }

  /** A fragment a comment line may start with: nothing, or a '#' and no newline. */
  predicate CommentStart(pre: string)
  {
    pre == "" || (pre[0] == '#' && '\n' !in pre)
  }

  /** One option's two lines: a comment, then the assignment unless commented out. */
  lemma BlockRead(m: map<string, string>, pre: string, e: Entry, rest: string)
    requires CommentStart(pre) && Writable(e)
    ensures Parse(m, pre + Block(e) + rest) == Parse(if e.commented then m else m[e.name := Strip(e.text)], rest)
  {
    var first := pre + DescriptionLine(e);
    var second := AssignmentLine(e);
    TwoLines(pre, DescriptionLine(e), second, rest);
    assert first[0] == '#';
    ParseLine(m, first, second + "\n" + rest);
    CommentLine(m, first);
    ParseLine(m, second, rest);
    if e.commented {
      CommentLine(m, second);
    } else {
      assert second == e.name + "=" + e.text;
      AssignmentRead(m, e.name, e.text);
    }
  }

  lemma Assoc(x: string, y: string, z: string)
    ensures x + y + z == x + (y + z)
  {
  }

  /** Regrouping two lines between a prefix and the rest. */
  lemma TwoLines(pre: string, a: string, b: string, rest: string)
    ensures pre + (a + "\n" + (b + "\n")) + rest == (pre + a) + "\n" + (b + "\n" + rest)
  {
  }

  /** The options' lines, read one after the other. */
  lemma {:induction false} BlocksRead(m: map<string, string>, pre: string, es: seq<Entry>, rest: string)
    requires CommentStart(pre)
    requires forall i | 0 <= i < |es| :: Writable(es[i])
    ensures Parse(m, pre + Blocks(es) + rest) == Parse(Assigned(m, es), (if es == [] then pre else "") + rest)
    decreases |es|
  {
    if es != [] {
      var init, e := es[..|es| - 1], es[|es| - 1];
      BlocksRead(m, pre, init, Block(e) + rest);
      BlocksReadLast(m, pre, es, rest);
      assert "" + rest == rest;
    } else {
      assert pre + Blocks(es) + rest == pre + rest;
    }
  }

  /** The last option's lines, read after those before it. */
  lemma BlocksReadLast(m: map<string, string>, pre: string, es: seq<Entry>, rest: string)
    requires es != [] && CommentStart(pre) && Writable(es[|es| - 1])
    requires var init := es[..|es| - 1];
      Parse(m, pre + Blocks(init) + (Block(es[|es| - 1]) + rest)) ==
      Parse(Assigned(m, init), (if init == [] then pre else "") + (Block(es[|es| - 1]) + rest))
    ensures Parse(m, pre + Blocks(es) + rest) == Parse(Assigned(m, es), rest)
  {
    var init, e := es[..|es| - 1], es[|es| - 1];
    var pre' := if init == [] then pre else "";
    var before := Assigned(m, init);
    BlocksLastText(pre, es, rest);
    Assoc(pre', Block(e), rest);
    BlockRead(before, pre', e, rest);
  }

  /** The last block split off the text, in front of what follows. */
  lemma BlocksLastText(pre: string, es: seq<Entry>, rest: string)
    requires es != []
    ensures pre + Blocks(es) + rest == pre + Blocks(es[..|es| - 1]) + (Block(es[|es| - 1]) + rest)
  {
    var init, e := es[..|es| - 1], es[|es| - 1];
    assert es == init + [e];
    BlocksSnoc(init, e);
    Assoc(pre, Blocks(init), Block(e));
    Assoc(pre + Blocks(init), Block(e), rest);
  }

  /** The kept variables put into `m` in `order`. */
  function PutAll(m: map<string, string>, extra: map<string, string>, order: seq<string>): map<string, string>
    requires forall k | k in order :: k in extra
  {
    if order == [] then m
    else PutAll(m, extra, order[..|order| - 1])[order[|order| - 1] := extra[order[|order| - 1]]]
  }

  /** Putting the variables in any order gives each listed one its kept value. */
  lemma {:induction false} PutAllSpec(m: map<string, string>, extra: map<string, string>, order: seq<string>, j: string)
    requires forall k | k in order :: k in extra
    ensures j in PutAll(m, extra, order) <==> j in m || j in order
    ensures j in PutAll(m, extra, order) ==> PutAll(m, extra, order)[j] == if j in order then extra[j] else m[j]
    decreases |order|
  {
    if order != [] {
      var init := order[..|order| - 1];
      assert order == init + [order[|order| - 1]];
      PutAllSpec(m, extra, init, j);
    }
  }

  /** Listing every kept variable puts them all over `m`. */
  lemma PutAllCovers(m: map<string, string>, extra: map<string, string>, order: seq<string>)
    requires forall k :: k in order <==> k in extra
    ensures PutAll(m, extra, order) == m + extra
  {
    forall j
      ensures j in PutAll(m, extra, order) <==> j in m + extra
      ensures j in PutAll(m, extra, order) ==> PutAll(m, extra, order)[j] == (m + extra)[j]
    {
      PutAllSpec(m, extra, order, j);
    }
  }

  /** The kept variables' lines, read one after the other. */
  lemma {:induction false} ExtraLinesRead(m: map<string, string>, extra: map<string, string>, order: seq<string>, rest: string)
    requires forall k | k in order :: k in extra && WellFormedKey(k) && WellFormedValue(extra[k])
    ensures Parse(m, ExtraLines(extra, order) + rest) == Parse(PutAll(m, extra, order), rest)
    decreases |order|
  {
    if order == [] {
      assert "" + rest == rest;
    } else {
      var init, k := order[..|order| - 1], order[|order| - 1];
      var line := k + "=" + extra[k];
      assert ExtraLines(extra, order) + rest == ExtraLines(extra, init) + (line + "\n" + rest);
      ExtraLinesRead(m, extra, init, line + "\n" + rest);
      var m' := PutAll(m, extra, init);
      assert '\n' !in line by {
        assert forall i | 0 <= i < |line| :: line[i] == '=' || line[i] in k || line[i] in extra[k];
      }
      ParseLine(m', line, rest);
      AssignmentRead(m', k, extra[k]);
      StripUnchanged(extra[k]);
    }
  }

  /** The heading's text regrouped line by line. */
  lemma HeadingLines(date: string, rest: string)
    ensures Heading(date) + rest == Title + "\n" + (Rule + "\n" + ("" + "\n" + ((Stamp + date) + "\n" + rest)))
  {
  }

  /** A comment line and the newline after it change nothing. */
  lemma CommentLineRead(m: map<string, string>, line: string, rest: string)
    requires line != "" && CommentStart(line)
    ensures Parse(m, line + "\n" + rest) == Parse(m, rest)
  {
    ParseLine(m, line, rest);
    CommentLine(m, line);
  }

  /** The heading's fixed lines are comments. */
  lemma HeadingComments(date: string)
    requires '\n' !in date
    ensures Title != "" && CommentStart(Title)
    ensures Rule != "" && CommentStart(Rule)
    ensures Stamp + date != "" && CommentStart(Stamp + date)
  {
    TitleComment();
    RuleComment();
    StampComment();
    assert (Stamp + date)[0] == '#';
  }

  lemma TitleComment()
    ensures Title[0] == '#' && '\n' !in Title
  {
  }

  lemma RuleComment()
    ensures Rule[0] == '#' && '\n' !in Rule
  {
    assert '\n' !in "# File must be valid Bash ";
    assert '\n' !in "with comment, blank lines ";
    assert '\n' !in "and varible definitions only.";
  }

  lemma StampComment()
    ensures Stamp[0] == '#' && '\n' !in Stamp
  {
  }

  /** The heading's lines are comments and a blank line. */
  lemma HeadingRead(m: map<string, string>, date: string, rest: string)
    requires '\n' !in date
    ensures Parse(m, Heading(date) + rest) == Parse(m, rest)
  {
    HeadingComments(date);
    var l4 := Stamp + date;
    HeadingLines(date, rest);
    CommentLineRead(m, Title, Rule + "\n" + ("" + "\n" + (l4 + "\n" + rest)));
    CommentLineRead(m, Rule, "" + "\n" + (l4 + "\n" + rest));
    ParseLine(m, "", l4 + "\n" + rest);
    assert Strip("") == "";
    CommentLineRead(m, l4, rest);
  }

  /**
   * Reading the written file back gives the uncommented options' values
   * and the kept variables, provided every name and text fits on its line.
   */
  lemma RoundTrip(date: string, force: bool, es: seq<Entry>, extra: map<string, string>, order: seq<string>)
    requires '\n' !in date
    requires forall i | 0 <= i < |es| :: Writable(es[i])
    requires WellFormed(extra)
    requires ListsOnce(order, extra)
    ensures Parse(map[], Render(date, force, es, extra, order)) == Assigned(map[], es) + extra
  {
    var note := if force then ForceNote else "";
    var tail := if |extra| > 0 then ExtraHeading + ExtraLines(extra, order) else "";
    ForceNoteComment();
    RenderLayout(date, force, es, extra, order);
    HeadingRead(map[], date, note + Blocks(es) + tail);
    BlocksRead(map[], note, es, tail);
    var m := Assigned(map[], es);
    var pre := if es == [] then note else "";
    if |extra| > 0 {
      ExtraTail(m, pre, extra, order);
    } else {
      NoExtraTail(m, pre, extra);
    }
  }

  lemma ForceNoteComment()
    ensures CommentStart(ForceNote)
  {
    assert ForceNote[0] == '#' && '\n' !in ForceNote;
  }

  /** The file is its heading, the note, the options and the kept variables. */
  lemma RenderLayout(date: string, force: bool, es: seq<Entry>, extra: map<string, string>, order: seq<string>)
    requires forall k | k in order :: k in extra
    ensures Render(date, force, es, extra, order) ==
      Heading(date) + ((if force then ForceNote else "") + Blocks(es) + (if |extra| > 0 then ExtraHeading + ExtraLines(extra, order) else ""))
  {
    var note := if force then ForceNote else "";
    var tail := if |extra| > 0 then ExtraHeading + ExtraLines(extra, order) else "";
    Assoc(Heading(date) + note, Blocks(es), tail);
    Assoc(Heading(date), note, Blocks(es) + tail);
    Assoc(note, Blocks(es), tail);
  }

  lemma TitleIsComment()
    ensures ExtraTitle[0] == '#' && '\n' !in ExtraTitle
  {
  }

  lemma Regroup(pre: string, title: string, lines: string)
    ensures pre + ((title + "\n") + lines) == (pre + title) + "\n" + (lines + "")
  {
    assert lines + "" == lines;
  }

  /** Without kept variables, the file ends after a comment fragment. */
  lemma NoExtraTail(m: map<string, string>, pre: string, extra: map<string, string>)
    requires CommentStart(pre) && |extra| == 0
    ensures Parse(m, pre + "") == m + extra
  {
    assert pre + "" == pre;
    SplitSingle(pre, '\n');
    assert [pre][..0] == [];
    assert ReadLines(m, [pre]) == ReadLine(ReadLines(m, []), pre);
    if pre != "" {
      CommentLine(m, pre);
    } else {
      assert Strip("") == "";
    }
    assert extra == map[];
    assert m + extra == m;
  }

  /** The kept variables' heading and lines, after a comment fragment. */
  lemma ExtraTail(m: map<string, string>, pre: string, extra: map<string, string>, order: seq<string>)
    requires CommentStart(pre) && WellFormed(extra) && |extra| > 0
    requires ListsOnce(order, extra)
    ensures Parse(m, pre + (ExtraHeading + ExtraLines(extra, order))) == m + extra
  {
    var first := pre + ExtraTitle;
    var rest := ExtraLines(extra, order) + "";
    assert first != "" && CommentStart(first) by {
      TitleIsComment();
      assert first[0] == if pre == "" then ExtraTitle[0] else pre[0];
    }
    Regroup(pre, ExtraTitle, ExtraLines(extra, order));
    CommentLineRead(m, first, rest);
    ExtraLinesRead(m, extra, order, "");
    ParseEmpty(PutAll(m, extra, order));
    PutAllCovers(m, extra, order);
  }
}
