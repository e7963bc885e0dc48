/**
 * The dynamically typed values the installer keeps in its options, with
 * Python 2's equality, truth and `str()` on them, and the two wording
 * helpers `bool_to_english` and `grammar_list`.
 */
module Values {
  import opened Wrappers
  import opened Text
  import opened Address
  import opened Interfaces

  /** An option's value: None, an int, a string, a bool or an `Interface`. */
  datatype Value = Null | Int(i: int) | Str(s: string) | Bool(b: bool) | Iface(iface: Interface)

  /** Bools are ints in Python 2: True is 1 and False is 0. */
  predicate Numeric(v: Value)
  {
    v.Int? || v.Bool?
  }

  function AsInt(v: Value): int
    requires Numeric(v)
  {
    if v.Int? then v.i else if v.b then 1 else 0
  }

  /**
   * `a == b`.  `Interface.__eq__` compares names and reads `other.name`,
   * which raises AttributeError when the other side is not an interface;
   * numbers compare by value; values of different kinds are unequal.
   */
  function Equals(a: Value, b: Value): Result<bool>
  {
    if a.Iface? && b.Iface? then Ok(a.iface.name == b.iface.name)
    else if a.Iface? || b.Iface? then Err("AttributeError: object has no attribute 'name'")
    else if Numeric(a) && Numeric(b) then Ok(AsInt(a) == AsInt(b))
    else Ok(a == b)
  }

  /**
   * Equality is reflexive and symmetric, and raises only when exactly one
   * side is an interface.
   */
  lemma EqualsProperties(a: Value, b: Value)
    ensures Equals(a, a) == Ok(true)
    ensures Equals(a, b) == Equals(b, a)
    ensures Equals(a, b).Err? <==> (a.Iface? != b.Iface?)
  {
  }

  /**
   * `a != b`.  `Interface` defines no `__ne__`, so two interfaces differ
   * unless they are the same object; the model takes equal values for the
   * same object.
   */
  predicate Differs(a: Value, b: Value)
  {
    if Numeric(a) && Numeric(b) then AsInt(a) != AsInt(b) else a != b
  }

  /** Away from interfaces, `!=` is the negation of `==`. */
  lemma DiffersNegatesEquals(a: Value, b: Value)
    requires !a.Iface? && !b.Iface?
    ensures Equals(a, b).Ok?
    ensures Differs(a, b) <==> !Equals(a, b).value
  {
  }

  /** `bool(v)`: an interface is true when it is external. */
  predicate Truthy(v: Value)
  {
    match v
    case Null => false
    case Int(i) => i != 0
    case Str(s) => s != ""
    case Bool(b) => b
    case Iface(i) => IsExternal(i)
  }

  /** `str(interface)`: "addr/mask" when it has a non-zero mask, else the address. */
  function InterfaceText(i: Interface): string
  {
    if i.mask.Some? && i.mask.value != 0 then DottedText(i.addr) + "/" + DottedText(i.mask.value)
    else DottedText(i.addr)
  }

  /** `str(v)`. */
  function Show(v: Value): string
  {
    match v
    case Null => "None"
    case Int(i) => IntStr(i)
    case Str(s) => s
    case Bool(b) => if b then "True" else "False"
    case Iface(i) => InterfaceText(i)
  }

  /**
   * `bool_to_english`: a dictionary lookup, so 1 and True both give "Yes"
   * and 0 and False both give "No"; anything else is shown as it is.
   */
  function BoolToEnglish(v: Value): string
  {
    if Numeric(v) && AsInt(v) == 1 then "Yes"
    else if Numeric(v) && AsInt(v) == 0 then "No"
    else Show(v)
  }

  /** The answer is "Yes" or "No" exactly for the values equal to True or False. */
  lemma BoolToEnglishAnswers(v: Value)
    ensures BoolToEnglish(v) == "Yes" <==> Equals(v, Bool(true)) == Ok(true) || (!Numeric(v) && Show(v) == "Yes")
    ensures Numeric(v) ==> (BoolToEnglish(v) == "No" <==> Equals(v, Bool(false)) == Ok(true))
  {
  }

  /**
   * `grammar_list(items, final_delim)`: one item alone; two joined by "or"
   * whatever the delimiter; more separated by commas with the delimiter
   * before the last.  An empty list raises IndexError.
   */
  function GrammarList(items: seq<string>, finalDelim: string): Result<string>
  {
    if |items| == 0 then Err("IndexError: list index out of range")
    else if |items| == 1 then Ok(items[0])
    else if |items| == 2 then Ok(items[0] + " or " + items[1])
    else Ok(Join(items[..|items| - 1] + [finalDelim + " " + items[|items| - 1]], ", "))
  }

  /** Joining one more piece adds the separator and the piece. */
  lemma {:induction false} JoinSnoc(parts: seq<string>, sep: string, last: string)
    requires |parts| >= 1
    ensures Join(parts + [last], sep) == Join(parts, sep) + sep + last
  {
    if |parts| > 1 {
      JoinSnoc(parts[1..], sep, last);
      assert (parts + [last])[1..] == parts[1..] + [last];
    }
  }

  /**
   * With three or more items the list reads "a, b, ..., <delim> z": the
   * leading items comma-separated, then the delimiter word before the last.
   */
  lemma GrammarListLong(items: seq<string>, finalDelim: string)
    requires |items| >= 3
    ensures GrammarList(items, finalDelim) ==
      Ok(Join(items[..|items| - 1], ", ") + ", " + finalDelim + " " + items[|items| - 1])
  {
    var init, tail := items[..|items| - 1], finalDelim + " " + items[|items| - 1];
    JoinSnoc(init, ", ", tail);
    assert Join(init, ", ") + ", " + tail == Join(init, ", ") + ", " + finalDelim + " " + items[|items| - 1];
  }

  /** Two items ignore the delimiter: the filesystem advice reads "ext4 or xfs". */
  lemma GrammarListPair(a: string, b: string, finalDelim: string)
    ensures GrammarList([a, b], finalDelim) == Ok(a + " or " + b)
    ensures GrammarList(["ext4", "xfs"], "or") == Ok("ext4 or xfs")
  {
    assert "ext4" + " or " + "xfs" == "ext4 or xfs";
  }
}
