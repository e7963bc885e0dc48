/**
 * The kernel routing table as read from `/proc/net/route`: one `Route` per
 * non-blank line after the header, grouped by interface name in file order,
 * and the choice of a netmask for an address among an interface's routes.
 */
module Routes {
  import opened Wrappers
  import opened Text
  import opened Address

  /** One line of the routing table; addresses are in the table's hex form. */
  datatype Route = Route(iface: string, destination: int, gateway: int, mask: int)

  /**
   * `Route(line)`: the interface is field 0, the destination field 1, the
   * gateway field 2 and the mask field 7.  A missing field is an IndexError
   * and an unparsable one the address parser's ValueError, in that order.
   */
  function ParseRoute(fields: seq<string>): Result<Route>
  {
    if |fields| < 2 then Err("list index out of range")
    else
      var destination :- ParseAddr(Chars(fields[1]));
      if |fields| < 3 then Err("list index out of range")
      else
        var gateway :- ParseAddr(Chars(fields[2]));
        if |fields| < 8 then Err("list index out of range")
        else
          var mask :- ParseAddr(Chars(fields[7]));
          Ok(Route(fields[0], destination, gateway, mask))
  }

  /** `Route.applies_to`: the address lies in the route's destination subnet. */
  predicate Applies(r: Route, addr: int)
  {
    InSubnet(r.destination, addr, r.mask)
  }

  // ---------------------------------------------------------------- reading

  /** The lines of the file after the header line. */
  function BodyLines(text: string): seq<string>
  {
    Split(text, '\n')[1..]
  }

  /** The lines of the file, stripped, blank ones skipped, split into fields. */
  function RouteRows(lines: seq<string>): (rows: seq<seq<string>>)
    ensures |rows| <= |lines|
  {
    if lines == [] then []
    else
      var t := Strip(lines[|lines| - 1]);
      RouteRows(lines[..|lines| - 1]) + (if t == [] then [] else [Fields(t)])
  }

  /**
   * The routes parsed from `rows` before the first row that fails, and the
   * failure, if any: the rows after a failure are never read.
   */
  function ParseRows(rows: seq<seq<string>>): (seq<Route>, Option<string>)
  {
    if rows == [] then ([], None)
    else
      var (done, failure) := ParseRows(rows[..|rows| - 1]);
      if failure.Some? then (done, failure)
      else
        match ParseRoute(rows[|rows| - 1])
        case Ok(r) => (done + [r], None)
        case Err(e) => (done, Some(e))
  }

  /** One more line read: its stripped text adds one row unless it is blank. */
  lemma RouteRowsStep(lines: seq<string>, i: nat)
    requires i < |lines|
    ensures RouteRows(lines[..i + 1]) ==
      RouteRows(lines[..i]) + (if Strip(lines[i]) == [] then [] else [Fields(Strip(lines[i]))])
  {
    assert lines[..i + 1][..i] == lines[..i];
  }

  /** One more row read after rows that all parsed. */
  lemma ParseRowsStep(rows: seq<seq<string>>, row: seq<string>)
    requires ParseRows(rows).1.None?
    ensures ParseRows(rows + [row]) ==
      match ParseRoute(row)
      case Ok(r) => (ParseRows(rows).0 + [r], None)
      case Err(e) => (ParseRows(rows).0, Some(e))
  {
    assert (rows + [row])[..|rows|] == rows;
  }

  /** One more route grouped. */
  lemma GroupStep(table: map<string, seq<Route>>, rs: seq<Route>, r: Route)
    ensures Group(table, rs + [r]) == AddRoute(Group(table, rs), r)
  {
    assert (rs + [r])[..|rs|] == rs;
  }

  /** One more route considered for the default. */
  lemma FirstDefaultStep(rs: seq<Route>, r: Route)
    ensures FirstDefault(rs + [r]) ==
      if FirstDefault(rs).None? && r.mask == 0 then Some(r.iface) else FirstDefault(rs)
  {
    assert (rs + [r])[..|rs|] == rs;
  }

  /** The routes read from `lines` and the failure that stopped the reading, if any. */
  function Reading(lines: seq<string>): (seq<Route>, Option<string>)
  {
    ParseRows(RouteRows(lines))
  }

  /** Reading one more line after lines that all parsed. */
  lemma ReadingStep(lines: seq<string>, i: nat)
    requires i < |lines| && Reading(lines[..i]).1.None?
    ensures Strip(lines[i]) == [] ==> Reading(lines[..i + 1]) == Reading(lines[..i])
    ensures Strip(lines[i]) != [] ==>
      Reading(lines[..i + 1]) ==
        match ParseRoute(Fields(Strip(lines[i])))
        case Ok(r) => (Reading(lines[..i]).0 + [r], None)
        case Err(e) => (Reading(lines[..i]).0, Some(e))
  {
    RouteRowsStep(lines, i);
    var rows := RouteRows(lines[..i]);
    if Strip(lines[i]) != [] {
      ParseRowsStep(rows, Fields(Strip(lines[i])));
    } else {
      assert RouteRows(lines[..i + 1]) == rows;
    }
  }

  /** A line that does not parse ends the reading. */
  lemma ReadingStops(lines: seq<string>, i: nat)
    requires i < |lines| && Reading(lines[..i + 1]).1.Some?
    ensures Reading(lines) == Reading(lines[..i + 1])
  {
    var front, back := lines[..i + 1], lines[i + 1..];
    assert lines == front + back;
    assert ParseRows(RouteRows(front)).1.Some?;
    ReadStops(front, back);
    assert Reading(lines) == ParseRows(RouteRows(front + back));
  }

  lemma ReadStops(front: seq<string>, back: seq<string>)
    requires ParseRows(RouteRows(front)).1.Some?
    ensures ParseRows(RouteRows(front + back)) == ParseRows(RouteRows(front))
  {
    RouteRowsAppend(front, back);
    ParseRowsStops(RouteRows(front), RouteRows(back));
  }

  /** The lines of a file, split anywhere, give the rows of both parts. */
  lemma {:induction false} RouteRowsAppend(a: seq<string>, b: seq<string>)
    ensures RouteRows(a + b) == RouteRows(a) + RouteRows(b)
    decreases |b|
  {
    if b == [] {
      assert a + b == a;
    } else {
      var init, last := b[..|b| - 1], b[|b| - 1];
      RouteRowsAppend(a, init);
      var ab := a + b;
      assert ab[..|ab| - 1] == a + init && ab[|ab| - 1] == last;
      RouteRowsSnoc(ab);
      RouteRowsSnoc(b);
      Associative(RouteRows(a), RouteRows(init), RouteRows([last]));
    }
  }

  lemma Associative<T>(x: seq<T>, y: seq<T>, z: seq<T>)
    ensures (x + y) + z == x + (y + z)
  {
  }

  /** The rows of the lines are the rows of all but the last line, then the last line's row. */
  lemma RouteRowsSnoc(lines: seq<string>)
    requires lines != []
    ensures RouteRows(lines) == RouteRows(lines[..|lines| - 1]) + RouteRows([lines[|lines| - 1]])
  {
    assert [lines[|lines| - 1]][..0] == [];
  }

  /** The routes a row-by-row reader keeps: every row parses, in order. */
  lemma {:induction false} ParseRowsAllOk(rows: seq<seq<string>>)
    requires ParseRows(rows).1.None?
    ensures |ParseRows(rows).0| == |rows|
    ensures forall i | 0 <= i < |rows| :: ParseRoute(rows[i]) == Ok(ParseRows(rows).0[i])
  {
    if rows != [] {
      var init := rows[..|rows| - 1];
      ParseRowsAllOk(init);
      assert forall i | 0 <= i < |init| :: init[i] == rows[i];
    }
  }

  /** A failing row hides every later row. */
  lemma {:induction false} ParseRowsStops(rows: seq<seq<string>>, more: seq<seq<string>>)
    requires ParseRows(rows).1.Some?
    ensures ParseRows(rows + more) == ParseRows(rows)
    decreases |more|
  {
    if more != [] {
      var init := more[..|more| - 1];
      ParseRowsStops(rows, init);
      assert (rows + more)[..|rows + more| - 1] == rows + init;
    } else {
      assert rows + more == rows;
    }
  }

  // --------------------------------------------------------------- grouping

  /** The routes recorded for `name`, none when the name is absent. */
  function Lookup(table: map<string, seq<Route>>, name: string): seq<Route>
  {
    if name in table then table[name] else []
  }

  /** Appending one route to its interface's list, creating the list. */
  function AddRoute(table: map<string, seq<Route>>, r: Route): (t: map<string, seq<Route>>)
    ensures t.Keys == table.Keys + {r.iface}
  {
    table[r.iface := Lookup(table, r.iface) + [r]]
  }

  /** The table after appending `rs` one by one. */
  function Group(table: map<string, seq<Route>>, rs: seq<Route>): map<string, seq<Route>>
  {
    if rs == [] then table else AddRoute(Group(table, rs[..|rs| - 1]), rs[|rs| - 1])
  }

  /** The routes of `rs` whose interface is `name`, in order. */
  function OfInterface(rs: seq<Route>, name: string): (sel: seq<Route>)
    ensures forall i | 0 <= i < |sel| :: sel[i].iface == name
    ensures |sel| <= |rs|
  {
    if rs == [] then []
    else OfInterface(rs[..|rs| - 1], name) + (if rs[|rs| - 1].iface == name then [rs[|rs| - 1]] else [])
  }

  /**
   * Grouping keeps the table's earlier routes and adds, per interface, that
   * interface's new routes in file order; an interface is a key exactly
   * when it had routes before or one of the new routes names it.
   */
  lemma {:induction false} GroupByInterface(table: map<string, seq<Route>>, rs: seq<Route>, name: string)
    ensures Lookup(Group(table, rs), name) == Lookup(table, name) + OfInterface(rs, name)
    ensures name in Group(table, rs) <==> name in table || exists i | 0 <= i < |rs| :: rs[i].iface == name
  {
    GroupLookup(table, rs, name);
    GroupKeys(table, rs, name);
  }

  lemma {:induction false} GroupLookup(table: map<string, seq<Route>>, rs: seq<Route>, name: string)
    ensures Lookup(Group(table, rs), name) == Lookup(table, name) + OfInterface(rs, name)
  {
    if rs != [] {
      var init, r := rs[..|rs| - 1], rs[|rs| - 1];
      GroupLookup(table, init, name);
      var g := Group(table, init);
      assert Group(table, rs) == AddRoute(g, r);
      assert OfInterface(rs, name) == OfInterface(init, name) + (if r.iface == name then [r] else []);
      if r.iface == name {
        assert Lookup(AddRoute(g, r), name) == Lookup(g, name) + [r];
      } else {
        assert Lookup(AddRoute(g, r), name) == Lookup(g, name);
      }
    }
  }

  lemma {:induction false} GroupKeys(table: map<string, seq<Route>>, rs: seq<Route>, name: string)
    ensures name in Group(table, rs) <==> name in table || exists i | 0 <= i < |rs| :: rs[i].iface == name
  {
    if rs != [] {
      var init, r := rs[..|rs| - 1], rs[|rs| - 1];
      GroupKeys(table, init, name);
      assert Group(table, rs).Keys == Group(table, init).Keys + {r.iface};
      if name in Group(table, init) && name !in table {
        var i :| 0 <= i < |init| && init[i].iface == name;
        assert rs[i].iface == name;
      }
      if r.iface == name {
        assert rs[|rs| - 1].iface == name;
      }
      if exists i | 0 <= i < |rs| :: rs[i].iface == name {
        var i :| 0 <= i < |rs| && rs[i].iface == name;
        if i < |init| {
          assert init[i].iface == name;
        }
      }
    }
  }

  // ----------------------------------------------------------- default route

  /** The interface of the first route whose mask is 0.0.0.0. */
  function FirstDefault(rs: seq<Route>): Option<string>
  {
    if rs == [] then None
    else
      var before := FirstDefault(rs[..|rs| - 1]);
      if before.None? && rs[|rs| - 1].mask == 0 then Some(rs[|rs| - 1].iface) else before
  }

  /** `FirstDefault` names the earliest route with a zero mask, if there is one. */
  lemma {:induction false} FirstDefaultSpec(rs: seq<Route>)
    ensures FirstDefault(rs).None? <==> forall i | 0 <= i < |rs| :: rs[i].mask != 0
    ensures FirstDefault(rs).Some? ==>
      exists k | 0 <= k < |rs| :: rs[k].mask == 0 && rs[k].iface == FirstDefault(rs).value &&
        forall j | 0 <= j < k :: rs[j].mask != 0
  {
    if rs != [] {
      var init := rs[..|rs| - 1];
      FirstDefaultSpec(init);
      assert forall i | 0 <= i < |init| :: init[i] == rs[i];
      if FirstDefault(init).Some? {
        var k :| 0 <= k < |init| && init[k].mask == 0 && init[k].iface == FirstDefault(init).value &&
          forall j | 0 <= j < k :: init[j].mask != 0;
        assert rs[k].mask == 0;
      }
    }
  }

  // --------------------------------------------------------- mask selection

  /**
   * `mask_for_interface`'s loop as written.  The first applicable route sets
   * the mask, and so does any later one while the mask is still 0.0.0.0.
   * After that, `route.mask > mask` goes through `IP.__cmp__`, which
   * compares the lengths of the two masks; `IP.__len__` is 0 for every
   * non-negative address, so the mask never changes again.
   */
  function MaskAsWritten(rs: seq<Route>, addr: int): Option<int>
  {
    if rs == [] then None
    else
      var mask := MaskAsWritten(rs[..|rs| - 1], addr);
      var r := rs[|rs| - 1];
      if !Applies(r, addr) then mask
      else if mask.None? || mask.value == 0 then Some(r.mask)
      else mask
  }

  /**
   * The loop as evidently intended: a later applicable route replaces the
   * mask when it has more one bits, so the longest prefix wins.
   */
  function MostSpecificMask(rs: seq<Route>, addr: int): Option<int>
  {
    if rs == [] then None
    else
      var mask := MostSpecificMask(rs[..|rs| - 1], addr);
      var r := rs[|rs| - 1];
      if !Applies(r, addr) then mask
      else if mask.None? || mask.value == 0 || Ones32(r.mask) > Ones32(mask.value) then Some(r.mask)
      else mask
  }

  /**
   * As written, the chosen mask is the first non-zero mask of an
   * applicable route, or 0.0.0.0 when every applicable route has that mask,
   * and there is none when no route applies.
   */
  lemma {:induction false} MaskAsWrittenSpec(rs: seq<Route>, addr: int)
    ensures MaskAsWritten(rs, addr).None? <==> forall i | 0 <= i < |rs| :: !Applies(rs[i], addr)
    ensures MaskAsWritten(rs, addr) == Some(0) ==>
      forall i | 0 <= i < |rs| && Applies(rs[i], addr) :: rs[i].mask == 0
    ensures MaskAsWritten(rs, addr).Some? && MaskAsWritten(rs, addr).value != 0 ==>
      exists k | 0 <= k < |rs| :: Applies(rs[k], addr) && rs[k].mask == MaskAsWritten(rs, addr).value &&
        forall j | 0 <= j < k && Applies(rs[j], addr) :: rs[j].mask == 0
  {
    if rs != [] {
      var init := rs[..|rs| - 1];
      MaskAsWrittenSpec(init, addr);
      assert forall i | 0 <= i < |init| :: init[i] == rs[i];
      var m := MaskAsWritten(init, addr);
      if m.Some? && m.value != 0 {
        var k :| 0 <= k < |init| && Applies(init[k], addr) && init[k].mask == m.value &&
          forall j | 0 <= j < k && Applies(init[j], addr) :: init[j].mask == 0;
        assert Applies(rs[k], addr) && rs[k].mask == m.value;
      }
    }
  }

  /**
   * As intended, the chosen mask belongs to an applicable route and has at
   * least as many one bits as the mask of every applicable route.
   */
  lemma MostSpecificMaskSpec(rs: seq<Route>, addr: int)
    ensures MostSpecificMask(rs, addr).None? <==> forall i | 0 <= i < |rs| :: !Applies(rs[i], addr)
    ensures MostSpecificMask(rs, addr).Some? ==>
      (exists k | 0 <= k < |rs| :: Applies(rs[k], addr) && rs[k].mask == MostSpecificMask(rs, addr).value) &&
      forall i | 0 <= i < |rs| && Applies(rs[i], addr) :: Ones32(rs[i].mask) <= Ones32(MostSpecificMask(rs, addr).value)
  {
    MostSpecificNone(rs, addr);
    MostSpecificFrom(rs, addr);
    MostSpecificMost(rs, addr);
  }

  /** There is no mask exactly when no route applies. */
  lemma {:induction false} MostSpecificNone(rs: seq<Route>, addr: int)
    ensures MostSpecificMask(rs, addr).None? <==> forall i | 0 <= i < |rs| :: !Applies(rs[i], addr)
  {
    if rs != [] {
      var init := rs[..|rs| - 1];
      MostSpecificNone(init, addr);
      assert forall i | 0 <= i < |init| :: init[i] == rs[i];
    }
  }

  /** The chosen mask is the mask of an applicable route. */
  lemma {:induction false} MostSpecificFrom(rs: seq<Route>, addr: int)
    ensures MostSpecificMask(rs, addr).Some? ==>
      exists k | 0 <= k < |rs| :: Applies(rs[k], addr) && rs[k].mask == MostSpecificMask(rs, addr).value
  {
    if rs != [] {
      var init := rs[..|rs| - 1];
      MostSpecificFrom(init, addr);
      var m := MostSpecificMask(init, addr);
      if MostSpecificMask(rs, addr) == m && m.Some? {
        var k :| 0 <= k < |init| && Applies(init[k], addr) && init[k].mask == m.value;
        assert rs[k] == init[k];
      }
    }
  }

  /** The mask 0.0.0.0 has no one bits. */
  lemma OnesOfZero()
    ensures Ones32(0) == 0
  {
    Pow2Values();
  }

  /** No applicable route has a mask with more one bits than the chosen one. */
  lemma {:induction false} MostSpecificMost(rs: seq<Route>, addr: int)
    ensures MostSpecificMask(rs, addr).Some? ==>
      forall i | 0 <= i < |rs| && Applies(rs[i], addr) :: Ones32(rs[i].mask) <= Ones32(MostSpecificMask(rs, addr).value)
  {
    if rs != [] {
      var last := |rs| - 1;
      var init := rs[..last];
      MostSpecificMost(init, addr);
      MostSpecificNone(init, addr);
      var m := MostSpecificMask(init, addr);
      var result := MostSpecificMask(rs, addr);
      OnesOfZero();
      var r := rs[last];
      var replaced := Applies(r, addr) && (m.None? || m.value == 0 || Ones32(r.mask) > Ones32(m.value));
      assert result == if replaced then Some(r.mask) else m;
      forall i | 0 <= i < |rs| && Applies(rs[i], addr) && result.Some?
        ensures Ones32(rs[i].mask) <= Ones32(result.value)
      {
        if i < last {
          assert init[i] == rs[i];
          var below := Ones32(rs[i].mask);
          assert m.Some? && below <= Ones32(m.value);
          if replaced {
            assert m.value == 0 ==> below == 0;
          }
        } else if !replaced {
          assert Ones32(r.mask) <= Ones32(m.value);
        }
      }
    }
  }

  /** `mask_for_interface` as written: no mask without a named interface with routes. */
  function MaskForAsWritten(table: map<string, seq<Route>>, iface: Option<string>, addr: int): Option<int>
  {
    if iface.None? || iface.value == "" || iface.value !in table then None
    else MaskAsWritten(table[iface.value], addr)
  }

  /** `mask_for_interface` as evidently intended. */
  function MaskFor(table: map<string, seq<Route>>, iface: Option<string>, addr: int): Option<int>
  {
    if iface.None? || iface.value == "" || iface.value !in table then None
    else MostSpecificMask(table[iface.value], addr)
  }

  /**
   * The loop as written, comparing lengths with `IP.__len__` as written.
   * `__len__` of a negative mask would not return, hence the precondition.
   */
  method MaskForInterfaceAsWritten(table: map<string, seq<Route>>, iface: Option<string>, addr: int)
    returns (mask: Option<int>)
    requires iface.Some? && iface.value in table ==> forall r <- table[iface.value] :: r.mask >= 0
    ensures mask == MaskForAsWritten(table, iface, addr)
  {
    if iface.None? || iface.value == "" || iface.value !in table {
      return None;
    }
    var rs := table[iface.value];
    mask := None;
    for i := 0 to |rs|
      invariant mask == MaskAsWritten(rs[..i], addr)
      invariant mask.Some? ==> mask.value >= 0
    {
      assert rs[..i + 1][..i] == rs[..i];
      var r := rs[i];
      if Applies(r, addr) {
        if mask.None? || mask.value == 0 {
          mask := Some(r.mask);
        } else {
          var longer := LenAsWritten(r.mask);
          var shorter := LenAsWritten(mask.value);
          if longer > shorter {
            mask := Some(r.mask);
          }
        }
      }
    }
    assert rs[..|rs|] == rs;
  }

  /** The loop as evidently intended, comparing one-bit counts. */
  method MaskForInterface(table: map<string, seq<Route>>, iface: Option<string>, addr: int)
    returns (mask: Option<int>)
    ensures mask == MaskFor(table, iface, addr)
  {
    if iface.None? || iface.value == "" || iface.value !in table {
      return None;
    }
    var rs := table[iface.value];
    mask := None;
    for i := 0 to |rs|
      invariant mask == MostSpecificMask(rs[..i], addr)
    {
      assert rs[..i + 1][..i] == rs[..i];
      var r := rs[i];
      if Applies(r, addr) {
        if mask.None? || mask.value == 0 {
          mask := Some(r.mask);
        } else {
          var longer := Specificity(r.mask);
          var shorter := Specificity(mask.value);
          if longer > shorter {
            mask := Some(r.mask);
          }
        }
      }
    }
    assert rs[..|rs|] == rs;
  }
}
