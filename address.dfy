/**
 * IPv4 addresses and masks as the installer's `IP` class holds them: one
 * Python int.  The text forms are the dotted quad, the eight-digit hex of
 * /proc/net/route (byte pairs least significant first) and a small decimal
 * number read as a CIDR prefix length (section 3.1 of RFC 4632).
 */
module Address {
  import opened Wrappers
  import opened Text

  // ------------------------------------------------------------ arithmetic

  function Pow2(n: nat): (r: nat)
    ensures r >= 1
  {
    if n == 0 then 1 else 2 * Pow2(n - 1)
  }

  lemma {:induction false} Pow2Add(a: nat, b: nat)
    ensures Pow2(a + b) == Pow2(a) * Pow2(b)
    decreases a
  {
    if a > 0 {
      Pow2Add(a - 1, b);
    }
  }

  lemma Pow2Values()
    ensures Pow2(8) == 0x100 && Pow2(16) == 0x1_0000 && Pow2(24) == 0x100_0000 && Pow2(32) == 0x1_0000_0000
  {
    assert Pow2(8) == 0x100;
    Pow2Add(8, 8);
    Pow2Add(16, 8);
    Pow2Add(16, 16);
  }

  /** Python's `a & b` on ints: two's complement with unboundedly many bits. */
  function BitAnd(a: int, b: int): (r: int)
    ensures b >= 0 ==> 0 <= r <= b
    decreases (if a < 0 then -a else a) + (if b < 0 then -b else b)
  {
    if a == 0 || b == 0 then 0
    else if a == -1 then b
    else if b == -1 then a
    else 2 * BitAnd(a / 2, b / 2) + (if a % 2 == 1 && b % 2 == 1 then 1 else 0)
  }

  lemma MulAtLeast(d: int, k: int)
    requires d > 0 && k >= 1
    ensures d * k >= d
  {
    assert d * k == d * (k - 1) + d;
    assert d * (k - 1) >= 0;
  }

  lemma DivModUnique(x: int, d: int, q: int, r: int)
    requires d > 0 && x == d * q + r && 0 <= r < d
    ensures x / d == q && x % d == r
  {
    var q' := x / d;
    var r' := x % d;
    assert x == d * q' + r';
    assert d * (q - q') == r' - r by {
      assert d * (q - q') == d * q - d * q';
    }
    if q > q' {
      MulAtLeast(d, q - q');
    } else if q < q' {
      MulAtLeast(d, q' - q);
    }
  }

  lemma DivDiv(x: int, a: int, b: int)
    requires a > 0 && b > 0
    ensures x / a / b == x / (a * b)
  {
    var q1, r1 := x / a, x % a;
    var q2, r2 := q1 / b, q1 % b;
    DivModSplit(x, a);
    DivModSplit(q1, b);
    Distrib(a, b * q2, r2);
    MulAssoc(a, b, q2);
    MulBelow(a, r2, b);
    DivModUnique(x, a * b, q2, a * r2 + r1);
  }

  lemma Distrib(a: int, y: int, z: int)
    ensures a * (y + z) == a * y + a * z
  {
  }

  /** For 0 <= r < b, a * r stays at least a below a * b. */
  lemma MulBelow(a: int, r: int, b: int)
    requires a > 0 && 0 <= r < b
    ensures 0 <= a * r && a * r + a <= a * b
  {
    Distrib(a, r, 1);
    Distrib(a, r + 1, b - r - 1);
    assert a * (b - r - 1) >= 0;
  }

  lemma ModDouble(x: int, q: int)
    requires q > 0
    ensures x % (2 * q) == 2 * ((x / 2) % q) + x % 2
  {
    var Q := (x / 2) / q;
    var R := (x / 2) % q;
    DivModSplit(x / 2, q);
    DivModSplit(x, 2);
    MulAssoc(2, q, Q);
    DivModUnique(x, 2 * q, Q, 2 * R + x % 2);
  }

  /** Masking with n low one-bits keeps the value modulo 2^n. */
  lemma {:induction false} AndLowOnes(x: int, n: nat)
    ensures BitAnd(x, Pow2(n) - 1) == x % Pow2(n)
    decreases n
  {
    if n == 0 {
      assert Pow2(n) - 1 == 0;
    } else if x == 0 {
    } else if x == -1 {
      DivModUnique(-1, Pow2(n), -1, Pow2(n) - 1);
    } else {
      var q := Pow2(n - 1);
      var m := Pow2(n) - 1;
      assert m == 2 * (q - 1) + 1;
      assert m / 2 == q - 1 && m % 2 == 1;
      AndLowOnes(x / 2, n - 1);
      assert BitAnd(x, m) == 2 * ((x / 2) % q) + x % 2;
      ModDouble(x, q);
    }
  }

  lemma DoubleShift(x: int, p: int, b: int)
    requires p > 0
    ensures 2 * (b * p) == b * (2 * p)
    ensures x / 2 / p == x / (2 * p)
  {
    DivDiv(x, 2, p);
  }

  /** Masking with a value shifted left by k is masking the input shifted right by k. */
  lemma {:induction false} AndShift(x: int, m: nat, k: nat)
    ensures BitAnd(x, m * Pow2(k)) == BitAnd(x / Pow2(k), m) * Pow2(k)
    decreases k
  {
    if k == 0 {
      DivModUnique(x, 1, x, 0);
    } else if m == 0 {
    } else if x == 0 || x == -1 {
      AndShiftEdge(x, m, k);
    } else {
      AndShift(x / 2, m, k - 1);
      AndShiftStep(x, m, k);
    }
  }

  lemma AndShiftEdge(x: int, m: nat, k: nat)
    requires x == 0 || x == -1
    requires m > 0
    ensures BitAnd(x, m * Pow2(k)) == BitAnd(x / Pow2(k), m) * Pow2(k)
  {
    var p := Pow2(k);
    MulAtLeast(m, p);
    if x == 0 {
      DivModUnique(0, p, 0, 0);
      assert BitAnd(0, m) == 0;
    } else {
      DivModUnique(-1, p, -1, p - 1);
      assert BitAnd(-1, m * p) == m * p;
      assert BitAnd(-1, m) == m;
    }
  }

  lemma UnfoldEven(x: int, y: int)
    requires x != 0 && x != -1 && y >= 1
    ensures BitAnd(x, 2 * y) == 2 * BitAnd(x / 2, y)
  {
    assert (2 * y) / 2 == y && (2 * y) % 2 == 0;
  }

  lemma ShiftArith(m: int, p: int, b: int)
    requires m >= 1 && p >= 1
    ensures m * p >= 1
    ensures m * (2 * p) == 2 * (m * p)
    ensures 2 * (b * p) == b * (2 * p)
  {
    assert m * p >= 1 * p;
  }

  lemma AndShiftStep(x: int, m: nat, k: nat)
    requires k > 0 && m > 0 && x != 0 && x != -1
    requires BitAnd(x / 2, m * Pow2(k - 1)) == BitAnd(x / 2 / Pow2(k - 1), m) * Pow2(k - 1)
    ensures BitAnd(x, m * Pow2(k)) == BitAnd(x / Pow2(k), m) * Pow2(k)
  {
    var p := Pow2(k - 1);
    var P := Pow2(k);
    assert P == 2 * p;
    var b := BitAnd(x / P, m);
    ShiftArith(m, p, b);
    var mp := m * p;
    UnfoldEven(x, mp);
    DivDiv(x, 2, p);
  }

  lemma DivModSplit(y: int, d: int)
    requires d > 0
    ensures y == d * (y / d) + y % d && 0 <= y % d < d
  {
  }
  lemma MulAssoc(a: int, b: int, c: int)
    ensures a * (b * c) == (a * b) * c
  {
  }

  // ------------------------------------------------------------ masks

  /** The mask with n leading one bits in a 32-bit word. */
  function PrefixMask(n: nat): int
    requires n <= 32
  {
    (Pow2(n) - 1) * Pow2(32 - n)
  }

  /** What the constructor computes for a number below 32: a mask of that many bits (none if negative). */
  function CidrValue(n: int): int
    requires n < 32
  {
    PrefixMask(if n < 0 then 0 else n)
  }

  function Ones(n: nat): string { seq(n, _ => '1') }
  function Zeros(n: nat): string { seq(n, _ => '0') }

  /** n ones followed by k zeros, read in base 2. */
  lemma {:induction false} BinaryOnesZeros(n: nat, k: nat)
    ensures DigitsValue(Ones(n) + Zeros(k), 2) == (Pow2(n) - 1) * Pow2(k)
    decreases n + k
  {
    var s := Ones(n) + Zeros(k);
    if k > 0 {
      assert s[..|s| - 1] == Ones(n) + Zeros(k - 1);
      assert DigitOf(s[|s| - 1], 2) == 0;
      BinaryOnesZeros(n, k - 1);
      MulAssoc(Pow2(n) - 1, Pow2(k - 1), 2);
    } else if n > 0 {
      assert s[..|s| - 1] == Ones(n - 1) + Zeros(0);
      assert DigitOf(s[|s| - 1], 2) == 1;
      BinaryOnesZeros(n - 1, 0);
    } else {
      assert s == [];
    }
  }

  /**
   * The CIDR branch of the constructor: a 32-character buffer of '0', the
   * first n set to '1', read back in base 2.
   */
  method CidrMask(n: int) returns (m: int)
    requires n < 32
    ensures m == CidrValue(n)
  {
    var bits := new char[32](_ => '0');
    var x := 0;
    while x < n
      invariant 0 <= x <= 32 && (n >= 0 ==> x <= n) && (n < 0 ==> x == 0)
      invariant bits[..] == Ones(x) + Zeros(32 - x)
    {
      bits[x] := '1';
      assert bits[..] == Ones(x + 1) + Zeros(32 - (x + 1));
      x := x + 1;
    }
    BinaryOnesZeros(x, 32 - x);
    m := DigitsValue(bits[..], 2);
  }

  // ------------------------------------------------------------ parsing

  /** What `IP(...)` is handed: nothing, a string, or an int. */
  datatype AddrInput = NoInput | Chars(s: string) | Number(n: int)

  /** `from_dotted`: exactly three dots, then shift-and-add each int(octet). */
  function DottedValue(s: string): Option<int>
  {
    if Count(s, '.') != 3 then None else ShiftAdd(Split(s, '.'))
  }

  /** The accumulator of the from_dotted loop after the given octets. */
  function ShiftAdd(octets: seq<string>): Option<int>
  {
    if octets == [] then Some(0)
    else
      match ShiftAdd(octets[..|octets| - 1])
      case None => None
      case Some(acc) =>
        match ParseInt(octets[|octets| - 1], 10)
        case None => None
        case Some(o) => Some(acc * 256 + o)
  }

  method FromDotted(s: string) returns (r: Option<int>)
    ensures r == DottedValue(s)
  {
    if Count(s, '.') != 3 {
      return None;
    }
    var octets := Split(s, '.');
    var acc := 0;
    var i := 0;
    assert octets[..0] == [];
    while i < |octets|
      invariant 0 <= i <= |octets|
      invariant ShiftAdd(octets[..i]) == Some(acc)
    {
      var o := ParseInt(octets[i], 10);
      if o.None? {
        ShiftAddFail(octets, i);
        ShiftAddStops(octets, i + 1);
        return None;
      }
      var next := acc * 256 + o.value;
      ShiftAddStep(octets, i, acc, o.value, next);
      acc, i := next, i + 1;
    }
    assert octets[..i] == octets;
    r := Some(acc);
  }

  /** One more octet: shift the accumulator by eight bits and add it. */
  lemma ShiftAddStep(octets: seq<string>, i: nat, acc: int, o: int, next: int)
    requires i < |octets| && next == acc * 256 + o
    requires ShiftAdd(octets[..i]) == Some(acc) && ParseInt(octets[i], 10) == Some(o)
    ensures ShiftAdd(octets[..i + 1]) == Some(next)
  {
    assert octets[..i + 1][..i] == octets[..i];
  }

  /** An octet that int() rejects ends the conversion. */
  lemma ShiftAddFail(octets: seq<string>, i: nat)
    requires i < |octets|
    requires ShiftAdd(octets[..i]).Some? && ParseInt(octets[i], 10).None?
    ensures ShiftAdd(octets[..i + 1]) == None
  {
    assert octets[..i + 1][..i] == octets[..i];
  }

  /** Once an octet fails to parse, the whole conversion fails. */
  lemma {:induction false} ShiftAddStops(octets: seq<string>, k: nat)
    requires 0 < k <= |octets|
    requires ShiftAdd(octets[..k]) == None
    ensures ShiftAdd(octets) == None
    decreases |octets| - k
  {
    if k < |octets| {
      assert octets[..k + 1][..k] == octets[..k];
      ShiftAddStops(octets, k + 1);
    } else {
      assert octets[..k] == octets;
    }
  }

  /** `from_hex`: exactly eight characters, read two at a time from the end. */
  function HexValue(s: string): Option<int>
  {
    if |s| != 8 then None else HexFold(0, s)
  }

  /**
   * `int(pair, 16)` for the one or two characters from_hex reads at a
   * time.  They leave no room for a "0x" prefix or for a space between the
   * sign and the digit, so this is Python's whole `int()` on them
   * (`PairValueIsInt`).
   */
  function PairValue(pair: string): Option<int>
  {
    var t := Strip(pair);
    if |t| > 0 && (t[0] == '+' || t[0] == '-') then
      if IsDigits(t[1..], 16) then
        var magnitude: int := DigitsValue(t[1..], 16);
        Some(if t[0] == '-' then -magnitude else magnitude)
      else None
    else if IsDigits(t, 16) then Some(DigitsValue(t, 16))
    else None
  }

  /** On at most two characters, `PairValue` is `int(pair, 16)`. */
  lemma PairValueIsInt(pair: string)
    requires |pair| <= 2
    ensures PairValue(pair) == ParseInt(pair, 16)
  {
    var r := StripRight(pair);
    var t := Strip(pair);
    StripRightSpec(pair);
    StripLeftSpec(r);
    assert |t| <= 2;
    if |t| > 0 && (t[0] == '+' || t[0] == '-') {
      var d := t[1..];
      if |d| == 1 {
        assert d[0] == r[|r| - 1];
      }
      assert StripLeft(d) == d;
      assert Unprefixed(d, 16) == d;
    } else {
      assert Unprefixed(t, 16) == t;
    }
  }

  /** The from_hex loop: shift the accumulator and add int(last two chars, 16). */
  function HexFold(acc: int, rest: string): Option<int>
    decreases |rest|
  {
    if rest == [] then Some(acc)
    else
      var tail := if |rest| >= 2 then rest[|rest| - 2..] else rest;
      var front := if |rest| >= 2 then rest[..|rest| - 2] else [];
      match PairValue(tail)
      case None => None
      case Some(p) => HexFold(acc * 256 + p, front)
  }

  method FromHex(s: string) returns (r: Option<int>)
    ensures r == HexValue(s)
  {
    if |s| != 8 {
      return None;
    }
    var acc := 0;
    var rest := s;
    ghost var pairs := 4;
    while rest != []
      invariant |rest| == 2 * pairs
      invariant HexFold(acc, rest) == HexFold(0, s)
      decreases |rest|
    {
      var p := PairValue(rest[|rest| - 2..]);
      HexFoldTurn(acc, rest, p);
      if p.None? {
        return None;
      }
      acc := acc * 256 + p.value;
      rest := rest[..|rest| - 2];
      pairs := pairs - 1;
    }
    r := Some(acc);
  }

  /** One turn of the from_hex loop on a string of at least two characters. */
  lemma HexFoldTurn(acc: int, rest: string, p: Option<int>)
    requires |rest| >= 2 && p == PairValue(rest[|rest| - 2..])
    ensures HexFold(acc, rest) == if p.None? then None else HexFold(acc * 256 + p.value, rest[..|rest| - 2])
  {
  }

  /**
   * `IP(orig_addr)`: a falsy input is 0.0.0.0; otherwise dotted quad, then
   * hex, then int() (below 32 a prefix length), else ValueError.
   */
  function ParseAddr(src: AddrInput): Result<int>
  {
    match src
    case NoInput => Ok(0)
    case Number(n) => Ok(if n < 32 then CidrValue(n) else n)
    case Chars(s) =>
      if s == "" then Ok(0)
      else
        match DottedValue(s)
        case Some(v) => Ok(v)
        case None =>
          match HexValue(s)
          case Some(v) => Ok(v)
          case None =>
            match ParseInt(s, 10)
            case Some(n) => Ok(if n < 32 then CidrValue(n) else n)
            case None => Err("`" + s + "` is not a known IP address format.")
  }

  /** The constructor's chain of attempts, each a loop of its own. */
  method NewIP(src: AddrInput) returns (r: Result<int>)
    ensures r == ParseAddr(src)
  {
    match src {
      case NoInput =>
        r := Ok(0);
      case Number(n) =>
        if n < 32 {
          var m := CidrMask(n);
          r := Ok(m);
        } else {
          r := Ok(n);
        }
      case Chars(s) =>
        if s == "" {
          return Ok(0);
        }
        var d := FromDotted(s);
        if d.Some? {
          return Ok(d.value);
        }
        var h := FromHex(s);
        if h.Some? {
          return Ok(h.value);
        }
        var n := ParseInt(s, 10);
        if n.None? {
          return Err("`" + s + "` is not a known IP address format.");
        }
        if n.value < 32 {
          var m := CidrMask(n.value);
          r := Ok(m);
        } else {
          r := Ok(n.value);
        }
    }
  }

  /** `bool(IP)`: false exactly for 0.0.0.0. */
  predicate Truthy(addr: int)
  {
    addr != 0
  }

  /** `IP.in_subnet`: both addresses agree under the mask. */
  predicate InSubnet(a: int, b: int, mask: int)
  {
    BitAnd(a, mask) == BitAnd(b, mask)
  }

  /** For every mask, being in the same subnet is an equivalence relation. */
  lemma InSubnetEquivalence(a: int, b: int, c: int, mask: int)
    ensures InSubnet(a, a, mask)
    ensures InSubnet(a, b, mask) ==> InSubnet(b, a, mask)
    ensures InSubnet(a, b, mask) && InSubnet(b, c, mask) ==> InSubnet(a, c, mask)
  {
  }

  // ------------------------------------------------------------ dotted text

  function Pow256(i: nat): (r: nat)
    ensures r >= 1
  {
    if i == 0 then 1 else 256 * Pow256(i - 1)
  }

  /** Octet i of an address, counting from the least significant (`addr >> 8*i & 0xff`). */
  function Octet(a: int, i: nat): int
  {
    (a / Pow256(i)) % 256
  }

  /** The decimal octets i-1 down to 0, most significant first. */
  function OctetStrs(a: int, k: nat): (r: seq<string>)
    ensures |r| == k
  {
    if k == 0 then [] else [DecStr(Octet(a, k - 1))] + OctetStrs(a, k - 1)
  }

  /** `to_dotted`: four decimal octets joined by dots. */
  function DottedText(a: int): string
  {
    Join(OctetStrs(a, 4), ".")
  }

  /** The to_dotted loop: prepend `str(addr & 0xff)` and shift right by eight, four times. */
  method ToDotted(addr: int) returns (s: string)
    ensures s == DottedText(addr)
  {
    var cur := addr;
    var parts: seq<string> := [];
    var x := 0;
    while x < 4
      invariant 0 <= x <= 4
      invariant parts == OctetStrs(addr, x)
      invariant cur == addr / Pow256(x)
    {
      OctetStep(addr, x, cur);
      parts := [DecStr(BitAnd(cur, 0xff))] + parts;
      cur := cur / 256;
      x := x + 1;
    }
    s := Join(parts, ".");
  }

  /** One pass of the to_dotted loop: the low byte is the next octet, and the shift moves to the one above. */
  lemma OctetStep(addr: int, x: nat, cur: int)
    requires cur == addr / Pow256(x)
    ensures [DecStr(BitAnd(cur, 0xff))] + OctetStrs(addr, x) == OctetStrs(addr, x + 1)
    ensures cur / 256 == addr / Pow256(x + 1)
  {
    AndLowOnes(cur, 8);
    assert Pow2(8) == 256;
    assert BitAnd(cur, 0xff) == Octet(addr, x);
    assert OctetStrs(addr, x + 1) == [DecStr(Octet(addr, x))] + OctetStrs(addr, x);
    DivDiv(addr, Pow256(x), 256);
    assert Pow256(x + 1) == Pow256(x) * 256;
  }

  /** Four octet values, the most significant first, combined as from_dotted does. */
  function Combine(v3: int, v2: int, v1: int, v0: int): int
  {
    ((v3 * 256 + v2) * 256 + v1) * 256 + v0
  }

  /** A 32-bit value is its four octets recombined. */
  lemma Recompose(a: int)
    requires 0 <= a < 0x1_0000_0000
    ensures a == Combine(Octet(a, 3), Octet(a, 2), Octet(a, 1), Octet(a, 0))
  {
    assert Pow256(1) == 256 && Pow256(2) == 65536 && Pow256(3) == 16777216;
    var b1 := a / 256;
    DivDiv(a, 256, 256);
    DivDiv(a, 65536, 256);
    var b2 := b1 / 256;
    var b3 := b2 / 256;
    assert a == 256 * b1 + a % 256;
    assert b1 == 256 * b2 + b1 % 256;
    assert b2 == 256 * b3 + b2 % 256;
    assert b3 < 256;
  }

  /** Octets below 256 come back out of their combination. */
  lemma OctetsOfCombine(v3: int, v2: int, v1: int, v0: int)
    requires 0 <= v3 < 256 && 0 <= v2 < 256 && 0 <= v1 < 256 && 0 <= v0 < 256
    ensures 0 <= Combine(v3, v2, v1, v0) < 0x1_0000_0000
    ensures Octet(Combine(v3, v2, v1, v0), 3) == v3 && Octet(Combine(v3, v2, v1, v0), 2) == v2
    ensures Octet(Combine(v3, v2, v1, v0), 1) == v1 && Octet(Combine(v3, v2, v1, v0), 0) == v0
  {
    assert Pow256(1) == 256 && Pow256(2) == 65536 && Pow256(3) == 16777216;
    var a := Combine(v3, v2, v1, v0);
    var c2 := (v3 * 256 + v2) * 256 + v1;
    var c1 := v3 * 256 + v2;
    DivModUnique(a, 256, c2, v0);
    DivModUnique(c2, 256, c1, v1);
    DivModUnique(c1, 256, v3, v2);
    DivDiv(a, 256, 256);
    DivDiv(a, 65536, 256);
    DivModUnique(v3, 256, 0, v3);
  }

  /** A numeral never contains a dot. */
  lemma DigitsHaveNoDot(s: string)
    requires IsDigits(s, 10)
    ensures '.' !in s
  {
  }

  lemma OctetStrsFour(a: int)
    ensures OctetStrs(a, 4) == [DecStr(Octet(a, 3)), DecStr(Octet(a, 2)), DecStr(Octet(a, 1)), DecStr(Octet(a, 0))]
  {
    assert OctetStrs(a, 1) == [DecStr(Octet(a, 0))];
    assert OctetStrs(a, 2) == [DecStr(Octet(a, 1)), DecStr(Octet(a, 0))];
    assert OctetStrs(a, 3) == [DecStr(Octet(a, 2)), DecStr(Octet(a, 1)), DecStr(Octet(a, 0))];
  }

  lemma OctetStrsNoDot(a: int)
    ensures forall i | 0 <= i < 4 :: '.' !in OctetStrs(a, 4)[i]
  {
    OctetStrsFour(a);
    forall i | 0 <= i < 4
      ensures '.' !in OctetStrs(a, 4)[i]
    {
      DigitsHaveNoDot(OctetStrs(a, 4)[i]);
    }
  }

  /** from_dotted over four pieces that int() accepts. */
  lemma ShiftAddFour(parts: seq<string>, v3: int, v2: int, v1: int, v0: int)
    requires |parts| == 4
    requires ParseInt(parts[0], 10) == Some(v3) && ParseInt(parts[1], 10) == Some(v2)
    requires ParseInt(parts[2], 10) == Some(v1) && ParseInt(parts[3], 10) == Some(v0)
    ensures ShiftAdd(parts) == Some(Combine(v3, v2, v1, v0))
  {
    var vs := [v3, v2, v1, v0];
    assert forall i | 0 <= i < 4 :: ParseInt(parts[i], 10) == Some(vs[i]);
    ShiftAddAll(parts, vs);
    RadixFour(v3, v2, v1, v0);
  }

  lemma RadixFour(v3: int, v2: int, v1: int, v0: int)
    ensures Radix256([v3, v2, v1, v0]) == Combine(v3, v2, v1, v0)
  {
    assert [v3][..0] == [];
    assert Radix256([v3]) == v3;
    assert [v3, v2][..1] == [v3];
    assert Radix256([v3, v2]) == v3 * 256 + v2;
    assert [v3, v2, v1][..2] == [v3, v2];
    assert Radix256([v3, v2, v1]) == (v3 * 256 + v2) * 256 + v1;
    assert [v3, v2, v1, v0][..3] == [v3, v2, v1];
  }

  /** The octet values read as digits of a base-256 numeral. */
  function Radix256(vs: seq<int>): int
  {
    if vs == [] then 0 else Radix256(vs[..|vs| - 1]) * 256 + vs[|vs| - 1]
  }

  /** from_dotted over pieces that int() accepts: their values in base 256. */
  lemma {:induction false} ShiftAddAll(parts: seq<string>, vs: seq<int>)
    requires |parts| == |vs|
    requires forall i | 0 <= i < |parts| :: ParseInt(parts[i], 10) == Some(vs[i])
    ensures ShiftAdd(parts) == Some(Radix256(vs))
  {
    if parts != [] {
      var n := |parts| - 1;
      assert forall i | 0 <= i < n :: parts[..n][i] == parts[i];
      ShiftAddAll(parts[..n], vs[..n]);
      var acc := Radix256(vs[..n]);
      ShiftAddStep(parts, n, acc, vs[n], acc * 256 + vs[n]);
      assert parts[..n + 1] == parts;
    }
  }

  /** Reading back what to_dotted writes gives the address, for every 32-bit value. */
  lemma DottedValueRoundTrip(a: int)
    requires 0 <= a < 0x1_0000_0000
    ensures DottedValue(DottedText(a)) == Some(a)
  {
    var parts := OctetStrs(a, 4);
    OctetStrsFour(a);
    OctetStrsNoDot(a);
    SplitJoin(parts, '.');
    assert Split(DottedText(a), '.') == parts;
    ParseIntStr(Octet(a, 3));
    ParseIntStr(Octet(a, 2));
    ParseIntStr(Octet(a, 1));
    ParseIntStr(Octet(a, 0));
    ShiftAddFour(parts, Octet(a, 3), Octet(a, 2), Octet(a, 1), Octet(a, 0));
    Recompose(a);
  }

  /** A dotted quad in the form to_dotted writes: four canonical octets up to 255. */
  predicate CanonicalQuad(s: string)
  {
    var parts := Split(s, '.');
    |parts| == 4 && forall i | 0 <= i < 4 :: Canonical(parts[i]) && DigitsValue(parts[i], 10) <= 255
  }

  /** int() of a canonical numeral is its value. */
  lemma ParseCanonical(p: string)
    requires Canonical(p)
    ensures ParseInt(p, 10) == Some(DigitsValue(p, 10))
  {
    DecStrOfValue(p);
    ParseIntStr(DigitsValue(p, 10));
  }

  /** The value of each piece of a canonical quad. */
  function QuadValues(s: string): (v: seq<int>)
    requires CanonicalQuad(s)
    ensures |v| == 4 && forall i | 0 <= i < 4 :: 0 <= v[i] < 256
  {
    var parts := Split(s, '.');
    seq(4, i requires 0 <= i < 4 => DigitsValue(parts[i], 10))
  }

  lemma CanonicalQuadValue(s: string)
    requires CanonicalQuad(s)
    ensures DottedValue(s) == Some(Combine(QuadValues(s)[0], QuadValues(s)[1], QuadValues(s)[2], QuadValues(s)[3]))
  {
    var parts := Split(s, '.');
    var v := QuadValues(s);
    ParseCanonical(parts[0]);
    ParseCanonical(parts[1]);
    ParseCanonical(parts[2]);
    ParseCanonical(parts[3]);
    ShiftAddFour(parts, v[0], v[1], v[2], v[3]);
  }

  lemma CanonicalQuadText(s: string)
    requires CanonicalQuad(s)
    ensures OctetStrs(Combine(QuadValues(s)[0], QuadValues(s)[1], QuadValues(s)[2], QuadValues(s)[3]), 4) == Split(s, '.')
  {
    var parts := Split(s, '.');
    var v := QuadValues(s);
    var a := Combine(v[0], v[1], v[2], v[3]);
    OctetsOfCombine(v[0], v[1], v[2], v[3]);
    OctetStrsFour(a);
    forall i | 0 <= i < 4
      ensures DecStr(v[i]) == parts[i]
    {
      DecStrOfValue(parts[i]);
    }
    FourOf(parts);
  }

  /** A sequence of four is the display of its elements. */
  lemma FourOf<T>(x: seq<T>)
    requires |x| == 4
    ensures x == [x[0], x[1], x[2], x[3]]
  {
  }

  /** Writing back what from_dotted reads gives the same text, for canonical quads. */
  lemma DottedTextRoundTrip(s: string)
    requires CanonicalQuad(s)
    ensures DottedValue(s).Some? && DottedText(DottedValue(s).value) == s
  {
    CanonicalQuadValue(s);
    CanonicalQuadText(s);
    JoinSplit(s, '.');
  }

  // ------------------------------------------------------------ hex text

  function HexDigitChar(d: nat): (c: char)
    requires d < 16
    ensures DigitValue(c, 16) == Some(d) && DigitOf(c, 16) == d
    ensures !IsSpace(c) && c != '+' && c != '-'
  {
    if d < 10 then ('0' as int + d) as char else ('A' as int + d - 10) as char
  }

  /** One byte as two upper-case hex digits. */
  function HexByte(b: int): string
    requires 0 <= b < 256
  {
    [HexDigitChar(b / 16), HexDigitChar(b % 16)]
  }

  /** An address as /proc/net/route prints it: bytes least significant first. */
  function HexText(a: int): string
  {
    HexByte(Octet(a, 0)) + HexByte(Octet(a, 1)) + HexByte(Octet(a, 2)) + HexByte(Octet(a, 3))
  }

  lemma ParseHexByte(b: int)
    requires 0 <= b < 256
    ensures PairValue(HexByte(b)) == Some(b)
  {
    var t := HexByte(b);
    StripUnchanged(t);
    assert t[..1] == [t[0]] && t[..1][..0] == [];
    assert DigitsValue(t[..1], 16) == b / 16;
    assert DigitsValue(t, 16) == (b / 16) * 16 + b % 16;
    assert IsDigits(t, 16);
  }

  /** One turn of the from_hex loop. */
  lemma HexFoldStep(acc: int, rest: string, p: int)
    requires |rest| >= 2 && PairValue(rest[|rest| - 2..]) == Some(p)
    ensures HexFold(acc, rest) == HexFold(acc * 256 + p, rest[..|rest| - 2])
  {
  }

  /** from_hex reads back every 32-bit value written in the route-table form. */
  lemma HexRoundTrip(a: int)
    requires 0 <= a < 0x1_0000_0000
    ensures HexValue(HexText(a)) == Some(a)
  {
    HexBytesRead(Octet(a, 0), Octet(a, 1), Octet(a, 2), Octet(a, 3));
    Recompose(a);
  }

  /** Four bytes written least significant first read back as their combination. */
  lemma HexBytesRead(o0: int, o1: int, o2: int, o3: int)
    requires 0 <= o0 < 256 && 0 <= o1 < 256 && 0 <= o2 < 256 && 0 <= o3 < 256
    ensures HexValue(HexByte(o0) + HexByte(o1) + HexByte(o2) + HexByte(o3)) == Some(Combine(o3, o2, o1, o0))
  {
    var b0, b1, b2 := HexByte(o0), HexByte(o1), HexByte(o2);
    var v2, v1 := o3 * 256 + o2, (o3 * 256 + o2) * 256 + o1;
    HexFoldByte(0, b0 + b1 + b2, o3);
    HexFoldByte(o3, b0 + b1, o2);
    HexFoldByte(v2, b0, o1);
    assert b0 == [] + b0;
    HexFoldByte(v1, [], o0);
  }

  /** Reading a trailing byte shifts it into the accumulator. */
  lemma HexFoldByte(acc: int, s: string, b: int)
    requires 0 <= b < 256
    ensures HexFold(acc, s + HexByte(b)) == HexFold(acc * 256 + b, s)
  {
    var t := s + HexByte(b);
    ParseHexByte(b);
    assert t[|t| - 2..] == HexByte(b) && t[..|t| - 2] == s;
  }

  // ------------------------------------------------------------ IP(...) facts

  /** A numeral of at most two digits: too short for hex and without dots. */
  lemma ShortNumeral(n: nat)
    requires n < 100
    ensures |DecStr(n)| <= 2 && Count(DecStr(n), '.') == 0
  {
    var d := DecStr(n);
    DigitsHaveNoDot(d);
    CountAbsent(d, '.');
  }

  lemma {:induction false} CountAbsent(s: string, c: char)
    requires c !in s
    ensures Count(s, c) == 0
    decreases |s|
  {
    if s != [] {
      CountAbsent(s[1..], c);
    }
  }

  /** A decimal number below 32, given as text or as an int, is a prefix length. */
  lemma ParsePrefixLength(n: nat)
    requires n < 32
    ensures ParseAddr(Chars(DecStr(n))) == Ok(PrefixMask(n))
    ensures ParseAddr(Number(n)) == Ok(PrefixMask(n))
  {
    ShortNumeral(n);
    ParseIntStr(n);
  }

  /**
   * A decimal number of 32 or more, given as text, is taken as a raw address,
   * unless the numeral is eight characters long (`ParseEightDigits`).
   */
  lemma ParseRawNumber(n: nat)
    requires 32 <= n && |DecStr(n)| != 8
    ensures ParseAddr(Chars(DecStr(n))) == Ok(n)
  {
    var d := DecStr(n);
    DigitsHaveNoDot(d);
    CountAbsent(d, '.');
    ParseIntStr(n);
  }

  /**
   * Eight decimal digits are taken by `from_hex` before `int()` is tried:
   * the pairs are read in base 16, the last pair as the high byte.
   */
  lemma ParseEightDigits(d: string)
    requires |d| == 8 && IsDigits(d, 10)
    ensures ParseAddr(Chars(d)) == Ok(DigitsValue(d[6..], 16) * 0x100_0000 + DigitsValue(d[4..6], 16) * 0x1_0000
                                      + DigitsValue(d[2..4], 16) * 0x100 + DigitsValue(d[..2], 16))
  {
    var v := DigitsValue(d[6..], 16) * 0x100_0000 + DigitsValue(d[4..6], 16) * 0x1_0000
             + DigitsValue(d[2..4], 16) * 0x100 + DigitsValue(d[..2], 16);
    EightDigitsHex(d, v);
    DigitsHaveNoDot(d);
    CountAbsent(d, '.');
    HexBeforeInt(d, v);
  }

  /** `from_hex` reads eight decimal digits as four base-16 pairs. */
  lemma EightDigitsHex(d: string, v: int)
    requires |d| == 8 && IsDigits(d, 10)
    requires v == DigitsValue(d[6..], 16) * 0x100_0000 + DigitsValue(d[4..6], 16) * 0x1_0000
                  + DigitsValue(d[2..4], 16) * 0x100 + DigitsValue(d[..2], 16)
    ensures HexValue(d) == Some(v)
  {
    DecimalPair(d[6..]);
    DecimalPair(d[4..6]);
    DecimalPair(d[2..4]);
    DecimalPair(d[..2]);
    HexPairs(d, DigitsValue(d[6..], 16), DigitsValue(d[4..6], 16), DigitsValue(d[2..4], 16), DigitsValue(d[..2], 16), v);
  }

  /** `from_hex` on eight characters: four base-16 pairs, the last one high. */
  lemma HexPairs(d: string, b3: int, b2: int, b1: int, b0: int, v: int)
    requires |d| == 8 && v == b3 * 0x100_0000 + b2 * 0x1_0000 + b1 * 0x100 + b0
    requires PairValue(d[6..]) == Some(b3) && PairValue(d[4..6]) == Some(b2)
    requires PairValue(d[2..4]) == Some(b1) && PairValue(d[..2]) == Some(b0)
    ensures HexValue(d) == Some(v)
  {
    var d6, d4, d2 := d[..6], d[..4], d[..2];
    assert d6[4..] == d[4..6] && d6[..4] == d4;
    assert d4[2..] == d[2..4] && d4[..2] == d2;
    assert d2[..0] == [];
    HexFoldPair(0, d, b3, b3);
    HexFoldPair(b3, d6, b2, b3 * 256 + b2);
    HexFoldPair(b3 * 256 + b2, d4, b1, (b3 * 256 + b2) * 256 + b1);
    HexFoldPair((b3 * 256 + b2) * 256 + b1, d2, b0, ((b3 * 256 + b2) * 256 + b1) * 256 + b0);
  }

  /** Text that is not a dotted quad but passes `from_hex` never reaches `int()`. */
  lemma HexBeforeInt(s: string, v: int)
    requires Count(s, '.') == 0 && HexValue(s) == Some(v)
    ensures ParseAddr(Chars(s)) == Ok(v)
  {
  }

  /** One round of the from_hex loop: the last pair is shifted into the accumulator. */
  lemma HexFoldPair(acc: int, rest: string, p: int, next: int)
    requires |rest| >= 2 && PairValue(rest[|rest| - 2..]) == Some(p) && next == acc * 256 + p
    ensures HexFold(acc, rest) == HexFold(next, rest[..|rest| - 2])
  {
  }

  /** Two decimal digits are one byte to `int(pair, 16)`. */
  lemma DecimalPair(pair: string)
    requires |pair| == 2 && IsDigits(pair, 10)
    ensures PairValue(pair) == Some(DigitsValue(pair, 16))
  {
    StripUnchanged(pair);
    assert IsDigits(pair, 16) by {
      forall i | 0 <= i < |pair|
        ensures DigitValue(pair[i], 16).Some?
      {
        assert DigitValue(pair[i], 10).Some?;
      }
    }
  }

  /** Every 32-bit address parses back from its dotted text. */
  lemma ParseDotted(a: int)
    requires 0 <= a < 0x1_0000_0000
    ensures ParseAddr(Chars(DottedText(a))) == Ok(a)
  {
    DottedValueRoundTrip(a);
  }

  /** Every 32-bit address parses back from its route-table hex text. */
  lemma ParseHex(a: int)
    requires 0 <= a < 0x1_0000_0000
    ensures ParseAddr(Chars(HexText(a))) == Ok(a)
  {
    HexRoundTrip(a);
    assert |HexText(a)| == 8;
    HexTextHasNoDot(a);
  }

  lemma HexTextHasNoDot(a: int)
    ensures Count(HexText(a), '.') == 0
  {
    CountAbsent(HexText(a), '.');
  }

  // ------------------------------------------------------------ subnets

  lemma DivBelow(a: int, p: int, q: int)
    requires 0 <= a < p * q && q > 0 && p > 0
    ensures 0 <= a / q < p
  {
    if a / q >= p {
      MulAtLeast(q, a / q - p + 1);
      DivModSplit(a, q);
    }
  }

  lemma MulCancel(x: int, y: int, p: int)
    requires p > 0
    ensures x * p == y * p <==> x == y
  {
    if x < y {
      MulAtLeast(p, y - x);
    } else if x > y {
      MulAtLeast(p, x - y);
    }
  }

  /** Masking a 32-bit address with an n-bit prefix mask keeps its top n bits. */
  lemma MaskKeepsPrefix(a: int, n: nat)
    requires 0 <= a < 0x1_0000_0000 && n <= 32
    ensures BitAnd(a, PrefixMask(n)) == (a / Pow2(32 - n)) * Pow2(32 - n)
  {
    Pow2Values();
    PrefixKept(a, n, 32);
  }

  /** The same for a w-bit value and n ones followed by w - n zeros. */
  lemma PrefixKept(a: int, n: nat, w: nat)
    requires 0 <= a < Pow2(w) && n <= w
    ensures BitAnd(a, (Pow2(n) - 1) * Pow2(w - n)) == (a / Pow2(w - n)) * Pow2(w - n)
  {
    var p := Pow2(w - n);
    AndShift(a, Pow2(n) - 1, w - n);
    AndLowOnes(a / p, n);
    Pow2Add(n, w - n);
    DivBelow(a, Pow2(n), p);
    DivModUnique(a / p, Pow2(n), 0, a / p);
  }

  /**
   * in_subnet under an n-bit prefix mask holds exactly when the two 32-bit
   * addresses share their top n bits.
   */
  lemma InSubnetPrefix(a: int, b: int, n: nat)
    requires 0 <= a < 0x1_0000_0000 && 0 <= b < 0x1_0000_0000 && n <= 32
    ensures InSubnet(a, b, PrefixMask(n)) <==> a / Pow2(32 - n) == b / Pow2(32 - n)
  {
    MaskKeepsPrefix(a, n);
    MaskKeepsPrefix(b, n);
    MulCancel(a / Pow2(32 - n), b / Pow2(32 - n), Pow2(32 - n));
  }

  /** 127.0.0.1, as `IP('127.0.0.1')` reads it. */
  const LoopbackAddr: int := 0x7F00_0001

  /** `Interfaces.is_loopback`: in the subnet of 127.0.0.1 under mask `IP(8)`. */
  predicate IsLoopback(addr: int)
  {
    InSubnet(LoopbackAddr, addr, PrefixMask(8))
  }

  /** The constants is_loopback builds from text and from the int 8. */
  lemma LoopbackConstants()
    ensures ParseAddr(Chars("127.0.0.1")) == Ok(LoopbackAddr)
    ensures ParseAddr(Number(8)) == Ok(PrefixMask(8))
  {
    LoopbackText();
    ParseDotted(LoopbackAddr);
    ParsePrefixLength(8);
  }

  lemma LoopbackText()
    ensures DottedText(LoopbackAddr) == "127.0.0.1"
  {
    assert Pow256(1) == 256 && Pow256(2) == 65536 && Pow256(3) == 16777216;
    assert Octet(LoopbackAddr, 3) == 127 && Octet(LoopbackAddr, 2) == 0;
    assert Octet(LoopbackAddr, 1) == 0 && Octet(LoopbackAddr, 0) == 1;
    OctetStrsFour(LoopbackAddr);
    assert DecStr(127) == "127" && DecStr(0) == "0" && DecStr(1) == "1";
  }

  /** A quotient pins its dividend to one interval. */
  lemma DivIs(x: int, d: int, q: int)
    requires d > 0
    ensures x / d == q <==> d * q <= x < d * q + d
  {
    DivModSplit(x, d);
    if d * q <= x < d * q + d {
      DivModUnique(x, d, q, x - d * q);
    }
  }

  /** is_loopback holds for a 32-bit address exactly when it lies in 127.0.0.0/8. */
  lemma LoopbackRange(x: int)
    requires 0 <= x < 0x1_0000_0000
    ensures IsLoopback(x) <==> 0x7F00_0000 <= x < 0x8000_0000
  {
    Pow2Values();
    assert 32 - 8 == 24;
    InSubnetPrefix(LoopbackAddr, x, 8);
    DivModUnique(LoopbackAddr, 0x100_0000, 127, 1);
    DivIs(x, 0x100_0000, 127);
  }

  // ------------------------------------------------------------ specificity

  /** The number of one bits of a natural number. */
  function PopCount(a: nat): nat
  {
    if a == 0 then 0 else a % 2 + PopCount(a / 2)
  }

  /**
   * `IP.__len__` as written: the loop counts the one bits in `x` but the
   * method returns `a`, which the loop has driven to 0.  A negative address
   * would never reach 0 (`-1 >> 1` is -1), hence the precondition.
   */
  method LenAsWritten(addr: int) returns (len: int)
    requires addr >= 0
    ensures len == 0
  {
    var x := 0;
    var a := addr;
    while a != 0
      invariant a >= 0 && x + PopCount(a) == PopCount(addr)
      decreases a
    {
      AndLowOnes(a, 1);
      x := x + BitAnd(a, 1);
      a := a / 2;
    }
    len := a;
  }

  /** The number of one bits in the 32-bit pattern of an address. */
  function Ones32(addr: int): nat
  {
    PopCount(addr % 0x1_0000_0000)
  }

  /**
   * `IP.__len__` as evidently intended: the number of one bits of the
   * 32-bit pattern, so that a longer mask compares as more specific.
   */
  method Specificity(addr: int) returns (bits: nat)
    ensures bits == Ones32(addr)
  {
    Pow2Values();
    var x := 0;
    var a := addr % 0x1_0000_0000;
    while a != 0
      invariant a >= 0 && x + PopCount(a) == Ones32(addr)
      decreases a
    {
      AndLowOnes(a, 1);
      x := x + BitAnd(a, 1);
      a := a / 2;
    }
    bits := x;
  }

  lemma {:induction false} PopCountShifted(v: nat, k: nat)
    ensures PopCount(v * Pow2(k)) == PopCount(v)
    decreases k
  {
    if k > 0 && v > 0 {
      var y := v * Pow2(k - 1);
      ShiftArith(v, Pow2(k - 1), 0);
      assert v * Pow2(k) == 2 * y;
      assert (2 * y) % 2 == 0 && (2 * y) / 2 == y;
      PopCountShifted(v, k - 1);
    } else if k == 0 {
      assert v * Pow2(k) == v;
    } else {
      assert v * Pow2(k) == 0;
    }
  }

  lemma {:induction false} PopCountLowOnes(n: nat)
    ensures PopCount(Pow2(n) - 1) == n
    decreases n
  {
    if n > 0 {
      var m := Pow2(n) - 1;
      assert m % 2 == 1 && m / 2 == Pow2(n - 1) - 1;
      PopCountLowOnes(n - 1);
    }
  }

  lemma PrefixMaskBelow(n: nat)
    requires n <= 32
    ensures 0 <= PrefixMask(n) < 0x1_0000_0000
  {
    OnesThenZerosBelow(n, 32);
    Pow2Values();
  }

  /** n one bits followed by w - n zero bits fit in w bits. */
  lemma OnesThenZerosBelow(n: nat, w: nat)
    requires n <= w
    ensures 0 <= (Pow2(n) - 1) * Pow2(w - n) < Pow2(w)
  {
    Pow2Add(n, w - n);
    BelowProduct(Pow2(n), Pow2(w - n));
  }

  lemma BelowProduct(k: int, p: int)
    requires k >= 1 && p >= 1
    ensures 0 <= (k - 1) * p < k * p
  {
    assert (k - 1) * p == k * p - p;
  }

  /** An n-bit prefix mask has specificity n, so longer prefixes compare as more specific. */
  lemma PrefixSpecificity(n: nat)
    requires n <= 32
    ensures Ones32(PrefixMask(n)) == n
  {
    PopCountShifted(Pow2(n) - 1, 32 - n);
    PopCountLowOnes(n);
    PrefixMaskBelow(n);
    Pow2Values();
    DivModUnique(PrefixMask(n), Pow2(32), 0, PrefixMask(n));
  }
}
