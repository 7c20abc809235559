/** java.util.UUID as far as the state file uses it: the canonical string form of
    section 3 of RFC 4122 (toString) and the parser (UUID.fromString) of current JDKs.
    A UUID is held as its five RFC 4122 fields rather than as Java's two 64-bit halves;
    the two layouts are in bijection, so equality is the same. */
module Uuids {
  import opened Optional

  type Bits16 = x: nat | x < 0x1_0000
  type Bits32 = x: nat | x < 0x1_0000_0000
  type Bits48 = x: nat | x < 0x1_0000_0000_0000

  /** Largest value Long.parseLong accepts, plus one. */
  const LongLimit: nat := 0x8000_0000_0000_0000

  datatype Uuid = Uuid(timeLow: Bits32, timeMid: Bits16, timeHiAndVersion: Bits16,
                       clockSeq: Bits16, node: Bits48)

  predicate IsHexDigit(c: char)
  {
    '0' <= c <= '9' || 'a' <= c <= 'f' || 'A' <= c <= 'F'
  }

  predicate AllHex(s: string)
  {
    forall k | 0 <= k < |s| :: IsHexDigit(s[k])
  }

  function DigitValue(c: char): (d: nat)
    requires IsHexDigit(c)
    ensures d < 16
  {
    if '0' <= c <= '9' then c as int - '0' as int
    else if 'a' <= c <= 'f' then c as int - 'a' as int + 10
    else c as int - 'A' as int + 10
  }

  /** The lower-case digit Java prints for a nibble. */
  function DigitChar(d: nat): (c: char)
    requires d < 16
    ensures IsHexDigit(c) && DigitValue(c) == d
    ensures !('A' <= c <= 'F')
  {
    if d < 10 then ('0' as int + d) as char else ('a' as int + d - 10) as char
  }

  /** A digit as Java prints it: hexadecimal and never an upper-case letter. */
  predicate IsLowerHex(c: char)
  {
    IsHexDigit(c) && !('A' <= c <= 'F')
  }

  function Pow16(n: nat): (p: nat)
    ensures p >= 1
  {
    if n == 0 then 1 else 16 * Pow16(n - 1)
  }

  /** `n` lower-case hexadecimal digits of `v`, zero-padded on the left. */
  function Hex(v: nat, n: nat): (s: string)
    ensures |s| == n && AllHex(s)
    ensures forall k | 0 <= k < |s| :: IsLowerHex(s[k])
    ensures '-' !in s
  {
    if n == 0 then [] else Hex(v / 16, n - 1) + [DigitChar(v % 16)]
  }

  /** Digits read most significant first, as Long.parseLong does in radix 16. */
  function HexValue(s: string): nat
    requires AllHex(s)
  {
    if |s| == 0 then 0 else 16 * HexValue(s[..|s| - 1]) + DigitValue(s[|s| - 1])
  }

  lemma {:induction false} HexValueOfHex(v: nat, n: nat)
    requires v < Pow16(n)
    ensures HexValue(Hex(v, n)) == v
  {
    if n > 0 {
      var s := Hex(v, n);
      assert s[..n - 1] == Hex(v / 16, n - 1);
      assert v / 16 < Pow16(n - 1);
      HexValueOfHex(v / 16, n - 1);
    }
  }

  /** UUID.toString: 8-4-4-4-12 lower-case hexadecimal digits. */
  function ToString(u: Uuid): (s: string)
    ensures |s| == 36
    ensures forall k | 0 <= k < |s| :: s[k] == '-' <==> k == 8 || k == 13 || k == 18 || k == 23
    ensures forall k | 0 <= k < |s| :: s[k] == '-' || IsLowerHex(s[k])
  {
    Layout(Hex(u.timeLow, 8), Hex(u.timeMid, 4), Hex(u.timeHiAndVersion, 4), Hex(u.clockSeq, 4), Hex(u.node, 12));
    Hex(u.timeLow, 8) + "-" + Hex(u.timeMid, 4) + "-" + Hex(u.timeHiAndVersion, 4) + "-"
      + Hex(u.clockSeq, 4) + "-" + Hex(u.node, 12)
  }

  /** Groups of 8, 4, 4, 4 and 12 lower-case digits joined by dashes have dashes
      exactly at positions 8, 13, 18 and 23. */
  lemma Layout(a: string, b: string, c: string, d: string, e: string)
    requires |a| == 8 && |b| == 4 && |c| == 4 && |d| == 4 && |e| == 12
    requires forall k | 0 <= k < |a| :: IsLowerHex(a[k])
    requires forall k | 0 <= k < |b| :: IsLowerHex(b[k])
    requires forall k | 0 <= k < |c| :: IsLowerHex(c[k])
    requires forall k | 0 <= k < |d| :: IsLowerHex(d[k])
    requires forall k | 0 <= k < |e| :: IsLowerHex(e[k])
    ensures var s := a + "-" + b + "-" + c + "-" + d + "-" + e;
      && |s| == 36
      && (forall k | 0 <= k < |s| :: s[k] == '-' <==> k == 8 || k == 13 || k == 18 || k == 23)
      && (forall k | 0 <= k < |s| :: s[k] == '-' || IsLowerHex(s[k]))
  {
    var s := a + "-" + b + "-" + c + "-" + d + "-" + e;
    forall k | 0 <= k < |s|
      ensures (s[k] == '-' <==> k == 8 || k == 13 || k == 18 || k == 23)
      ensures s[k] == '-' || IsLowerHex(s[k])
    {
      if k < 8 { assert s[k] == a[k]; }
      else if 8 < k < 13 { assert s[k] == b[k - 9]; }
      else if 13 < k < 18 { assert s[k] == c[k - 14]; }
      else if 18 < k < 23 { assert s[k] == d[k - 19]; }
      else if 23 < k { assert s[k] == e[k - 24]; }
    }
  }

  /** The pieces of `s` between dashes. */
  function Split(s: string): (parts: seq<string>)
    ensures |parts| == multiset(s)['-'] + 1
    ensures forall i | 0 <= i < |parts| :: '-' !in parts[i]
  {
    if |s| == 0 then [""]
    else
      var rest := Split(s[1..]);
      assert s == [s[0]] + s[1..];
      if s[0] == '-' then [""] + rest else [[s[0]] + rest[0]] + rest[1..]
  }

  lemma {:induction false} SplitNoDash(a: string)
    requires '-' !in a
    ensures Split(a) == [a]
  {
    if |a| > 0 {
      SplitNoDash(a[1..]);
      assert [a[0]] + a[1..] == a;
    }
  }

  lemma {:induction false} SplitAtDash(a: string, b: string)
    requires '-' !in a
    ensures Split(a + "-" + b) == [a] + Split(b)
  {
    var s := a + "-" + b;
    if |a| == 0 {
      assert s[1..] == b;
    } else {
      assert s[1..] == a[1..] + "-" + b;
      SplitAtDash(a[1..], b);
      assert [a[0]] + a[1..] == a;
    }
  }

  /** Long.parseLong(g, 16) on a dash-free group: no sign, at least one digit, and the
      value must fit a signed 64-bit long. */
  function ParseLong(g: string): (r: Option<nat>)
    ensures r.Some? <==> |g| > 0 && AllHex(g) && HexValue(g) < LongLimit
    ensures r.Some? ==> r.value == HexValue(g)
  {
    if |g| == 0 || !AllHex(g) then None
    else if HexValue(g) >= LongLimit then None
    else Some(HexValue(g))
  }

  /** UUID.fromString: longer than 36 characters, or not exactly four dashes, is an
      error; otherwise the five groups are parsed and masked to their field widths. */
  function FromString(s: string): (r: Option<Uuid>)
    ensures r.Some? ==> |s| <= 36 && multiset(s)['-'] == 4
  {
    if |s| > 36 then None
    else
      var g := Split(s);
      if |g| != 5 then None else FromGroups(g)
  }

  /** The five dash-separated groups, each parsed as a long and masked to its field. */
  function FromGroups(g: seq<string>): Option<Uuid>
    requires |g| == 5
  {
    var a, b, c, d, e := ParseLong(g[0]), ParseLong(g[1]), ParseLong(g[2]), ParseLong(g[3]),
                         ParseLong(g[4]);
    if a.None? || b.None? || c.None? || d.None? || e.None? then None
    else Some(Uuid(a.value % 0x1_0000_0000, b.value % 0x1_0000, c.value % 0x1_0000,
                   d.value % 0x1_0000, e.value % 0x1_0000_0000_0000))
  }

  lemma ParseHex(v: nat, n: nat)
    requires 0 < n && v < Pow16(n) <= 0x1_0000_0000_0000
    ensures ParseLong(Hex(v, n)) == Some(v)
  {
    HexValueOfHex(v, n);
  }

  lemma Pow16Widths()
    ensures Pow16(4) == 0x1_0000
    ensures Pow16(8) == 0x1_0000_0000
    ensures Pow16(12) == 0x1_0000_0000_0000
  {
    assert Pow16(2) == 0x100;
    assert Pow16(4) == 0x1_0000;
    assert Pow16(6) == 0x100_0000;
    assert Pow16(8) == 0x1_0000_0000;
    assert Pow16(10) == 0x100_0000_0000;
  }

  /** Dash-free groups joined by dashes split back into themselves. */
  lemma SplitJoined(groups: seq<string>)
    requires |groups| > 0
    requires forall i | 0 <= i < |groups| :: '-' !in groups[i]
    ensures Split(Joined(groups)) == groups
  {
    if |groups| == 1 {
      SplitNoDash(groups[0]);
    } else {
      SplitJoined(groups[1..]);
      SplitAtDash(groups[0], Joined(groups[1..]));
    }
  }

  function Joined(groups: seq<string>): string
    requires |groups| > 0
  {
    if |groups| == 1 then groups[0] else groups[0] + "-" + Joined(groups[1..])
  }

  lemma ToStringJoined(u: Uuid)
    ensures ToString(u) == Joined([Hex(u.timeLow, 8), Hex(u.timeMid, 4), Hex(u.timeHiAndVersion, 4),
                                   Hex(u.clockSeq, 4), Hex(u.node, 12)])
  {
    var g := [Hex(u.timeLow, 8), Hex(u.timeMid, 4), Hex(u.timeHiAndVersion, 4),
              Hex(u.clockSeq, 4), Hex(u.node, 12)];
    assert Joined(g[4..]) == g[4];
    assert Joined(g[3..]) == g[3] + "-" + g[4];
    assert Joined(g[2..]) == g[2] + "-" + (g[3] + "-" + g[4]);
    assert Joined(g[1..]) == g[1] + "-" + (g[2] + "-" + (g[3] + "-" + g[4]));
    assert Joined(g) == g[0] + "-" + (g[1] + "-" + (g[2] + "-" + (g[3] + "-" + g[4])));
  }

  /** Five groups that parse to the fields of `u` give `u`. */
  lemma FromGroupsOfFields(h1: string, h2: string, h3: string, h4: string, h5: string, u: Uuid)
    requires ParseLong(h1) == Some(u.timeLow as nat) && ParseLong(h2) == Some(u.timeMid as nat)
    requires ParseLong(h3) == Some(u.timeHiAndVersion as nat) && ParseLong(h4) == Some(u.clockSeq as nat)
    requires ParseLong(h5) == Some(u.node as nat)
    ensures FromGroups([h1, h2, h3, h4, h5]) == Some(u)
  {
  }

  lemma SplitToString(u: Uuid)
    ensures Split(ToString(u)) == [Hex(u.timeLow, 8), Hex(u.timeMid, 4), Hex(u.timeHiAndVersion, 4),
                                   Hex(u.clockSeq, 4), Hex(u.node, 12)]
  {
    ToStringJoined(u);
    SplitJoined([Hex(u.timeLow, 8), Hex(u.timeMid, 4), Hex(u.timeHiAndVersion, 4),
                 Hex(u.clockSeq, 4), Hex(u.node, 12)]);
  }

  lemma ParseFields(u: Uuid)
    ensures ParseLong(Hex(u.timeLow, 8)) == Some(u.timeLow as nat)
    ensures ParseLong(Hex(u.timeMid, 4)) == Some(u.timeMid as nat)
    ensures ParseLong(Hex(u.timeHiAndVersion, 4)) == Some(u.timeHiAndVersion as nat)
    ensures ParseLong(Hex(u.clockSeq, 4)) == Some(u.clockSeq as nat)
    ensures ParseLong(Hex(u.node, 12)) == Some(u.node as nat)
  {
    Pow16Widths();
    ParseHex(u.timeLow, 8);
    ParseHex(u.timeMid, 4);
    ParseHex(u.timeHiAndVersion, 4);
    ParseHex(u.clockSeq, 4);
    ParseHex(u.node, 12);
  }

  /** Reading back the canonical form yields the same UUID. */
  lemma FromStringToString(u: Uuid)
    ensures FromString(ToString(u)) == Some(u)
  {
    var h1, h2, h3, h4, h5 := Hex(u.timeLow, 8), Hex(u.timeMid, 4), Hex(u.timeHiAndVersion, 4),
                              Hex(u.clockSeq, 4), Hex(u.node, 12);
    SplitToString(u);
    ParseFields(u);
    FromGroupsOfFields(h1, h2, h3, h4, h5, u);
  }

  /** Distinct UUIDs have distinct canonical forms. */
  lemma ToStringInjective(u: Uuid, v: Uuid)
    ensures ToString(u) == ToString(v) ==> u == v
  {
    FromStringToString(u);
    FromStringToString(v);
  }
}
