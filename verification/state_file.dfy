/** The plugin's state file: the hand-written serialiser of saveState, the regular
    expression scan of loadState, and the loader's handling of missing, blank and
    rejected content. */
module StateFile {
  import opened Optional
  import opened Text
  import opened Uuids

  /** Player UUID -> body types enabled. */
  type Store = map<Uuid, bool>

  /** What the loader finds at the data file's path: nothing, a file whose reading
      throws, or decoded text. */
  datatype FileState = Absent | Unreadable | Contents(text: string)

  /** One match of the entry pattern: the 36-character group and the parsed boolean. */
  datatype Entry = Entry(id: string, flag: bool)

  const Header: string := "{\"players\":{"
  const Footer: string := "}}"

  /** `order` lists every key of the map exactly once, as a map's entry-set iteration does. */
  ghost predicate Enumerates(order: seq<Uuid>, keys: set<Uuid>)
  {
    && (forall i, j | 0 <= i < j < |order| :: order[i] != order[j])
    && (forall u :: u in keys <==> u in order)
  }

  // ---------- Serialiser ----------

  function BoolText(b: bool): string
  {
    if b then "true" else "false"
  }

  /** `"<uuid>":<true|false>` */
  function EntryText(u: Uuid, b: bool): string
  {
    "\"" + ToString(u) + "\":" + BoolText(b)
  }

  /** Pieces separated by commas, with no comma before the first. */
  function Join(pieces: seq<string>): string
  {
    if |pieces| == 0 then ""
    else if |pieces| == 1 then pieces[0]
    else pieces[0] + "," + Join(pieces[1..])
  }

  function Pieces(m: Store, order: seq<Uuid>): (ps: seq<string>)
    requires forall i | 0 <= i < |order| :: order[i] in m
    ensures |ps| == |order|
    ensures forall i | 0 <= i < |order| :: ps[i] == EntryText(order[i], m[order[i]])
  {
    seq(|order|, i requires 0 <= i < |order| => EntryText(order[i], m[order[i]]))
  }

  /** The text saveState writes when the map's entries come out in `order`. */
  function Serialize(m: Store, order: seq<Uuid>): (text: string)
    requires Enumerates(order, m.Keys)
    ensures StartsWith(text, Header)
    ensures |text| >= |Header| + |Footer| && text[|text| - |Footer|..] == Footer
  {
    Header + Join(Pieces(m, order)) + Footer
  }

  lemma {:induction false} JoinSnoc(ps: seq<string>, p: string)
    ensures Join(ps + [p]) == if |ps| == 0 then p else Join(ps) + "," + p
  {
    if |ps| > 1 {
      assert (ps + [p])[1..] == ps[1..] + [p];
      JoinSnoc(ps[1..], p);
    } else if |ps| == 1 {
      assert (ps + [p])[1..] == [p];
    }
  }

  /** One more piece extends the joined prefix by a comma (unless it is the first)
      and the piece. */
  lemma JoinPrefixStep(h: string, ps: seq<string>, i: nat, text: string)
    requires i < |ps|
    requires text == h + Join(ps[..i])
    ensures (if i == 0 then text else text + ",") + ps[i] == h + Join(ps[..i + 1])
  {
    assert ps[..i + 1] == ps[..i] + [ps[i]];
    JoinSnoc(ps[..i], ps[i]);
  }

  lemma EnumeratedInMap(m: Store, order: seq<Uuid>)
    requires Enumerates(order, m.Keys)
    ensures forall j | 0 <= j < |order| :: order[j] in m
  {
    forall j | 0 <= j < |order| ensures order[j] in m {
      assert order[j] in order;
    }
  }

  /** saveState's StringBuilder loop: a comma before every entry but the first. */
  method BuildText(m: Store, order: seq<Uuid>) returns (text: string)
    requires Enumerates(order, m.Keys)
    ensures text == Serialize(m, order)
  {
    EnumeratedInMap(m, order);
    ghost var ps := Pieces(m, order);
    text := Header;
    var first := true;
    var i := 0;
    while i < |order|
      invariant 0 <= i <= |order|
      invariant first <==> i == 0
      invariant text == Header + Join(ps[..i])
    {
      var piece := EntryText(order[i], m[order[i]]);
      assert piece == ps[i];
      JoinPrefixStep(Header, ps, i, text);
      if !first {
        text := text + ",";
      }
      first := false;
      text := text + piece;
      i := i + 1;
    }
    assert ps[..i] == ps;
    text := text + Footer;
  }

  /** A list that enumerates a key set is as long as the set. */
  lemma {:induction false} EnumerationSize(order: seq<Uuid>, keys: set<Uuid>)
    requires Enumerates(order, keys)
    ensures |order| == |keys|
  {
    if |order| > 0 {
      var u := order[0];
      var rest := order[1..];
      assert u in keys;
      forall v ensures v in keys - {u} <==> v in rest {
        if v in rest {
          var k :| 0 <= k < |rest| && rest[k] == v;
          assert order[k + 1] == v;
        }
        if v in keys && v != u {
          assert v in order;
          var k :| 0 <= k < |order| && order[k] == v;
          assert rest[k - 1] == v;
        }
      }
      EnumerationSize(rest, keys - {u});
    }
  }

  /** The empty map is written as `{"players":{}}`. */
  lemma SerializeEmpty(order: seq<Uuid>)
    requires Enumerates(order, {})
    ensures Serialize(map[], order) == "{\"players\":{}}"
  {
    EnumerationSize(order, {});
  }

  // ---------- Scanner ----------

  /** The pattern's character class [0-9a-fA-F\-]. */
  predicate IsIdChar(c: char)
  {
    IsHexDigit(c) || c == '-'
  }

  /** Java's \s: space, tab, newline, vertical tab, form feed, carriage return. */
  predicate IsPatternSpace(c: char)
  {
    c == ' ' || c == '\t' || c == '\n' || c == '\U{B}' || c == '\U{C}' || c == '\r'
  }

  /** Length of the greedy \s* run at the start of `s`. */
  function SpaceRun(s: string): (n: nat)
    ensures n <= |s|
    ensures forall k | 0 <= k < n :: IsPatternSpace(s[k])
    ensures n < |s| ==> !IsPatternSpace(s[n])
  {
    if |s| > 0 && IsPatternSpace(s[0]) then 1 + SpaceRun(s[1..]) else 0
  }

  /** Does `"([0-9a-fA-F\-]{36})"\s*:\s*(true|false)` match at the start of `s`?
      If so, the entry it yields and the length it consumes. The greedy runs are each
      followed by a non-space literal, so the match at a given start is unique. */
  function MatchAt(s: string): (r: Option<(Entry, nat)>)
    ensures r.Some? ==> 43 <= r.value.1 <= |s|
    ensures r.Some? ==> |s| >= 38 && s[0] == '"' && s[37] == '"' && IsIdChar(s[1])
    ensures r.Some? ==> r.value.0.id == s[1..37] && forall k | 1 <= k < 37 :: IsIdChar(s[k])
  {
    if |s| < 38 || s[0] != '"' || s[37] != '"' || !(forall k | 1 <= k < 37 :: IsIdChar(s[k])) then None
    else
      var a := 38 + SpaceRun(s[38..]);
      if a >= |s| || s[a] != ':' then None
      else
        var b := a + 1 + SpaceRun(s[a + 1..]);
        if StartsWith(s[b..], "true") then Some((Entry(s[1..37], true), b + 4))
        else if StartsWith(s[b..], "false") then Some((Entry(s[1..37], false), b + 5))
        else None
  }

  /** Repeated Matcher.find(): the leftmost match, then the search resumes at its end. */
  function Scan(s: string): (es: seq<Entry>)
    ensures forall e | e in es :: |e.id| == 36
    decreases |s|
  {
    if |s| == 0 then []
    else match MatchAt(s)
      case Some((e, n)) => [e] + Scan(s[n..])
      case None => Scan(s[1..])
  }

  /** A match is at least 43 characters long, so a text yields at most one entry per
      43 characters. */
  lemma {:induction false} ScanBound(s: string)
    ensures 43 * |Scan(s)| <= |s|
    decreases |s|
  {
    if |s| > 0 {
      match MatchAt(s)
      case Some((e, n)) =>
        ScanBound(s[n..]);
      case None =>
        ScanBound(s[1..]);
    }
  }

  /** Every group the scan reports is 36 characters of the pattern's class. */
  lemma {:induction false} ScanIds(s: string)
    ensures forall i, k | 0 <= i < |Scan(s)| && 0 <= k < 36 :: IsIdChar(Scan(s)[i].id[k])
    decreases |s|
  {
    if |s| > 0 {
      match MatchAt(s)
      case Some((e, n)) =>
        ScanIds(s[n..]);
        assert Scan(s) == [e] + Scan(s[n..]);
        forall k | 0 <= k < 36 ensures IsIdChar(e.id[k]) {
          assert e.id[k] == s[k + 1];
        }
      case None =>
        ScanIds(s[1..]);
    }
  }

  /** No match can start inside `x`: each quote is followed, within `x`, by a
      character outside the identifier class. */
  predicate Inert(x: string)
  {
    forall k | 0 <= k < |x| :: x[k] != '"' || (k + 1 < |x| && !IsIdChar(x[k + 1]))
  }

  lemma {:induction false} ScanSkipsInert(x: string, rest: string)
    requires Inert(x)
    ensures Scan(x + rest) == Scan(rest)
  {
    if |x| > 0 {
      var s := x + rest;
      assert s[0] == x[0];
      assert x[0] == '"' ==> s[1] == x[1];
      assert MatchAt(s).None?;
      assert Scan(s) == Scan(s[1..]);
      assert s[1..] == x[1..] + rest;
      assert Inert(x[1..]) by {
        forall k | 0 <= k < |x[1..]|
          ensures x[1..][k] != '"' || (k + 1 < |x[1..]| && !IsIdChar(x[1..][k + 1]))
        {
          assert x[1..][k] == x[k + 1];
        }
      }
      ScanSkipsInert(x[1..], rest);
    } else {
      assert x + rest == rest;
    }
  }

  /** A quoted 36-character identifier, a colon and a boolean form one match. */
  lemma ScanQuoted(id: string, b: bool, rest: string)
    requires |id| == 36 && forall k | 0 <= k < 36 :: IsIdChar(id[k])
    ensures Scan("\"" + id + "\":" + BoolText(b) + rest) == [Entry(id, b)] + Scan(rest)
  {
    var t := "\"" + id + "\":" + BoolText(b);
    var s := t + rest;
    assert |t| == 39 + |BoolText(b)|;
    assert s[0] == '"';
    assert forall k | 1 <= k < 37 :: s[k] == id[k - 1];
    assert s[1..37] == id;
    assert s[37] == '"' && s[38] == ':';
    assert SpaceRun(s[38..]) == 0;
    assert s[39..] == BoolText(b) + rest;
    assert SpaceRun(s[39..]) == 0 by {
      assert s[39] == BoolText(b)[0];
    }
    if b {
      assert StartsWith(s[39..], "true");
    } else {
      assert !StartsWith(s[39..], "true") by {
        assert s[39..][0] == 'f';
      }
      assert StartsWith(s[39..], "false");
    }
    assert MatchAt(s) == Some((Entry(id, b), |t|));
    assert s[|t|..] == rest;
  }

  lemma ScanEntry(u: Uuid, b: bool, rest: string)
    ensures Scan(EntryText(u, b) + rest) == [Entry(ToString(u), b)] + Scan(rest)
  {
    var id := ToString(u);
    assert forall k | 0 <= k < 36 :: IsIdChar(id[k]);
    ScanQuoted(id, b, rest);
  }

  /** The entries the serialised map must scan back to, in writing order. */
  function Expected(m: Store, order: seq<Uuid>): (es: seq<Entry>)
    requires forall i | 0 <= i < |order| :: order[i] in m
    ensures |es| == |order|
    ensures forall i | 0 <= i < |order| :: es[i] == Entry(ToString(order[i]), m[order[i]])
  {
    seq(|order|, i requires 0 <= i < |order| => Entry(ToString(order[i]), m[order[i]]))
  }

  /** Nothing is found in the closing braces. */
  lemma ScanFooter()
    ensures Scan(Footer) == []
  {
    assert Inert(Footer);
    ScanSkipsInert(Footer, "");
    assert Footer + "" == Footer;
  }

  /** A separating comma is skipped. */
  lemma ScanComma(tail: string)
    ensures Scan("," + tail) == Scan(tail)
  {
    assert Inert(",");
    ScanSkipsInert(",", tail);
  }

  /** A piece that scans as one entry, followed by a comma and more text. */
  lemma ScanCons(p: string, e: Entry, tail: string)
    requires forall rest :: Scan(p + rest) == [e] + Scan(rest)
    ensures Scan(p + ("," + tail)) == [e] + Scan(tail)
  {
    ScanComma(tail);
  }

  /** The last piece, followed by the closing braces. */
  lemma ScanLast(p: string, e: Entry)
    requires forall rest :: Scan(p + rest) == [e] + Scan(rest)
    ensures Scan(p + Footer) == [e]
  {
    ScanFooter();
  }

  /** Comma-joined pieces, each of which scans as one entry whatever follows it,
      scan as those entries. */
  lemma {:induction false} ScanJoined(ps: seq<string>, es: seq<Entry>)
    requires |ps| == |es|
    requires forall i, rest | 0 <= i < |ps| :: Scan(ps[i] + rest) == [es[i]] + Scan(rest)
    ensures Scan(Join(ps) + Footer) == es
  {
    if |ps| == 0 {
      assert Join(ps) + Footer == Footer;
      ScanFooter();
    } else if |ps| == 1 {
      ScanLast(ps[0], es[0]);
    } else {
      var tail := Join(ps[1..]) + Footer;
      assert Join(ps) + Footer == ps[0] + ("," + tail);
      ScanCons(ps[0], es[0], tail);
      ScanJoined(ps[1..], es[1..]);
      assert es == [es[0]] + es[1..];
    }
  }

  /** Scanning the saved text finds exactly the map's entries, in the order written. */
  lemma ScanSerialized(m: Store, order: seq<Uuid>)
    requires Enumerates(order, m.Keys)
    ensures Scan(Serialize(m, order)) == Expected(m, order)
  {
    assert Inert(Header);
    EnumeratedInMap(m, order);
    var ps := Pieces(m, order);
    var es := Expected(m, order);
    var body := Join(ps) + Footer;
    assert Serialize(m, order) == Header + body;
    ScanSkipsInert(Header, body);
    forall i, rest | 0 <= i < |ps| ensures Scan(ps[i] + rest) == [es[i]] + Scan(rest) {
      ScanEntry(order[i], m[order[i]], rest);
    }
    ScanJoined(ps, es);
  }

  // ---------- Loader ----------

  /** The body of the find() loop: UUID.fromString on each group, put into the map;
      None when a parse throws. */
  function Replay(es: seq<Entry>, acc: Store): (r: Option<Store>)
    ensures r.Some? ==> acc.Keys <= r.value.Keys
  {
    if |es| == 0 then Some(acc)
    else match FromString(es[0].id)
      case None => None
      case Some(u) => Replay(es[1..], acc[u := es[0].flag])
  }

  /** loadState applied to the map `m` it finds in memory. */
  function Load(file: FileState, m: Store): (r: Store)
    ensures file.Absent? ==> r == m
    ensures file.Unreadable? ==> r == map[]
    ensures file.Contents? && IsBlank(file.text) ==> r == m
  {
    match file
    case Absent => m
    case Unreadable => map[]
    case Contents(text) =>
      var json := Trim(text);
      if |json| == 0 then m
      else match Replay(Scan(json), map[])
        case Some(loaded) => loaded
        case None => map[]
  }

  /** The entries the loader's pattern finds in the file's text. */
  function Found(text: string): seq<Entry>
  {
    Scan(Trim(text))
  }

  /** The find() loop throws exactly when some matched group is not a UUID. */
  lemma {:induction false} ReplayRejects(es: seq<Entry>, acc: Store)
    ensures Replay(es, acc).None? <==> exists i | 0 <= i < |es| :: FromString(es[i].id).None?
  {
    if |es| > 0 {
      match FromString(es[0].id)
      case None =>
      case Some(u) =>
        ReplayRejects(es[1..], acc[u := es[0].flag]);
        if exists i | 0 <= i < |es[1..]| :: FromString(es[1..][i].id).None? {
          var i :| 0 <= i < |es[1..]| && FromString(es[1..][i].id).None?;
          assert es[i + 1] == es[1..][i];
        }
        if exists i | 0 <= i < |es| :: FromString(es[i].id).None? {
          var i :| 0 <= i < |es| && FromString(es[i].id).None?;
          assert es[1..][i - 1] == es[i];
        }
    }
  }

  /** A key no entry names keeps its value from the accumulator. */
  lemma {:induction false} ReplayUntouched(es: seq<Entry>, acc: Store, u: Uuid)
    requires Replay(es, acc).Some?
    requires forall j | 0 <= j < |es| :: FromString(es[j].id) != Some(u)
    ensures u in Replay(es, acc).value <==> u in acc
    ensures u in acc ==> Replay(es, acc).value[u] == acc[u]
  {
    if |es| > 0 {
      var v := FromString(es[0].id).value;
      forall j | 0 <= j < |es[1..]| ensures FromString(es[1..][j].id) != Some(u) {
        assert es[1..][j] == es[j + 1];
      }
      ReplayUntouched(es[1..], acc[v := es[0].flag], u);
    }
  }

  /** Keys of the loaded map: those already there and those some entry names. */
  lemma {:induction false} ReplayKeys(es: seq<Entry>, acc: Store, u: Uuid)
    requires Replay(es, acc).Some?
    ensures u in Replay(es, acc).value <==> u in acc || exists i | 0 <= i < |es| :: FromString(es[i].id) == Some(u)
  {
    if |es| > 0 {
      var v := FromString(es[0].id).value;
      ReplayKeys(es[1..], acc[v := es[0].flag], u);
      if exists i | 0 <= i < |es[1..]| :: FromString(es[1..][i].id) == Some(u) {
        var i :| 0 <= i < |es[1..]| && FromString(es[1..][i].id) == Some(u);
        assert es[i + 1] == es[1..][i];
      }
      if exists i | 0 <= i < |es| :: FromString(es[i].id) == Some(u) {
        var i :| 0 <= i < |es| && FromString(es[i].id) == Some(u);
        if i > 0 {
          assert es[1..][i - 1] == es[i];
        }
      }
    }
  }

  /** When a UUID is matched more than once, its last occurrence decides its flag. */
  lemma {:induction false} ReplayLastWins(es: seq<Entry>, acc: Store, i: nat)
    requires Replay(es, acc).Some?
    requires i < |es| && FromString(es[i].id).Some?
    requires forall j | i < j < |es| :: FromString(es[j].id) != FromString(es[i].id)
    ensures FromString(es[i].id).value in Replay(es, acc).value
    ensures Replay(es, acc).value[FromString(es[i].id).value] == es[i].flag
  {
    var v := FromString(es[0].id).value;
    var next := acc[v := es[0].flag];
    if i == 0 {
      forall j | 0 <= j < |es[1..]| ensures FromString(es[1..][j].id) != Some(v) {
        assert es[1..][j] == es[j + 1];
      }
      ReplayUntouched(es[1..], next, v);
    } else {
      assert es[1..][i - 1] == es[i];
      forall j | i - 1 < j < |es[1..]| ensures FromString(es[1..][j].id) != FromString(es[1..][i - 1].id) {
        assert es[1..][j] == es[j + 1];
      }
      ReplayLastWins(es[1..], next, i - 1);
    }
  }

  /** The part of `m` whose keys appear in `order`. */
  function Restrict(m: Store, order: seq<Uuid>): (r: Store)
    ensures forall u :: u in r <==> u in m && u in order
    ensures forall u | u in r :: r[u] == m[u]
  {
    map u | u in m && u in order :: m[u]
  }

  /** Putting `u` first and the rest of the keys after adds the same part of `m`. */
  lemma RestrictCons(m: Store, acc: Store, us: seq<Uuid>)
    requires |us| > 0 && us[0] in m
    ensures acc[us[0] := m[us[0]]] + Restrict(m, us[1..]) == acc + Restrict(m, us)
  {
    var u := us[0];
    assert forall v :: v in us <==> v == u || v in us[1..] by {
      assert us == [u] + us[1..];
    }
  }

  /** Entries that parse to keys of `m` and carry their flags put that part of `m`
      on top of the accumulator. */
  lemma {:induction false} ReplayParsed(es: seq<Entry>, us: seq<Uuid>, m: Store, acc: Store)
    requires |es| == |us|
    requires forall i | 0 <= i < |es| :: FromString(es[i].id) == Some(us[i]) && us[i] in m && es[i].flag == m[us[i]]
    ensures Replay(es, acc) == Some(acc + Restrict(m, us))
  {
    if |es| == 0 {
      assert Restrict(m, us) == map[];
      assert acc + map[] == acc;
    } else {
      ReplayParsed(es[1..], us[1..], m, acc[us[0] := m[us[0]]]);
      RestrictCons(m, acc, us);
    }
  }

  /** The saved text has nothing for trim() to strip. */
  lemma TrimSerialized(m: Store, order: seq<Uuid>)
    requires Enumerates(order, m.Keys)
    ensures Trim(Serialize(m, order)) == Serialize(m, order)
  {
    var text := Serialize(m, order);
    assert text == Header + (Join(Pieces(m, order)) + Footer);
    assert text[0] == '{';
    assert text[|text| - 1] == '}';
    TrimKeeps(text);
  }

  /** Every expected entry names its key in the loader's UUID syntax. */
  lemma ExpectedParses(m: Store, order: seq<Uuid>)
    requires forall i | 0 <= i < |order| :: order[i] in m
    ensures forall i | 0 <= i < |order| :: FromString(Expected(m, order)[i].id) == Some(order[i])
  {
    forall i | 0 <= i < |order| ensures FromString(Expected(m, order)[i].id) == Some(order[i]) {
      FromStringToString(order[i]);
    }
  }

  /** Entries naming each key of `m` once, with its flag, replay from an empty map to `m`. */
  lemma ReplayAll(es: seq<Entry>, us: seq<Uuid>, m: Store)
    requires Enumerates(us, m.Keys) && |es| == |us|
    requires forall i | 0 <= i < |es| :: FromString(es[i].id) == Some(us[i]) && es[i].flag == m[us[i]]
    ensures Replay(es, map[]) == Some(m)
  {
    EnumeratedInMap(m, us);
    ReplayParsed(es, us, m, map[]);
    assert map[] + Restrict(m, us) == m;
  }

  /** Replaying the expected entries from an empty map rebuilds `m`. */
  lemma ReplayExpected(m: Store, order: seq<Uuid>)
    requires Enumerates(order, m.Keys)
    ensures Replay(Expected(m, order), map[]) == Some(m)
  {
    EnumeratedInMap(m, order);
    ExpectedParses(m, order);
    ReplayAll(Expected(m, order), order, m);
  }

  /** A text trim() leaves alone, whose matches all parse, loads as their replay. */
  lemma LoadUntrimmed(text: string, prior: Store, m: Store)
    requires |text| > 0 && Trim(text) == text
    requires Replay(Scan(text), map[]) == Some(m)
    ensures Load(Contents(text), prior) == m
  {
    var json := Trim(text);
    assert json == text;
    assert Replay(Scan(json), map[]) == Some(m);
  }

  /** Reading back what saveState wrote reproduces the map, whatever the entry order
      and whatever the map held before. */
  lemma LoadSerialized(m: Store, order: seq<Uuid>, prior: Store)
    requires Enumerates(order, m.Keys)
    ensures Load(Contents(Serialize(m, order)), prior) == m
  {
    TrimSerialized(m, order);
    ScanSerialized(m, order);
    ReplayExpected(m, order);
    LoadUntrimmed(Serialize(m, order), prior, m);
  }

  /** A non-blank file replaces the map: every key afterwards was read from the file. */
  lemma LoadForgetsPrior(text: string, m: Store, u: Uuid)
    requires !IsBlank(text)
    ensures u in Load(Contents(text), m) ==> exists i | 0 <= i < |Found(text)| :: FromString(Found(text)[i].id) == Some(u)
  {
    if Replay(Found(text), map[]).Some? {
      ReplayKeys(Found(text), map[], u);
    }
  }

  /** One rejected UUID empties the map, entries put before it included. */
  lemma LoadRejected(text: string, m: Store, i: nat)
    requires !IsBlank(text)
    requires i < |Found(text)| && FromString(Found(text)[i].id).None?
    ensures Load(Contents(text), m) == map[]
  {
    ReplayRejects(Found(text), map[]);
  }

  /** Otherwise the map holds, for each matched UUID, the flag of its last match. */
  lemma LoadLastWins(text: string, m: Store, i: nat)
    requires !IsBlank(text)
    requires forall j | 0 <= j < |Found(text)| :: FromString(Found(text)[j].id).Some?
    requires i < |Found(text)|
    requires forall j | i < j < |Found(text)| :: FromString(Found(text)[j].id) != FromString(Found(text)[i].id)
    ensures FromString(Found(text)[i].id).value in Load(Contents(text), m)
    ensures Load(Contents(text), m)[FromString(Found(text)[i].id).value] == Found(text)[i].flag
  {
    ReplayRejects(Found(text), map[]);
    ReplayLastWins(Found(text), map[], i);
  }
}
