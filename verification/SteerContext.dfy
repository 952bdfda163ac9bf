/** The steer context of a manager loop as one line of text: flattened on export (export/dot.go) and
    read back on migration (migrate/migrate.go). */
module SteerContext {
  import opened IR
  import opened Text
  import opened Graphs
  import Sorting

  // ----- percent-encoding of the three reserved characters

  predicate IsReserved(c: char) {
    c == ',' || c == '=' || c == '%'
  }

  function EncodeChar(c: char): string {
    if c == '%' then "%25" else if c == ',' then "%2C" else if c == '=' then "%3D" else [c]
  }

  function EncodeAll(s: string): string {
    if s == "" then "" else EncodeChar(s[0]) + EncodeAll(s[1..])
  }

  function EncodeSteerContextToken(s: string): string {
    if forall c <- s :: !IsReserved(c) then s else EncodeAll(s)
  }

  /** Replaces the escapes from the left; anything else after a percent sign stays. */
  function DecodeAll(s: string): string
    decreases |s|
  {
    if s == "" then ""
    else if "%25" <= s then "%" + DecodeAll(s[3..])
    else if "%2C" <= s then "," + DecodeAll(s[3..])
    else if "%3D" <= s then "=" + DecodeAll(s[3..])
    else [s[0]] + DecodeAll(s[1..])
  }

  function DecodeSteerContextToken(s: string): string {
    if '%' !in s then s else DecodeAll(s)
  }

  lemma {:induction false} EncodePlain(s: string)
    requires forall c <- s :: !IsReserved(c)
    ensures EncodeAll(s) == s
    decreases |s|
  {
    if s != "" {
      assert s[0] in s;
      EncodePlain(s[1..]);
      assert s == [s[0]] + s[1..];
    }
  }

  lemma {:induction false} DecodePlain(s: string)
    requires '%' !in s
    ensures DecodeAll(s) == s
    decreases |s|
  {
    if s != "" {
      DecodePlain(s[1..]);
      assert s == [s[0]] + s[1..];
    }
  }

  lemma DecodeEscape(c: char, tail: string)
    ensures DecodeAll(EncodeChar(c) + tail) == [c] + DecodeAll(tail)
  {
    var e := EncodeChar(c);
    var t := e + tail;
    assert t[0] == e[0];
    if IsReserved(c) {
      assert e <= t && t[3..] == tail;
      assert t[1] == '2' <==> c != '=';
      assert t[2] == if c == '%' then '5' else if c == ',' then 'C' else 'D';
    } else {
      assert t[1..] == tail;
      assert "%25"[0] == "%2C"[0] == "%3D"[0] == '%';
    }
  }

  lemma {:induction false} DecodeEncodeAll(s: string)
    ensures DecodeAll(EncodeAll(s)) == s
    decreases |s|
  {
    if s != "" {
      DecodeEncodeAll(s[1..]);
      DecodeEscape(s[0], EncodeAll(s[1..]));
      assert s == [s[0]] + s[1..];
    }
  }

  /** Decoding undoes encoding, and encoded text is free of the two separators. */
  lemma TokenRoundTrip(s: string)
    ensures DecodeSteerContextToken(EncodeSteerContextToken(s)) == s
    ensures ',' !in EncodeSteerContextToken(s) && '=' !in EncodeSteerContextToken(s)
  {
    TokenIsEncodeAll(s);
    DecodeEncodeAll(s);
    var e := EncodeSteerContextToken(s);
    if '%' !in e {
      DecodePlain(e);
    }
    NoSeparators(s);
  }

  lemma TokenIsEncodeAll(s: string)
    ensures EncodeSteerContextToken(s) == EncodeAll(s)
  {
    if forall c <- s :: !IsReserved(c) {
      EncodePlain(s);
    }
  }

  lemma {:induction false} NoSeparators(s: string)
    ensures ',' !in EncodeAll(s) && '=' !in EncodeAll(s)
    decreases |s|
  {
    if s != "" {
      NoSeparators(s[1..]);
    }
  }

  /** The code of each reserved character; everything else stands for itself, and texts are encoded piece
      by piece. */
  lemma EncodingTable(a: string, b: string)
    ensures EncodeSteerContextToken(",") == "%2C" && EncodeSteerContextToken("=") == "%3D" && EncodeSteerContextToken("%") == "%25"
    ensures (forall c <- a :: c != ',' && c != '=' && c != '%') ==> EncodeSteerContextToken(a) == a
    ensures EncodeSteerContextToken(a + b) == EncodeSteerContextToken(a) + EncodeSteerContextToken(b)
  {
    TokenIsEncodeAll(",");
    TokenIsEncodeAll("=");
    TokenIsEncodeAll("%");
    assert ","[1..] == "" && "="[1..] == "" && "%"[1..] == "";
    TokenIsEncodeAll(a);
    TokenIsEncodeAll(b);
    TokenIsEncodeAll(a + b);
    EncodeJoin(a, b);
  }

  lemma TokenIsDecodeAll(s: string)
    ensures DecodeSteerContextToken(s) == DecodeAll(s)
  {
    if '%' !in s {
      DecodePlain(s);
    }
  }

  /** How each code is read back; a percent sign in front of anything else stays. */
  lemma DecodingTable(c: char, s: string)
    ensures DecodeSteerContextToken("%2C" + s) == "," + DecodeSteerContextToken(s)
    ensures DecodeSteerContextToken("%3D" + s) == "=" + DecodeSteerContextToken(s)
    ensures DecodeSteerContextToken("%25" + s) == "%" + DecodeSteerContextToken(s)
    ensures c != '%' || !("2C" <= s || "3D" <= s || "25" <= s) ==>
              DecodeSteerContextToken([c] + s) == [c] + DecodeSteerContextToken(s)
  {
    TokenIsDecodeAll(s);
    TokenIsDecodeAll("%2C" + s);
    TokenIsDecodeAll("%3D" + s);
    TokenIsDecodeAll("%25" + s);
    TokenIsDecodeAll([c] + s);
    DecodeEscape(',', s);
    DecodeEscape('=', s);
    DecodeEscape('%', s);
    if c != '%' || !("2C" <= s || "3D" <= s || "25" <= s) {
      DecodeOther(c, s);
    }
  }

  lemma DecodeOther(c: char, s: string)
    requires c != '%' || !("2C" <= s || "3D" <= s || "25" <= s)
    ensures DecodeAll([c] + s) == [c] + DecodeAll(s)
  {
    var t := [c] + s;
    assert t[0] == c && t[1..] == s;
    CodeAhead(c, s, "%25", "25");
    CodeAhead(c, s, "%2C", "2C");
    CodeAhead(c, s, "%3D", "3D");
  }

  lemma CodeAhead(c: char, s: string, code: string, digits: string)
    requires code == "%" + digits
    ensures code <= [c] + s <==> c == '%' && digits <= s
  {
    var t := [c] + s;
    assert t[1..] == s && code[1..] == digits && code[0] == '%';
    if c == '%' && digits <= s {
      assert t[..|code|] == [c] + s[..|digits|];
    }
    if code <= t {
      assert t[..|code|][1..] == s[..|digits|];
    }
  }

  // ----- encoding and trimming

  lemma {:induction false} EncodeJoin(a: string, b: string)
    ensures EncodeAll(a + b) == EncodeAll(a) + EncodeAll(b)
    decreases |a|
  {
    if a == "" {
      assert a + b == b;
    } else {
      assert (a + b)[1..] == a[1..] + b;
      EncodeJoin(a[1..], b);
    }
  }

  lemma {:induction false} TrimLeftEncoded(s: string)
    ensures TrimLeft(EncodeAll(s)) == EncodeAll(TrimLeft(s))
    decreases |s|
  {
    if s != "" && IsSpace(s[0]) {
      TrimLeftEncoded(s[1..]);
      assert EncodeAll(s)[1..] == EncodeAll(s[1..]);
    }
  }

  lemma EncodeLast(front: string, c: char)
    ensures EncodeAll(front + [c]) == EncodeAll(front) + EncodeChar(c)
  {
    EncodeJoin(front, [c]);
    assert [c][1..] == "";
    assert EncodeChar(c) + "" == EncodeChar(c);
  }

  lemma TrimRightLast(front: string, c: char)
    ensures TrimRight(front + [c]) == if IsSpace(c) then TrimRight(front) else front + [c]
  {
    assert (front + [c])[..|front|] == front;
  }

  lemma TrimRightSame(front: string, end: string)
    requires end != "" && !IsSpace(end[|end| - 1])
    ensures TrimRight(front + end) == front + end
  {
  }

  lemma TrimRightEncodedLast(front: string, c: char)
    requires IsSpace(c) ==> TrimRight(EncodeAll(front)) == EncodeAll(TrimRight(front))
    ensures TrimRight(EncodeAll(front) + EncodeChar(c)) == EncodeAll(TrimRight(front + [c]))
  {
    TrimRightLast(front, c);
    if IsSpace(c) {
      TrimRightLast(EncodeAll(front), c);
    } else {
      EncodeLast(front, c);
      TrimRightSame(EncodeAll(front), EncodeChar(c));
    }
  }

  lemma {:induction false} TrimRightEncoded(s: string)
    ensures TrimRight(EncodeAll(s)) == EncodeAll(TrimRight(s))
    decreases |s|
  {
    if s != "" {
      var front, c := s[..|s| - 1], s[|s| - 1];
      assert s == front + [c];
      EncodeLast(front, c);
      if IsSpace(c) {
        TrimRightEncoded(front);
      }
      TrimRightEncodedLast(front, c);
    }
  }

  lemma TrimEncoded(s: string)
    ensures TrimSpace(EncodeAll(s)) == EncodeAll(TrimSpace(s))
  {
    TrimLeftEncoded(s);
    TrimRightEncoded(TrimLeft(s));
  }

  // ----- flattening

  function Entry(m: map<string, string>, k: string): string
    requires k in m
  {
    EncodeSteerContextToken(k) + "=" + EncodeSteerContextToken(m[k])
  }

  function Entries(keys: seq<string>, m: map<string, string>): seq<string>
    requires forall k <- keys :: k in m
  {
    if keys == [] then [] else [Entry(m, keys[0])] + Entries(keys[1..], m)
  }

  ghost predicate IsFlattened(r: string, m: map<string, string>) {
    exists keys :: Sorting.Listing(keys, m.Keys) && (forall k <- keys :: k in m) && r == Join(Entries(keys, m), ",")
  }

  lemma {:induction false} EntriesSnoc(keys: seq<string>, i: nat, m: map<string, string>)
    requires i < |keys| && forall k <- keys :: k in m
    ensures Entries(keys[..i + 1], m) == Entries(keys[..i], m) + [Entry(m, keys[i])]
    decreases i
  {
    if i == 0 {
      assert keys[..1][1..] == [];
    } else {
      assert keys[..i + 1][1..] == keys[1..][..i] && keys[..i][1..] == keys[1..][..i - 1];
      EntriesSnoc(keys[1..], i - 1, m);
    }
  }

  method FlattenSteerContext(m: map<string, string>) returns (r: string)
    ensures IsFlattened(r, m)
  {
    if |m| == 0 {
      assert m.Keys == {};
      assert Sorting.Listing([], m.Keys) by { assert Elements([]) == {}; }
      assert Join(Entries([], m), ",") == "";
      return "";
    }
    var keys := Sorting.SortedMembers(m.Keys);
    Sorting.ListedKeys(keys, m);
    var parts: seq<string> := [];
    for i := 0 to |keys|
      invariant parts == Entries(keys[..i], m)
    {
      EntriesSnoc(keys, i, m);
      var k := keys[i];
      parts := parts + [EncodeSteerContextToken(k) + "=" + EncodeSteerContextToken(m[k])];
    }
    assert keys[..|keys|] == keys;
    r := Join(parts, ",");
  }

  /** The order in which the map is walked does not show. */
  lemma FlattenDetermined(r: string, r': string, m: map<string, string>)
    requires IsFlattened(r, m) && IsFlattened(r', m)
    ensures r == r'
  {
    var a :| Sorting.Listing(a, m.Keys) && (forall k <- a :: k in m) && r == Join(Entries(a, m), ",");
    var b :| Sorting.Listing(b, m.Keys) && (forall k <- b :: k in m) && r' == Join(Entries(b, m), ",");
    Sorting.ListingUnique(a, b, m.Keys);
  }

  /** The written form of two entries: each key and value encoded with an equals sign between them, a comma
      between the entries, the smaller key first. */
  lemma TwoEntriesWritten(r: string, m: map<string, string>, a: string, b: string)
    requires IsFlattened(r, m) && m.Keys == {a, b} && a != b && Sorting.Less(a, b)
    ensures r == EncodeSteerContextToken(a) + "=" + EncodeSteerContextToken(m[a]) + "," +
                 EncodeSteerContextToken(b) + "=" + EncodeSteerContextToken(m[b])
  {
    var keys :| Sorting.Listing(keys, m.Keys) && (forall k <- keys :: k in m) && r == Join(Entries(keys, m), ",");
    Sorting.ListingOfTwo(keys, a, b);
    EntriesOfTwo(m, a, b);
    JoinOfTwo(Entry(m, a), Entry(m, b), ",");
    EntryJoin(Entry(m, a), EncodeSteerContextToken(b), EncodeSteerContextToken(m[b]));
  }

  lemma EntriesOfTwo(m: map<string, string>, a: string, b: string)
    requires a in m && b in m
    ensures Entries([a, b], m) == [Entry(m, a), Entry(m, b)]
  {
    assert [a, b][1..] == [b] && [b][1..] == [];
    assert Entries([b], m) == [Entry(m, b)];
  }

  lemma EntryJoin(front: string, k: string, v: string)
    ensures front + "," + (k + "=" + v) == front + "," + k + "=" + v
  {
  }

  // ----- reading it back

  /** The text before and after the first occurrence of a separator. */
  function Cut(s: string, sep: char): Option<(string, string)> {
    if s == "" then None
    else if s[0] == sep then Some(("", s[1..]))
    else
      match Cut(s[1..], sep)
      case None => None
      case Some(p) => Some(([s[0]] + p.0, p.1))
  }

  function ReadEntry(part: string): Option<(string, string)> {
    match Cut(TrimSpace(part), '=')
    case None => None
    case Some(p) => Some((DecodeSteerContextToken(TrimSpace(p.0)), DecodeSteerContextToken(TrimSpace(p.1))))
  }

  /** Later entries win; entries without an equals sign are skipped. */
  function ReadEntries(parts: seq<string>, out: map<string, string>): map<string, string>
    decreases |parts|
  {
    if parts == [] then out
    else
      match ReadEntry(parts[0])
      case None => ReadEntries(parts[1..], out)
      case Some(p) => ReadEntries(parts[1..], out[p.0 := p.1])
  }

  method ParseFlattenedSteerContext(s: string) returns (out: map<string, string>)
    ensures out == ReadEntries(Split(s, ','), map[])
  {
    out := map[];
    var parts := Split(s, ',');
    assert parts[0..] == parts;
    for i := 0 to |parts|
      invariant ReadEntries(parts, map[]) == ReadEntries(parts[i..], out)
    {
      assert parts[i..][1..] == parts[i + 1..];
      var kv := Cut(TrimSpace(parts[i]), '=');
      if kv == None {
        continue;
      }
      var k := DecodeSteerContextToken(TrimSpace(kv.value.0));
      var v := DecodeSteerContextToken(TrimSpace(kv.value.1));
      out := out[k := v];
    }
  }

  lemma {:induction false} CutAt(a: string, sep: char, b: string)
    requires sep !in a
    ensures Cut(a + [sep] + b, sep) == Some((a, b))
    decreases |a|
  {
    var s := a + [sep] + b;
    if a == "" {
      assert s[1..] == b;
    } else {
      assert s[1..] == a[1..] + [sep] + b;
      assert a == [a[0]] + a[1..];
      CutAt(a[1..], sep, b);
    }
  }

  lemma {:induction false} CutNothing(s: string, sep: char)
    requires sep !in s
    ensures Cut(s, sep) == None
  {
    if s != "" {
      CutNothing(s[1..], sep);
    }
  }

  lemma {:induction false} ReadEntriesSnoc(parts: seq<string>, part: string, out: map<string, string>)
    ensures var before := ReadEntries(parts, out);
            ReadEntries(parts + [part], out) == match ReadEntry(part) case None => before case Some(p) => before[p.0 := p.1]
    decreases |parts|
  {
    if parts == [] {
      assert [] + [part] == [part] && [part][1..] == [];
    } else {
      assert (parts + [part])[1..] == parts[1..] + [part];
      ReadEntriesSnoc(parts[1..], part, match ReadEntry(parts[0]) case None => out case Some(p) => out[p.0 := p.1]);
    }
  }

  /** What one more entry adds: nothing if it has no equals sign; otherwise what stands before and behind the first
      one, without white space and decoded, in place of any earlier value. */
  lemma EntryAdds(parts: seq<string>, part: string, k: string, v: string)
    ensures var before := ReadEntries(parts, map[]);
            && ('=' !in TrimSpace(part) ==> ReadEntries(parts + [part], map[]) == before)
            && ('=' !in k && TrimSpace(part) == k + "=" + v ==>
                  ReadEntries(parts + [part], map[]) ==
                  before[DecodeSteerContextToken(TrimSpace(k)) := DecodeSteerContextToken(TrimSpace(v))])
  {
    ReadEntriesSnoc(parts, part, map[]);
    assert "=" == ['='];
    if '=' !in TrimSpace(part) {
      CutNothing(TrimSpace(part), '=');
    }
    if '=' !in k && TrimSpace(part) == k + "=" + v {
      CutAt(k, '=', v);
    }
  }

  /** Reading one entry gives its key and its value, without the white space around them. */
  lemma EntryReadsTrimmed(m: map<string, string>, k: string)
    requires k in m
    ensures ReadEntry(Entry(m, k)) == Some((TrimSpace(k), TrimSpace(m[k])))
  {
    var ek, ev := EncodeAll(k), EncodeAll(m[k]);
    TokenIsEncodeAll(k);
    TokenIsEncodeAll(m[k]);
    NoSeparators(k);
    TrimAround(ek, '=', ev);
    TrimLeftSubset(ek, '=');
    CutAt(TrimLeft(ek), '=', TrimRight(ev));
    TrimTwice(ek);
    TrimTwice(ev);
    TrimEncoded(k);
    TrimEncoded(m[k]);
    TokenIsEncodeAll(TrimSpace(k));
    TokenIsEncodeAll(TrimSpace(m[k]));
    TokenRoundTrip(TrimSpace(k));
    TokenRoundTrip(TrimSpace(m[k]));
  }

  lemma {:induction false} TrimLeftSubset(s: string, c: char)
    requires c !in s
    ensures c !in TrimLeft(s)
    decreases |s|
  {
    if s != "" && IsSpace(s[0]) { TrimLeftSubset(s[1..], c); }
  }

  lemma {:induction false} TrimLeftUpTo(a: string, c: char, b: string)
    requires !IsSpace(c)
    ensures TrimLeft(a + [c] + b) == TrimLeft(a) + [c] + b
    decreases |a|
  {
    if a != "" && IsSpace(a[0]) {
      assert (a + [c] + b)[1..] == a[1..] + [c] + b;
      TrimLeftUpTo(a[1..], c, b);
    }
  }

  lemma {:induction false} TrimRightUpTo(a: string, c: char, b: string)
    requires !IsSpace(c)
    ensures TrimRight(a + [c] + b) == a + [c] + TrimRight(b)
    decreases |b|
  {
    var s := a + [c] + b;
    if b == "" {
      assert s[|s| - 1] == c;
    } else if IsSpace(b[|b| - 1]) {
      assert s[..|s| - 1] == a + [c] + b[..|b| - 1];
      TrimRightUpTo(a, c, b[..|b| - 1]);
    }
  }

  lemma TrimAround(a: string, c: char, b: string)
    requires !IsSpace(c)
    ensures TrimSpace(a + [c] + b) == TrimLeft(a) + [c] + TrimRight(b)
  {
    TrimLeftUpTo(a, c, b);
    TrimRightUpTo(TrimLeft(a), c, b);
  }

  lemma {:induction false} TrimLeftTwice(s: string)
    ensures TrimLeft(TrimLeft(s)) == TrimLeft(s)
    decreases |s|
  {
    if s != "" && IsSpace(s[0]) { TrimLeftTwice(s[1..]); }
  }

  lemma {:induction false} TrimRightTwice(s: string)
    ensures TrimRight(TrimRight(s)) == TrimRight(s)
    decreases |s|
  {
    if s != "" && IsSpace(s[|s| - 1]) { TrimRightTwice(s[..|s| - 1]); }
  }

  lemma {:induction false} TrimRightCons(c: char, y: string)
    ensures TrimRight([c] + y) == if TrimRight(y) == "" && IsSpace(c) then "" else [c] + TrimRight(y)
    decreases |y|
  {
    var s := [c] + y;
    if y == "" {
      assert s[..0] == "";
    } else if IsSpace(y[|y| - 1]) {
      assert s[..|s| - 1] == [c] + y[..|y| - 1];
      TrimRightCons(c, y[..|y| - 1]);
    }
  }

  lemma {:induction false} TrimsCommute(s: string)
    ensures TrimLeft(TrimRight(s)) == TrimRight(TrimLeft(s))
    decreases |s|
  {
    if s != "" {
      assert s == [s[0]] + s[1..];
      TrimRightCons(s[0], s[1..]);
      TrimsCommute(s[1..]);
    }
  }

  lemma TrimTwice(s: string)
    ensures TrimSpace(TrimLeft(s)) == TrimSpace(s) == TrimSpace(TrimRight(s))
  {
    TrimLeftTwice(s);
    TrimsCommute(s);
    TrimRightTwice(TrimLeft(s));
  }

  // ----- the round trip

  /** The map with white space trimmed from keys and values, filled in the order of the keys. */
  function TrimmedMap(keys: seq<string>, m: map<string, string>, out: map<string, string>): map<string, string>
    requires forall k <- keys :: k in m
    decreases |keys|
  {
    if keys == [] then out else TrimmedMap(keys[1..], m, out[TrimSpace(keys[0]) := TrimSpace(m[keys[0]])])
  }

  lemma {:induction false} EntriesRead(keys: seq<string>, m: map<string, string>, out: map<string, string>)
    requires forall k <- keys :: k in m
    ensures ReadEntries(Entries(keys, m), out) == TrimmedMap(keys, m, out)
    decreases |keys|
  {
    if keys != [] {
      EntryReadsTrimmed(m, keys[0]);
      assert Entries(keys, m)[1..] == Entries(keys[1..], m);
      EntriesRead(keys[1..], m, out[TrimSpace(keys[0]) := TrimSpace(m[keys[0]])]);
    }
  }

  lemma {:induction false} EntriesSplit(keys: seq<string>, m: map<string, string>)
    requires forall k <- keys :: k in m
    ensures |Entries(keys, m)| == |keys|
    ensures forall e <- Entries(keys, m) :: ',' !in e
    decreases |keys|
  {
    if keys != [] {
      TokenRoundTrip(keys[0]);
      TokenRoundTrip(m[keys[0]]);
      EntriesSplit(keys[1..], m);
    }
  }

  /** What comes back from any flattened map. */
  lemma FlattenThenParse(keys: seq<string>, m: map<string, string>)
    requires forall k <- keys :: k in m
    ensures ReadEntries(Split(Join(Entries(keys, m), ","), ','), map[]) == TrimmedMap(keys, m, map[])
  {
    EntriesSplit(keys, m);
    if keys == [] {
      assert Split("", ',')[1..] == [];
      assert ReadEntry("") == None;
    } else {
      assert "," == [','];
      SplitJoin(Entries(keys, m), ',');
    }
    EntriesRead(keys, m, map[]);
  }

  predicate AllTrimmed(m: map<string, string>) {
    forall k <- m.Keys :: Trimmed(k) && Trimmed(m[k])
  }

  lemma {:induction false} TrimmedMapSame(keys: seq<string>, m: map<string, string>, out: map<string, string>)
    requires AllTrimmed(m) && forall k <- keys :: k in m
    requires forall k <- out.Keys :: k in m && out[k] == m[k]
    ensures (var r := TrimmedMap(keys, m, out);
             r.Keys == out.Keys + Elements(keys) && forall k <- r.Keys :: k in m && r[k] == m[k])
    decreases |keys|
  {
    if keys != [] {
      var k := keys[0];
      TrimmedUnchanged(k);
      TrimmedUnchanged(m[k]);
      TrimmedMapSame(keys[1..], m, out[k := m[k]]);
      assert keys == [k] + keys[1..];
      assert Elements(keys) == {k} + Elements(keys[1..]);
    }
  }

  lemma {:induction false} TrimmedMapTrimmed(keys: seq<string>, m: map<string, string>, out: map<string, string>)
    requires AllTrimmed(out) && forall k <- keys :: k in m
    ensures AllTrimmed(TrimmedMap(keys, m, out))
    decreases |keys|
  {
    if keys != [] {
      var k := keys[0];
      TrimIsTrimmed(k);
      TrimIsTrimmed(m[k]);
      TrimmedMapTrimmed(keys[1..], m, out[TrimSpace(k) := TrimSpace(m[k])]);
    }
  }

  lemma {:induction false} TrimRightEnds(s: string)
    ensures TrimRight(s) == "" || !IsSpace(TrimRight(s)[|TrimRight(s)| - 1])
    ensures TrimRight(s) <= s
    decreases |s|
  {
    if s != "" && IsSpace(s[|s| - 1]) { TrimRightEnds(s[..|s| - 1]); }
  }

  lemma {:induction false} TrimLeftStarts(s: string)
    ensures TrimLeft(s) == "" || !IsSpace(TrimLeft(s)[0])
    decreases |s|
  {
    if s != "" && IsSpace(s[0]) { TrimLeftStarts(s[1..]); }
  }

  lemma TrimIsTrimmed(s: string)
    ensures Trimmed(TrimSpace(s))
  {
    TrimLeftStarts(s);
    TrimRightEnds(TrimLeft(s));
  }

  /** Flattening a map and reading the text back gives the same map exactly when no key and no value
      has white space at an end. */
  lemma SteerContextRoundTrip(m: map<string, string>, text: string)
    requires IsFlattened(text, m)
    ensures ReadEntries(Split(text, ','), map[]) == m <==> AllTrimmed(m)
  {
    var keys :| Sorting.Listing(keys, m.Keys) && (forall k <- keys :: k in m) && text == Join(Entries(keys, m), ",");
    FlattenThenParse(keys, m);
    TrimmedMapTrimmed(keys, m, map[]);
    if AllTrimmed(m) {
      TrimmedMapSame(keys, m, map[]);
    }
  }
}
