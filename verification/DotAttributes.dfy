/** DOT attribute lists: printed by the exporter (export/dot.go), parsed by the migration
    (migrate/dot_parser.go). */
module DotAttributes {
  import opened IR
  import opened Text
  import opened Graphs
  import opened DotLexer
  import Sorting

  // ----- printing

  function Attribute(m: map<string, string>, k: string): string
    requires k in m
  {
    k + "=" + DotQuote(m[k])
  }

  function Attributes(keys: seq<string>, m: map<string, string>): seq<string>
    requires forall k <- keys :: k in m
  {
    if keys == [] then [] else [Attribute(m, keys[0])] + Attributes(keys[1..], m)
  }

  /** In brackets, keys in sorted order; nothing at all for no attributes. */
  ghost predicate IsFormatted(r: string, m: map<string, string>) {
    if m.Keys == {} then r == ""
    else exists keys :: Sorting.Listing(keys, m.Keys) && (forall k <- keys :: k in m)
                        && r == "[" + Join(Attributes(keys, m), ", ") + "]"
  }

  lemma {:induction false} AttributesSnoc(keys: seq<string>, i: nat, m: map<string, string>)
    requires i < |keys| && forall k <- keys :: k in m
    ensures Attributes(keys[..i + 1], m) == Attributes(keys[..i], m) + [Attribute(m, keys[i])]
    decreases i
  {
    if i == 0 {
      assert keys[..1][1..] == [];
    } else {
      assert keys[..i + 1][1..] == keys[1..][..i] && keys[..i][1..] == keys[1..][..i - 1];
      AttributesSnoc(keys[1..], i - 1, m);
    }
  }

  method FormatDOTAttrs(m: map<string, string>) returns (r: string)
    ensures IsFormatted(r, m)
  {
    if |m| == 0 {
      return "";
    }
    assert m.Keys != {};
    var keys := Sorting.SortedMembers(m.Keys);
    Sorting.ListedKeys(keys, m);
    var parts: seq<string> := [];
    for i := 0 to |keys|
      invariant parts == Attributes(keys[..i], m)
    {
      AttributesSnoc(keys, i, m);
      var quoted := WriteDotQuote(m[keys[i]]);
      parts := parts + [keys[i] + "=" + quoted];
    }
    assert keys[..|keys|] == keys;
    r := "[" + Join(parts, ", ") + "]";
  }

  /** A text without quotes and backslashes. */
  predicate Plain(v: string) {
    forall c <- v :: c !in {'"', '\\'}
  }

  lemma {:induction false} PlainQuoted(v: string)
    requires Plain(v)
    ensures QuoteBody(v) == v
    decreases |v|
  {
    if v != "" {
      assert v[0] in v && forall c <- v[1..] :: c in v;
      PlainQuoted(v[1..]);
      assert v == [v[0]] + v[1..];
    }
  }

  /** The printed form of two attributes with plain values. */
  lemma TwoAttributesPrinted(r: string, m: map<string, string>, a: string, b: string)
    requires IsFormatted(r, m) && m.Keys == {a, b} && a != b && Sorting.Less(a, b) && a in m && b in m
    requires Plain(m[a]) && Plain(m[b])
    ensures r == "[" + (a + "=\"" + m[a] + "\"") + ", " + (b + "=\"" + m[b] + "\"") + "]"
  {
    var keys :| Sorting.Listing(keys, m.Keys) && (forall k <- keys :: k in m) && r == "[" + Join(Attributes(keys, m), ", ") + "]";
    Sorting.ListingOfTwo(keys, a, b);
    PlainQuoted(m[a]);
    PlainQuoted(m[b]);
    AttributesOfTwo(m, a, b);
    JoinOfTwo(Attribute(m, a), Attribute(m, b), ", ");
    OneAttribute(m, a);
    OneAttribute(m, b);
  }

  lemma AttributesOfTwo(m: map<string, string>, a: string, b: string)
    requires a in m && b in m
    ensures Attributes([a, b], m) == [Attribute(m, a), Attribute(m, b)]
  {
    assert [a, b][1..] == [b] && [b][1..] == [];
    assert Attributes([b], m) == [Attribute(m, b)];
  }

  lemma OneAttribute(m: map<string, string>, k: string)
    requires k in m && QuoteBody(m[k]) == m[k]
    ensures Attribute(m, k) == k + "=\"" + m[k] + "\""
  {
  }

  // ----- parsing: the current token and the text behind it

  type Position = (Token, string)

  function Ahead(p: Position): Position {
    NextToken(p.1)
  }

  predicate IsIdOrString(t: Token) {
    t.kind == ID || t.kind == Str
  }

  function ReadPair(p: Position): (r: Option<(string, string, Position)>)
    ensures r.Some? ==> |r.value.2.1| < |p.1|
  {
    if !IsIdOrString(p.0) || Ahead(p).0.kind != Equals then None
    else
      var v := Ahead(Ahead(p));
      if !IsIdOrString(v.0) then None else Some((p.0.val, v.0.val, Ahead(v)))
  }

  function PastSeparator(p: Position): (r: Position)
    ensures |r.1| <= |p.1|
  {
    if p.0.kind == Comma || p.0.kind == Semicolon then Ahead(p) else p
  }

  function ReadPairs(p: Position, out: map<string, string>): Option<(map<string, string>, Position)>
    decreases |p.1|
  {
    if p.0.kind == RBrack || p.0.kind == EOF then Some((out, p))
    else
      match ReadPair(p)
      case None => None
      case Some(kv) => ReadPairs(PastSeparator(kv.2), out[kv.0 := kv.1])
  }

  function ReadAttrList(p: Position): Option<(map<string, string>, Position)> {
    if p.0.kind != LBrack then None
    else
      match ReadPairs(Ahead(p), map[])
      case None => None
      case Some(r) => if r.1.0.kind == RBrack then Some((r.0, Ahead(r.1))) else None
  }

  function ReadOptionalAttrs(p: Position): Option<(map<string, string>, Position)> {
    if p.0.kind == LBrack then ReadAttrList(p) else Some((map[], p))
  }

  class Parser {
    const lex: Lexer
    var cur: Token

    ghost predicate Valid()
      reads this, lex
    {
      lex.Valid()
    }

    ghost function At(): Position
      requires Valid()
      reads this, lex
    {
      (cur, lex.Rest())
    }

    constructor (input: string)
      ensures Valid() && fresh(lex) && At() == NextToken(input)
    {
      lex := new Lexer(input);
      cur := Token(EOF, "");
      new;
      cur := lex.Next();
    }

    method Advance()
      requires Valid()
      modifies this, lex
      ensures Valid() && At() == Ahead(old(At()))
    {
      cur := lex.Next();
    }

    method Expect(kind: Kind) returns (ok: bool)
      requires Valid()
      modifies this, lex
      ensures Valid() && ok == (old(cur).kind == kind)
      ensures ok ==> At() == Ahead(old(At()))
    {
      if cur.kind != kind {
        return false;
      }
      Advance();
      ok := true;
    }

    method ReadIDOrString() returns (r: Option<string>)
      requires Valid()
      modifies this, lex
      ensures Valid()
      ensures if IsIdOrString(old(cur)) then r == Some(old(cur).val) && At() == Ahead(old(At())) else r == None
    {
      if cur.kind == ID || cur.kind == Str {
        var t := cur;
        Advance();
        return Some(t.val);
      }
      r := None;
    }

    method ReadKeyValuePair() returns (r: Option<(string, string)>)
      requires Valid()
      modifies this, lex
      ensures Valid()
      ensures match ReadPair(old(At()))
              case None => r == None
              case Some(kv) => r == Some((kv.0, kv.1)) && At() == kv.2
    {
      var key := ReadIDOrString();
      if key == None { return None; }
      var ok := Expect(Equals);
      if !ok { return None; }
      var val := ReadIDOrString();
      if val == None { return None; }
      r := Some((key.value, val.value));
    }

    method ConsumeOptionalSeparator()
      requires Valid()
      modifies this, lex
      ensures Valid() && At() == PastSeparator(old(At()))
    {
      if cur.kind == Comma || cur.kind == Semicolon {
        Advance();
      }
    }

    method ParseAttrPairs() returns (r: Option<map<string, string>>)
      requires Valid()
      modifies this, lex
      ensures Valid()
      ensures match ReadPairs(old(At()), map[])
              case None => r == None
              case Some(x) => r == Some(x.0) && At() == x.1
    {
      var attrs: map<string, string> := map[];
      while cur.kind != RBrack && cur.kind != EOF
        invariant Valid() && ReadPairs(At(), attrs) == ReadPairs(old(At()), map[])
        decreases |lex.Rest()|
      {
        var kv := ReadKeyValuePair();
        if kv == None { return None; }
        attrs := attrs[kv.value.0 := kv.value.1];
        ConsumeOptionalSeparator();
      }
      r := Some(attrs);
    }

    method ParseAttrList() returns (r: Option<map<string, string>>)
      requires Valid()
      modifies this, lex
      ensures Valid()
      ensures match ReadAttrList(old(At()))
              case None => r == None
              case Some(x) => r == Some(x.0) && At() == x.1
    {
      var ok := Expect(LBrack);
      if !ok { return None; }
      var attrs := ParseAttrPairs();
      if attrs == None { return None; }
      ok := Expect(RBrack);
      if !ok { return None; }
      r := attrs;
    }

    method ParseOptionalAttrs() returns (r: Option<map<string, string>>)
      requires Valid()
      modifies this, lex
      ensures Valid()
      ensures match ReadOptionalAttrs(old(At()))
              case None => r == None
              case Some(x) => r == Some(x.0) && At() == x.1
    {
      if cur.kind == LBrack {
        r := ParseAttrList();
        return;
      }
      r := Some(map[]);
    }
  }

  // ----- reading what was printed

  /** A key that the lexer reads as one identifier. */
  predicate IdShaped(k: string) {
    k != "" && IsIdOrDigitStart(k[0]) && forall c <- k :: IsIdCont(c)
  }

  lemma {:induction false} IdRuns(k: string, tail: string)
    requires (forall c <- k :: IsIdCont(c)) && (tail == "" || !IsIdCont(tail[0]))
    ensures IdLength(k + tail) == |k|
    decreases |k|
  {
    if k == "" {
      assert k + tail == tail;
    } else {
      assert (k + tail)[1..] == k[1..] + tail;
      IdRuns(k[1..], tail);
    }
  }

  lemma NextIsKey(k: string, tail: string)
    requires IdShaped(k) && tail != "" && !IsIdCont(tail[0])
    ensures NextToken(k + tail) == (Token(ID, k), tail)
  {
    var s := k + tail;
    assert s[0] == k[0];
    assert Skip(s) == s;
    IdRuns(k, tail);
    assert s[..|k|] == k && s[|k|..] == tail;
  }

  lemma NextIsPunct(c: char, tail: string)
    requires IsPunct(c)
    ensures NextToken([c] + tail) == (Token(PunctKind(c), [c]), tail)
  {
    var s := [c] + tail;
    assert Skip(s) == s;
    assert s[1..] == tail;
  }

  lemma NextIsString(v: string, tail: string)
    ensures NextToken("\"" + (QuoteBody(v) + ("\"" + tail))) == (Token(Str, Unpaired(v)), tail)
  {
    var body := QuoteBody(v) + ("\"" + tail);
    var s := "\"" + body;
    assert s[0] == '"' && s[1..] == body;
    assert Skip(s) == s;
    ReadQuoted(v, tail);
  }

  lemma NextPastBlank(tail: string)
    ensures NextToken(" " + tail) == NextToken(tail)
  {
    assert (" " + tail)[1..] == tail;
    assert Skip(" " + tail) == Skip(tail);
  }

  /** One printed attribute: the key, the value with its escapes read, and the position behind. */
  lemma PairRead(m: map<string, string>, k: string, tail: string)
    requires k in m && IdShaped(k)
    ensures NextToken(Attribute(m, k) + tail).0.kind == ID
    ensures ReadPair(NextToken(Attribute(m, k) + tail)) == Some((k, Unpaired(m[k]), NextToken(tail)))
  {
    var quoted := "\"" + (QuoteBody(m[k]) + ("\"" + tail));
    assert Attribute(m, k) + tail == k + ("=" + quoted);
    assert "=" == ['='];
    NextIsKey(k, "=" + quoted);
    NextIsPunct('=', quoted);
    NextIsString(m[k], tail);
  }

  /** The map as it comes back. */
  function Filled(keys: seq<string>, m: map<string, string>, out: map<string, string>): map<string, string>
    requires forall k <- keys :: k in m
    decreases |keys|
  {
    if keys == [] then out else Filled(keys[1..], m, out[keys[0] := Unpaired(m[keys[0]])])
  }

  lemma PairStep(m: map<string, string>, k: string, more: string, out: map<string, string>)
    requires k in m && IdShaped(k)
    ensures ReadPairs(NextToken(Attribute(m, k) + more), out)
         == ReadPairs(PastSeparator(NextToken(more)), out[k := Unpaired(m[k])])
  {
    PairRead(m, k, more);
  }

  lemma SeparatorStep(tail: string)
    ensures PastSeparator(NextToken("," + (" " + tail))) == NextToken(tail)
  {
    assert "," == [','];
    NextIsPunct(',', " " + tail);
    NextPastBlank(tail);
  }

  lemma EndStep(suffix: string, out: map<string, string>)
    ensures ReadPairs(PastSeparator(NextToken("]" + suffix)), out) == Some((out, (Token(RBrack, "]"), suffix)))
  {
    assert "]" == [']'];
    NextIsPunct(']', suffix);
  }

  lemma JoinStep(a: string, rest: seq<string>, end: string)
    requires rest != []
    ensures Join([a] + rest, ", ") + end == a + ("," + (" " + (Join(rest, ", ") + end)))
  {
    assert ([a] + rest)[1..] == rest;
    assert Join([a] + rest, ", ") == a + ", " + Join(rest, ", ");
    CommaRegroup(a, Join(rest, ", "), end);
  }

  lemma CommaRegroup(a: string, b: string, c: string)
    ensures a + ", " + b + c == a + ("," + (" " + (b + c)))
  {
  }

  lemma {:induction false} PairsRead(keys: seq<string>, m: map<string, string>, out: map<string, string>, suffix: string)
    requires keys != [] && forall k <- keys :: k in m && IdShaped(k)
    ensures ReadPairs(NextToken(Join(Attributes(keys, m), ", ") + ("]" + suffix)), out)
         == Some((Filled(keys, m, out), (Token(RBrack, "]"), suffix)))
    decreases |keys|
  {
    var k := keys[0];
    var out' := out[k := Unpaired(m[k])];
    var end := "]" + suffix;
    if |keys| == 1 {
      assert Attributes(keys, m) == [Attribute(m, k)];
      PairStep(m, k, end, out);
      EndStep(suffix, out');
      assert keys[1..] == [];
    } else {
      var tail := Join(Attributes(keys[1..], m), ", ") + end;
      JoinStep(Attribute(m, k), Attributes(keys[1..], m), end);
      PairStep(m, k, "," + (" " + tail), out);
      SeparatorStep(tail);
      PairsRead(keys[1..], m, out', suffix);
    }
  }

  lemma {:induction false} FilledExact(keys: seq<string>, m: map<string, string>, out: map<string, string>)
    requires forall k <- keys :: k in m
    requires forall k <- out.Keys :: k in m && out[k] == Unpaired(m[k])
    ensures (var r := Filled(keys, m, out);
             r.Keys == out.Keys + Elements(keys) && forall k <- r.Keys :: k in m && r[k] == Unpaired(m[k]))
    decreases |keys|
  {
    if keys != [] {
      FilledExact(keys[1..], m, out[keys[0] := Unpaired(m[keys[0]])]);
      assert keys == [keys[0]] + keys[1..];
      assert Elements(keys) == {keys[0]} + Elements(keys[1..]);
    }
  }

  function Escaped(m: map<string, string>): map<string, string> {
    map k | k in m :: Unpaired(m[k])
  }

  lemma ListStep(body: string, out: map<string, string>, suffix: string)
    requires ReadPairs(NextToken(body), map[]) == Some((out, (Token(RBrack, "]"), suffix)))
    ensures ReadOptionalAttrs(NextToken("[" + body)) == Some((out, NextToken(suffix)))
  {
    assert "[" == ['['];
    NextIsPunct('[', body);
  }

  lemma ListRead(keys: seq<string>, m: map<string, string>, suffix: string)
    requires keys != [] && Elements(keys) == m.Keys && forall k <- keys :: k in m && IdShaped(k)
    ensures ReadOptionalAttrs(NextToken("[" + (Join(Attributes(keys, m), ", ") + ("]" + suffix))))
         == Some((Escaped(m), NextToken(suffix)))
  {
    PairsRead(keys, m, map[], suffix);
    FilledExact(keys, m, map[]);
    assert Filled(keys, m, map[]) == Escaped(m);
    ListStep(Join(Attributes(keys, m), ", ") + ("]" + suffix), Escaped(m), suffix);
  }

  lemma Regroup(body: string, suffix: string)
    ensures "[" + body + "]" + suffix == "[" + (body + ("]" + suffix))
  {
  }

  /** Parsing a printed attribute list gives every key its value with the escape pairs read, and ends
      at the token behind the list, whatever follows it. */
  lemma AttributesComeBack(m: map<string, string>, text: string, suffix: string)
    requires IsFormatted(text, m) && forall k <- m.Keys :: IdShaped(k)
    requires m.Keys == {} ==> NextToken(suffix).0.kind != LBrack
    ensures ReadOptionalAttrs(NextToken(text + suffix)) == Some((Escaped(m), NextToken(suffix)))
  {
    if m.Keys == {} {
      assert text + suffix == suffix;
      assert Escaped(m) == map[];
    } else {
      var keys :| Sorting.Listing(keys, m.Keys) && (forall k <- keys :: k in m)
                  && text == "[" + Join(Attributes(keys, m), ", ") + "]";
      assert keys != [] by { assert Elements(keys) == m.Keys; }
      Regroup(Join(Attributes(keys, m), ", "), suffix);
      ListRead(keys, m, suffix);
    }
  }

  /** So the list round-trips exactly when no value has a backslash directly followed by n, l or r. */
  lemma AttributeRoundTrip(m: map<string, string>, text: string, suffix: string)
    requires IsFormatted(text, m) && forall k <- m.Keys :: IdShaped(k)
    requires m.Keys == {} ==> NextToken(suffix).0.kind != LBrack
    ensures ReadOptionalAttrs(NextToken(text + suffix)) == Some((m, NextToken(suffix)))
       <==> forall k <- m.Keys :: !HasEscapePair(m[k])
  {
    AttributesComeBack(m, text, suffix);
    forall k | k in m.Keys ensures Unpaired(m[k]) == m[k] <==> !HasEscapePair(m[k]) {
      UnpairedShrinks(m[k]);
    }
    if Escaped(m) == m {
      forall k | k in m.Keys ensures Unpaired(m[k]) == m[k] {
        assert Escaped(m)[k] == m[k];
      }
    }
  }
}
