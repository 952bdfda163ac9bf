/** The string operations that the components rely on. */
module Text {

  predicate HasPrefix(s: string, prefix: string) {
    prefix <= s
  }

  predicate HasSuffix(s: string, suffix: string) {
    |suffix| <= |s| && s[|s| - |suffix|..] == suffix
  }

  function TrimPrefix(s: string, prefix: string): string {
    if prefix <= s then s[|prefix|..] else s
  }

  predicate Contains(s: string, sub: string) {
    sub <= s || (s != "" && Contains(s[1..], sub))
  }

  /** The white space that trimming removes. */
  predicate IsSpace(c: char) {
    c == ' ' || '\t' <= c <= '\r' || c == '\U{85}' || c == '\U{A0}' || c == '\U{1680}' ||
    '\U{2000}' <= c <= '\U{200A}' || c == '\U{2028}' || c == '\U{2029}' || c == '\U{202F}' ||
    c == '\U{205F}' || c == '\U{3000}'
  }

  function TrimLeft(s: string): string {
    if s != "" && IsSpace(s[0]) then TrimLeft(s[1..]) else s
  }

  function TrimRight(s: string): string {
    if s != "" && IsSpace(s[|s| - 1]) then TrimRight(s[..|s| - 1]) else s
  }

  function TrimSpace(s: string): string {
    TrimRight(TrimLeft(s))
  }

  /** No white space at either end. */
  predicate Trimmed(s: string) {
    s == "" || (!IsSpace(s[0]) && !IsSpace(s[|s| - 1]))
  }

  lemma TrimmedUnchanged(s: string)
    requires Trimmed(s)
    ensures TrimSpace(s) == s
  {
  }

  /** Cuts at every separator; there is always at least one piece. */
  function Split(s: string, sep: char): (r: seq<string>)
    ensures r != []
  {
    if s == "" then [""]
    else if s[0] == sep then [""] + Split(s[1..], sep)
    else
      var rest := Split(s[1..], sep);
      [[s[0]] + rest[0]] + rest[1..]
  }

  function Join(parts: seq<string>, sep: string): string {
    if parts == [] then ""
    else if |parts| == 1 then parts[0]
    else parts[0] + sep + Join(parts[1..], sep)
  }

  lemma JoinOfTwo(a: string, b: string, sep: string)
    ensures Join([a, b], sep) == a + sep + b
  {
    assert [a, b][1..] == [b];
  }

  lemma {:induction false} SplitPiece(a: string, sep: char)
    requires sep !in a
    ensures Split(a, sep) == [a]
  {
    if a != "" {
      assert a == [a[0]] + a[1..];
      SplitPiece(a[1..], sep);
    }
  }

  lemma {:induction false} SplitFirst(a: string, sep: char, b: string)
    requires sep !in a
    ensures Split(a + [sep] + b, sep) == [a] + Split(b, sep)
  {
    var s := a + [sep] + b;
    if a == "" {
      assert s[1..] == b;
    } else {
      assert s[1..] == a[1..] + [sep] + b;
      assert a == [a[0]] + a[1..];
      SplitFirst(a[1..], sep, b);
    }
  }

  /** Splitting undoes joining when no part contains the separator. */
  lemma {:induction false} SplitJoin(parts: seq<string>, sep: char)
    requires parts != [] && forall p :: p in parts ==> sep !in p
    ensures Split(Join(parts, [sep]), sep) == parts
  {
    assert parts[0] in parts;
    if |parts| == 1 {
      SplitPiece(parts[0], sep);
    } else {
      SplitJoin(parts[1..], sep);
      SplitFirst(parts[0], sep, Join(parts[1..], [sep]));
    }
  }

  // ----- what the operations mean

  /** One text occurs inside another. */
  ghost predicate Within(sub: string, s: string) {
    exists a, b :: s == a + sub + b
  }

  lemma {:induction false} ContainsExact(s: string, sub: string)
    ensures Contains(s, sub) <==> Within(sub, s)
  {
    if sub <= s {
      assert s == "" + sub + s[|sub|..];
    } else if s != "" {
      ContainsExact(s[1..], sub);
      if Contains(s[1..], sub) {
        var a, b :| s[1..] == a + sub + b;
        assert s == ([s[0]] + a) + sub + b;
      }
      if Within(sub, s) {
        var a, b :| s == a + sub + b;
        assert a == "" ==> s == sub + b;
        assert s[1..] == a[1..] + sub + b;
      }
    }
  }

  lemma WithinMore(sub: string, c: char, s: string)
    ensures Within(sub, s) ==> Within(sub, [c] + s)
    ensures sub <= s ==> Within(sub, s)
  {
    if Within(sub, s) {
      var a, b :| s == a + sub + b;
      assert [c] + s == ([c] + a) + sub + b;
    }
    if sub <= s {
      assert s == "" + sub + s[|sub|..];
    }
  }

  ghost predicate BeginsWith(s: string, prefix: string) {
    exists b :: s == prefix + b
  }

  ghost predicate FinishesWith(s: string, suffix: string) {
    exists a :: s == a + suffix
  }

  lemma PrefixExact(s: string, prefix: string)
    ensures HasPrefix(s, prefix) <==> BeginsWith(s, prefix)
  {
    if HasPrefix(s, prefix) {
      assert s == prefix + s[|prefix|..];
    }
  }

  lemma SuffixExact(s: string, suffix: string)
    ensures HasSuffix(s, suffix) <==> FinishesWith(s, suffix)
  {
    if HasSuffix(s, suffix) {
      assert s == s[..|s| - |suffix|] + suffix;
    }
  }

  predicate AllSpace(s: string) {
    forall c :: c in s ==> IsSpace(c)
  }

  lemma {:induction false} TrimLeftParts(s: string) returns (a: string)
    ensures s == a + TrimLeft(s) && AllSpace(a)
    ensures TrimLeft(s) == "" || !IsSpace(TrimLeft(s)[0])
  {
    if s != "" && IsSpace(s[0]) {
      var rest := TrimLeftParts(s[1..]);
      a := [s[0]] + rest;
      assert s == [s[0]] + s[1..];
    } else {
      a := "";
    }
  }

  lemma {:induction false} TrimRightParts(s: string) returns (b: string)
    ensures s == TrimRight(s) + b && AllSpace(b)
    ensures TrimRight(s) == "" || (!IsSpace(TrimRight(s)[|TrimRight(s)| - 1]) && TrimRight(s)[0] == s[0])
    decreases |s|
  {
    if s != "" && IsSpace(s[|s| - 1]) {
      var front := TrimRightParts(s[..|s| - 1]);
      b := front + [s[|s| - 1]];
      assert s == s[..|s| - 1] + [s[|s| - 1]];
    } else {
      b := "";
    }
  }

  lemma {:induction false} TrimLeftOff(a: string, s: string)
    requires AllSpace(a) && (s == "" || !IsSpace(s[0]))
    ensures TrimLeft(a + s) == s
    decreases |a|
  {
    if a == "" {
      assert a + s == s;
    } else {
      assert a[0] in a && (a + s)[1..] == a[1..] + s;
      TrimLeftOff(a[1..], s);
    }
  }

  lemma {:induction false} TrimRightOff(s: string, b: string)
    requires AllSpace(b) && (s == "" || !IsSpace(s[|s| - 1]))
    ensures TrimRight(s + b) == s
    decreases |b|
  {
    if b == "" {
      assert s + b == s;
    } else {
      assert b[|b| - 1] in b && (s + b)[..|s + b| - 1] == s + b[..|b| - 1];
      TrimRightOff(s, b[..|b| - 1]);
    }
  }

  /** The text between white space at either end. */
  ghost predicate TrimsTo(s: string, t: string) {
    Trimmed(t) && exists a, b :: AllSpace(a) && AllSpace(b) && s == a + t + b
  }

  lemma TrimmedOff(a: string, t: string, b: string)
    requires Trimmed(t) && AllSpace(a) && AllSpace(b)
    ensures TrimSpace(a + t + b) == t
  {
    if t == "" {
      assert a + t + b == a + b;
      AllSpaceTrims(a + b);
    } else {
      assert a + t + b == a + (t + b);
      TrimLeftOff(a, t + b);
      TrimRightOff(t, b);
    }
  }

  lemma TrimsToItsTrim(s: string)
    ensures TrimsTo(s, TrimSpace(s))
  {
    var a := TrimLeftParts(s);
    var b := TrimRightParts(TrimLeft(s));
    assert s == a + TrimSpace(s) + b;
  }

  lemma TrimExact(s: string, t: string)
    ensures TrimSpace(s) == t <==> TrimsTo(s, t)
  {
    TrimsToItsTrim(s);
    if TrimsTo(s, t) {
      var a, b :| AllSpace(a) && AllSpace(b) && s == a + t + b;
      TrimmedOff(a, t, b);
    }
  }

  lemma AllSpaceTrims(s: string)
    requires AllSpace(s)
    ensures TrimSpace(s) == ""
  {
    assert s == s + "";
    TrimLeftOff(s, "");
  }

  /** Every text is the join of its pieces, and none of them contains the separator. */
  lemma {:induction false} JoinOfSplit(s: string, sep: char)
    ensures Join(Split(s, sep), [sep]) == s
    decreases |s|
  {
    if s != "" {
      JoinOfSplit(s[1..], sep);
      var rest := Split(s[1..], sep);
      assert s == [s[0]] + s[1..];
      if s[0] == sep {
        assert ([""] + rest)[1..] == rest;
        assert "" + [sep] == [sep];
      } else if |rest| > 1 {
        assert ([[s[0]] + rest[0]] + rest[1..])[1..] == rest[1..];
        assert ([s[0]] + rest[0]) + [sep] + Join(rest[1..], [sep]) == [s[0]] + (rest[0] + [sep] + Join(rest[1..], [sep]));
      }
    }
  }

  lemma {:induction false} SplitPieces(s: string, sep: char)
    ensures forall p <- Split(s, sep) :: sep !in p
    decreases |s|
  {
    if s != "" {
      SplitPieces(s[1..], sep);
      var rest := Split(s[1..], sep);
      assert rest[0] in rest;
      assert forall p <- rest[1..] :: p in rest;
    }
  }
}
