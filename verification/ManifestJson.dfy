/** The structural pre-check of a bundle manifest (dipx/manifest.go): one pass over the JSON tokens
    with a stack of container frames, against a recursive reading of the JSON values. */
module ManifestJson {

  const MAX_MANIFEST_DEPTH: nat := 32
  const RESERVED := "signatures"

  // ----- values and their tokens

  datatype Json =
    | Text(s: string)
    | Scalar
    | Arr(items: seq<Json>)
    | Obj(members: seq<Member>)

  datatype Member = Member(name: string, value: Json)

  datatype Token = OpenObject | OpenArray | Close | StringToken(s: string) | OtherToken

  predicate Container(j: Json) {
    j.Arr? || j.Obj?
  }

  function Tokens(j: Json): seq<Token>
    decreases j
  {
    match j
    case Text(s) => [StringToken(s)]
    case Scalar => [OtherToken]
    case Arr(items) => [OpenArray] + StreamTokens(items) + [Close]
    case Obj(members) => [OpenObject] + MemberTokens(members) + [Close]
  }

  /** The tokens of several values in a row: the items of an array, or a whole document. */
  function StreamTokens(values: seq<Json>): seq<Token>
    decreases values
  {
    if values == [] then [] else Tokens(values[0]) + StreamTokens(values[1..])
  }

  function MemberTokens(members: seq<Member>): seq<Token>
    decreases members
  {
    if members == [] then []
    else [StringToken(members[0].name)] + (Tokens(members[0].value) + MemberTokens(members[1..]))
  }

  /** No Close without its Open: what the token decoder guarantees, even before a syntax error. */
  predicate Nested(tokens: seq<Token>, depth: nat)
    decreases |tokens|
  {
    tokens == [] ||
    match tokens[0]
    case Close => depth > 0 && Nested(tokens[1..], depth - 1)
    case OpenObject => Nested(tokens[1..], depth + 1)
    case OpenArray => Nested(tokens[1..], depth + 1)
    case _ => Nested(tokens[1..], depth)
  }

  // ----- the stack machine, one token at a time

  datatype JsonError = ParseError | TooDeep | DuplicateKey(key: string) | ReservedKey

  datatype Outcome<+T> = Pass(value: T) | Fail(error: JsonError)

  /** One open container: for objects the names seen and the name that awaits its value. */
  datatype Frame = Frame(isObj: bool, seen: set<string>, key: string)

  datatype State = State(stack: seq<Frame>, sawTopLevel: bool)

  function Registered(f: Frame, key: string, reserved: bool): Outcome<Frame> {
    if key in f.seen then Fail(DuplicateKey(key))
    else if reserved && key == RESERVED then Fail(ReservedKey)
    else Pass(f.(seen := f.seen + {key}, key := key))
  }

  /** A token that is no delimiter: inside an object, a name when none is pending. */
  function Taken(f: Frame, tok: Token, reserved: bool): Outcome<Frame> {
    if !f.isObj then Pass(f)
    else if f.key != "" then Pass(f.(key := ""))
    else if tok.StringToken? then Registered(f, tok.s, reserved)
    else Pass(f)
  }

  function Cleared(stack: seq<Frame>): seq<Frame> {
    if stack == [] then [] else stack[..|stack| - 1] + [stack[|stack| - 1].(key := "")]
  }

  /** A token's effect; a Close with nothing open, which no decoder delivers, changes nothing here. */
  function Step(st: State, tok: Token): Outcome<State> {
    match tok
    case Close =>
      if st.stack == [] then Pass(st)
      else Pass(State(Cleared(st.stack[..|st.stack| - 1]), st.sawTopLevel || |st.stack| == 1))
    case OpenObject =>
      if |st.stack| + 1 > MAX_MANIFEST_DEPTH then Fail(TooDeep)
      else Pass(st.(stack := st.stack + [Frame(true, {}, "")]))
    case OpenArray =>
      if |st.stack| + 1 > MAX_MANIFEST_DEPTH then Fail(TooDeep)
      else Pass(st.(stack := st.stack + [Frame(false, {}, "")]))
    case _ =>
      if st.stack == [] then Pass(st)
      else
        match Taken(st.stack[|st.stack| - 1], tok, |st.stack| == 1 && !st.sawTopLevel)
        case Fail(e) => Fail(e)
        case Pass(f) => Pass(st.(stack := st.stack[..|st.stack| - 1] + [f]))
  }

  function Run(st: State, tokens: seq<Token>): Outcome<State>
    decreases |tokens|
  {
    if tokens == [] then Pass(st)
    else
      match Step(st, tokens[0])
      case Fail(e) => Fail(e)
      case Pass(next) => Run(next, tokens[1..])
  }

  const FRESH := State([], false)

  class Validator {
    var stack: seq<Frame>
    var depth: int
    var sawTopLevel: bool

    ghost predicate Valid()
      reads this
    {
      depth == |stack|
    }

    ghost function Now(): State
      reads this
    {
      State(stack, sawTopLevel)
    }

    constructor ()
      ensures Valid() && Now() == FRESH
    {
      stack, depth, sawTopLevel := [], 0, false;
    }

    method OpenContainer(tok: Token) returns (r: Outcome<()>)
      requires Valid() && (tok.OpenObject? || tok.OpenArray?)
      modifies this
      ensures r.Fail? <==> Step(old(Now()), tok).Fail?
      ensures r.Fail? ==> Step(old(Now()), tok) == Fail(r.error)
      ensures r.Pass? ==> Valid() && Step(old(Now()), tok) == Pass(Now())
    {
      depth := depth + 1;
      if depth > MAX_MANIFEST_DEPTH {
        return Fail(TooDeep);
      }
      if tok == OpenObject {
        stack := stack + [Frame(true, {}, "")];
      } else {
        stack := stack + [Frame(false, {}, "")];
      }
      r := Pass(());
    }

    method ClearPendingKey()
      modifies `stack
      ensures stack == Cleared(old(stack))
    {
      if |stack| == 0 { return; }
      stack := stack[..|stack| - 1] + [stack[|stack| - 1].(key := "")];
    }

    method CloseContainer()
      requires Valid() && stack != []
      modifies this
      ensures Valid() && Step(old(Now()), Close) == Pass(Now())
    {
      depth := depth - 1;
      stack := stack[..|stack| - 1];
      ClearPendingKey();
      if depth == 0 {
        sawTopLevel := true;
      }
    }

    method HandleValueToken(tok: Token, atTopLevelObject: bool) returns (r: Outcome<()>)
      requires Valid() && (tok.StringToken? || tok.OtherToken?)
      requires atTopLevelObject == (|stack| == 1 && !sawTopLevel)
      modifies `stack
      ensures r.Fail? ==> Step(old(Now()), tok) == Fail(r.error)
      ensures r.Pass? ==> Valid() && Step(old(Now()), tok) == Pass(Now())
    {
      if |stack| == 0 {
        return Pass(());
      }
      var top := stack[|stack| - 1];
      if !top.isObj {
        assert stack == stack[..|stack| - 1] + [top];
        return Pass(());
      }
      if top.key == "" {
        if !tok.StringToken? {
          assert stack == stack[..|stack| - 1] + [top];
          return Pass(());
        }
        r := RegisterObjectKey(tok.s, atTopLevelObject);
        assert r.Pass? ==> stack == stack[..|stack| - 1] + [stack[|stack| - 1]];
        return;
      }
      stack := stack[..|stack| - 1] + [top.(key := "")];
      r := Pass(());
    }

    method RegisterObjectKey(key: string, atTopLevelObject: bool) returns (r: Outcome<()>)
      requires stack != []
      modifies `stack
      ensures r.Fail? ==> Registered(old(stack[|stack| - 1]), key, atTopLevelObject) == Fail(r.error)
      ensures r.Pass? ==>
        && stack != [] && stack[..|stack| - 1] == old(stack[..|stack| - 1])
        && |stack| == old(|stack|)
        && Registered(old(stack[|stack| - 1]), key, atTopLevelObject) == Pass(stack[|stack| - 1])
    {
      var top := stack[|stack| - 1];
      if key in top.seen {
        return Fail(DuplicateKey(key));
      }
      top := top.(seen := top.seen + {key});
      top := top.(key := key);
      stack := stack[..|stack| - 1] + [top];
      if atTopLevelObject && key == RESERVED {
        return Fail(ReservedKey);
      }
      r := Pass(());
    }

    method Dispatch(tok: Token) returns (r: Outcome<()>)
      requires Valid() && (tok.Close? ==> stack != [])
      modifies this
      ensures r.Fail? ==> Step(old(Now()), tok) == Fail(r.error)
      ensures r.Pass? ==> Valid() && Step(old(Now()), tok) == Pass(Now())
    {
      match tok {
        case OpenObject => r := OpenContainer(tok);
        case OpenArray => r := OpenContainer(tok);
        case Close => CloseContainer(); r := Pass(());
        case _ => r := HandleValueToken(tok, |stack| == 1 && !sawTopLevel);
      }
    }
  }

  function Then(r: Outcome<State>, tokens: seq<Token>): Outcome<State> {
    match r
    case Fail(e) => Fail(e)
    case Pass(st) => Run(st, tokens)
  }

  lemma RunFrom(st: State, tokens: seq<Token>, i: nat)
    requires i < |tokens|
    ensures Run(st, tokens[i..]) == Then(Step(st, tokens[i]), tokens[i + 1..])
  {
    assert tokens[i..][1..] == tokens[i + 1..];
  }

  lemma NestedFrom(tokens: seq<Token>, i: nat, depth: nat)
    requires i < |tokens| && Nested(tokens[i..], depth)
    ensures match tokens[i]
            case Close => depth > 0 && Nested(tokens[i + 1..], depth - 1)
            case OpenObject => Nested(tokens[i + 1..], depth + 1)
            case OpenArray => Nested(tokens[i + 1..], depth + 1)
            case _ => Nested(tokens[i + 1..], depth)
  {
    assert tokens[i..][1..] == tokens[i + 1..];
  }

  /** The decoder delivers the tokens and then the end of input or, when broken, a syntax error. */
  method ValidateJSONStructure(tokens: seq<Token>, broken: bool) returns (r: Outcome<()>)
    requires Nested(tokens, 0)
    ensures match Run(FRESH, tokens)
            case Fail(e) => r == Fail(e)
            case Pass(_) => r == if broken then Fail(ParseError) else Pass(())
  {
    var v := new Validator();
    var i := 0;
    while i < |tokens|
      invariant 0 <= i <= |tokens| && v.Valid() && fresh(v)
      invariant Nested(tokens[i..], |v.stack|)
      invariant Run(FRESH, tokens) == Run(v.Now(), tokens[i..])
    {
      RunFrom(v.Now(), tokens, i);
      NestedFrom(tokens, i, |v.stack|);
      r := v.Dispatch(tokens[i]);
      if r.Fail? { return; }
      i := i + 1;
    }
    r := if broken then Fail(ParseError) else Pass(());
  }

  // ----- the same reading, by recursion over the values

  /** What a container does, with the given number of containers open around it. */
  function Contents(j: Json, depth: nat, reserved: bool): Outcome<()>
    requires j.Arr? || j.Obj?
    decreases j, 0
  {
    if depth + 1 > MAX_MANIFEST_DEPTH then Fail(TooDeep)
    else
      match (match j
             case Arr(items) => Items(items, Frame(false, {}, ""), depth + 1, reserved)
             case Obj(members) => Members(members, Frame(true, {}, ""), depth + 1, reserved))
      case Fail(e) => Fail(e)
      case Pass(_) => Pass(())
  }

  /** What a value does to the frame of the container it stands in. */
  function ValueIn(f: Frame, j: Json, depth: nat, reserved: bool): Outcome<Frame>
    decreases j, 1
  {
    match j
    case Text(s) => Taken(f, StringToken(s), reserved)
    case Scalar => Taken(f, OtherToken, reserved)
    case _ =>
      match Contents(j, depth, false)
      case Fail(e) => Fail(e)
      case Pass(_) => Pass(f.(key := ""))
  }

  function Items(items: seq<Json>, f: Frame, depth: nat, reserved: bool): Outcome<Frame>
    decreases items, 0
  {
    if items == [] then Pass(f)
    else
      match ValueIn(f, items[0], depth, reserved)
      case Fail(e) => Fail(e)
      case Pass(f') => Items(items[1..], f', depth, reserved)
  }

  function Members(members: seq<Member>, f: Frame, depth: nat, reserved: bool): Outcome<Frame>
    decreases members, 0
  {
    if members == [] then Pass(f)
    else
      match Taken(f, StringToken(members[0].name), reserved)
      case Fail(e) => Fail(e)
      case Pass(f') =>
        match ValueIn(f', members[0].value, depth, reserved)
        case Fail(e) => Fail(e)
        case Pass(f'') => Members(members[1..], f'', depth, reserved)
  }

  function Document(values: seq<Json>, sawTopLevel: bool): Outcome<bool>
    decreases |values|
  {
    if values == [] then Pass(sawTopLevel)
    else if values[0].Text? || values[0].Scalar? then Document(values[1..], sawTopLevel)
    else
      match Contents(values[0], 0, !sawTopLevel)
      case Fail(e) => Fail(e)
      case Pass(_) => Document(values[1..], true)
  }

  lemma {:induction false} RunSplit(st: State, a: seq<Token>, b: seq<Token>)
    ensures Run(st, a + b) == Then(Run(st, a), b)
    decreases |a|
  {
    if a == [] {
      assert a + b == b;
    } else {
      assert (a + b)[0] == a[0] && (a + b)[1..] == a[1..] + b;
      var next := Step(st, a[0]);
      if next.Pass? {
        RunSplit(next.value, a[1..], b);
      }
    }
  }

  function Onto(below: seq<Frame>, saw: bool, r: Outcome<Frame>): Outcome<State> {
    match r
    case Fail(e) => Fail(e)
    case Pass(f) => Pass(State(below + [f], saw))
  }

  predicate ReservedAt(below: seq<Frame>, saw: bool) {
    below == [] && !saw
  }

  lemma RunOne(st: State, tok: Token)
    ensures Run(st, [tok]) == Step(st, tok)
  {
    if Step(st, tok).Pass? {
      assert Run(Step(st, tok).value, [tok][1..]) == Step(st, tok);
    }
  }

  lemma RunCons(st: State, tok: Token, rest: seq<Token>)
    ensures Run(st, [tok] + rest) == Then(Step(st, tok), rest)
  {
    assert ([tok] + rest)[1..] == rest;
  }

  lemma StepText(below: seq<Frame>, f: Frame, saw: bool, tok: Token)
    requires tok.StringToken? || tok.OtherToken?
    ensures Step(State(below + [f], saw), tok) == Onto(below, saw, Taken(f, tok, ReservedAt(below, saw)))
  {
    assert (below + [f])[..|below|] == below;
  }

  lemma StepClose(below: seq<Frame>, f: Frame, inner: Frame, saw: bool)
    ensures Step(State(below + [f] + [inner], saw), Close) == Pass(State(below + [f.(key := "")], saw))
  {
    var stack := below + [f] + [inner];
    assert stack[..|stack| - 1] == below + [f];
    assert (below + [f])[..|below|] == below;
  }

  /** The tokens of a value do to the top frame what the value does to it, and nothing below it. */
  lemma {:induction false} RunValue(below: seq<Frame>, f: Frame, saw: bool, j: Json)
    ensures Run(State(below + [f], saw), Tokens(j))
         == Onto(below, saw, ValueIn(f, j, |below| + 1, ReservedAt(below, saw)))
    decreases j, 1
  {
    match j
    case Text(s) =>
      RunOne(State(below + [f], saw), StringToken(s));
      StepText(below, f, saw, StringToken(s));
    case Scalar =>
      RunOne(State(below + [f], saw), OtherToken);
      StepText(below, f, saw, OtherToken);
    case _ =>
      RunContainer(below + [f], saw, j);
      RunInner(below, f, saw, j);
  }

  /** A container inside another one: closed, it takes the place of the pending value. */
  lemma RunInner(below: seq<Frame>, f: Frame, saw: bool, j: Json)
    requires Container(j) && RunsAsContents(below + [f], saw, j)
    ensures Run(State(below + [f], saw), Tokens(j)) == Onto(below, saw, ValueIn(f, j, |below| + 1, ReservedAt(below, saw)))
  {
    var stack := below + [f];
    assert !ReservedAt(stack, saw);
    if Contents(j, |stack|, false).Pass? {
      var inner :| Run(State(stack, saw), Tokens(j)) == Step(State(stack + [inner], saw), Close);
      StepClose(below, f, inner, saw);
    }
  }

  ghost predicate RunsAsContents(stack: seq<Frame>, saw: bool, j: Json)
    requires Container(j)
  {
    match Contents(j, |stack|, ReservedAt(stack, saw))
    case Fail(e) => Run(State(stack, saw), Tokens(j)) == Fail(e)
    case Pass(_) => exists inner :: Run(State(stack, saw), Tokens(j)) == Step(State(stack + [inner], saw), Close)
  }

  /** A container runs like its contents, and then closes. */
  lemma {:induction false} RunContainer(stack: seq<Frame>, saw: bool, j: Json)
    requires Container(j)
    ensures RunsAsContents(stack, saw, j)
    decreases j, 0
  {
    var st := State(stack, saw);
    var open := if j.Arr? then OpenArray else OpenObject;
    var body := if j.Arr? then StreamTokens(j.items) else MemberTokens(j.members);
    var f := Frame(j.Obj?, {}, "");
    assert Tokens(j) == [open] + (body + [Close]);
    RunCons(st, open, body + [Close]);
    if |stack| + 1 <= MAX_MANIFEST_DEPTH {
      var st' := State(stack + [f], saw);
      assert Step(st, open) == Pass(st');
      RunSplit(st', body, [Close]);
      if j.Arr? {
        RunItems(stack, f, saw, j.items);
      } else {
        RunMembers(stack, f, saw, j.members);
      }
      var r := Run(st', body);
      if r.Pass? {
        RunOne(r.value, Close);
      }
    }
  }

  lemma {:induction false} RunItems(below: seq<Frame>, f: Frame, saw: bool, items: seq<Json>)
    ensures Run(State(below + [f], saw), StreamTokens(items))
         == Onto(below, saw, Items(items, f, |below| + 1, ReservedAt(below, saw)))
    decreases items, 0
  {
    if items != [] {
      RunSplit(State(below + [f], saw), Tokens(items[0]), StreamTokens(items[1..]));
      RunValue(below, f, saw, items[0]);
      var r := ValueIn(f, items[0], |below| + 1, ReservedAt(below, saw));
      if r.Pass? {
        RunItems(below, r.value, saw, items[1..]);
      }
    }
  }

  lemma {:induction false} RunMembers(below: seq<Frame>, f: Frame, saw: bool, members: seq<Member>)
    ensures Run(State(below + [f], saw), MemberTokens(members))
         == Onto(below, saw, Members(members, f, |below| + 1, ReservedAt(below, saw)))
    decreases members, 0
  {
    if members != [] {
      var name := StringToken(members[0].name);
      var reserved := ReservedAt(below, saw);
      var st := State(below + [f], saw);
      RunCons(st, name, Tokens(members[0].value) + MemberTokens(members[1..]));
      StepText(below, f, saw, name);
      var r := Taken(f, name, reserved);
      if r.Pass? {
        RunSplit(State(below + [r.value], saw), Tokens(members[0].value), MemberTokens(members[1..]));
        RunValue(below, r.value, saw, members[0].value);
        var r' := ValueIn(r.value, members[0].value, |below| + 1, reserved);
        if r'.Pass? {
          RunMembers(below, r'.value, saw, members[1..]);
        }
      }
    }
  }

  lemma {:induction false} RunStream(saw: bool, values: seq<Json>)
    ensures match Document(values, saw)
            case Fail(e) => Run(State([], saw), StreamTokens(values)) == Fail(e)
            case Pass(saw') => Run(State([], saw), StreamTokens(values)) == Pass(State([], saw'))
    decreases |values|
  {
    if values != [] {
      var j := values[0];
      RunSplit(State([], saw), Tokens(j), StreamTokens(values[1..]));
      if j.Text? || j.Scalar? {
        RunOne(State([], saw), Tokens(j)[0]);
        RunStream(saw, values[1..]);
      } else {
        RunContainer([], saw, j);
        if Contents(j, 0, !saw).Pass? {
          RunStream(true, values[1..]);
        }
      }
    }
  }

  // ----- what is accepted

  function Max(a: nat, b: nat): nat { if a < b then b else a }

  /** How many containers lie inside one another. */
  function Depth(j: Json): nat
    decreases j
  {
    match j
    case Text(_) => 0
    case Scalar => 0
    case Arr(items) => 1 + ItemsDepth(items)
    case Obj(members) => 1 + MembersDepth(members)
  }

  function ItemsDepth(items: seq<Json>): nat
    decreases items
  {
    if items == [] then 0 else Max(Depth(items[0]), ItemsDepth(items[1..]))
  }

  function MembersDepth(members: seq<Member>): nat
    decreases members
  {
    if members == [] then 0 else Max(Depth(members[0].value), MembersDepth(members[1..]))
  }

  predicate Distinct(names: seq<string>) {
    names == [] || (names[0] !in names[1..] && Distinct(names[1..]))
  }

  function Names(members: seq<Member>): seq<string> {
    if members == [] then [] else [members[0].name] + Names(members[1..])
  }

  /** The strings that the machine takes for names: an empty name leaves no trace of waiting for its
      value, so a string value after it is taken for a name, and the next name for a value. */
  function NamesRead(members: seq<Member>, key: string): seq<string> {
    if members == [] then []
    else
      var m := members[0];
      var read := if key == "" then [m.name] else [];
      var key' := if key == "" then m.name else "";
      if key' == "" && m.value.Text? then read + [m.value.s] + NamesRead(members[1..], m.value.s)
      else read + NamesRead(members[1..], "")
  }

  /** Every object, at every level, has distinct names: the names it has, or those the machine reads. */
  predicate DistinctNames(j: Json, asRead: bool)
    decreases j
  {
    match j
    case Text(_) => true
    case Scalar => true
    case Arr(items) => ItemsDistinct(items, asRead)
    case Obj(members) =>
      && Distinct(if asRead then NamesRead(members, "") else Names(members))
      && MembersDistinct(members, asRead)
  }

  predicate ItemsDistinct(items: seq<Json>, asRead: bool)
    decreases items
  {
    items == [] || (DistinctNames(items[0], asRead) && ItemsDistinct(items[1..], asRead))
  }

  predicate MembersDistinct(members: seq<Member>, asRead: bool)
    decreases members
  {
    members == [] || (DistinctNames(members[0].value, asRead) && MembersDistinct(members[1..], asRead))
  }

  predicate Free(names: seq<string>, seen: set<string>, reserved: bool) {
    && Distinct(names)
    && (forall n <- names :: n !in seen)
    && (reserved ==> RESERVED !in names)
  }

  predicate Fits(j: Json, depth: nat) {
    depth + Depth(j) <= 32 && DistinctNames(j, true)
  }

  lemma FreeCons(n: string, names: seq<string>, seen: set<string>, reserved: bool)
    ensures Free([n] + names, seen, reserved)
       <==> n !in seen && (reserved ==> n != RESERVED) && Free(names, seen + {n}, reserved)
  {
    var all := [n] + names;
    assert all[0] == n && all[1..] == names;
    if Free(all, seen, reserved) {
      assert n in all;
      forall m | m in names ensures m !in seen + {n} {
        assert m in all;
      }
    }
    if n !in seen && (reserved ==> n != RESERVED) && Free(names, seen + {n}, reserved) {
      assert forall m <- all :: m == n || m in names;
      assert n !in names;
    }
  }

  lemma {:induction false} ContentsExact(j: Json, depth: nat, reserved: bool)
    requires j.Arr? || j.Obj?
    ensures Contents(j, depth, reserved).Pass?
       <==> Fits(j, depth) && (reserved && j.Obj? ==> RESERVED !in NamesRead(j.members, ""))
    decreases j, 0
  {
    if depth + 1 <= MAX_MANIFEST_DEPTH {
      if j.Arr? {
        ItemsExact(j.items, Frame(false, {}, ""), depth + 1, reserved);
      } else {
        MembersExact(j.members, Frame(true, {}, ""), depth + 1, reserved);
      }
    }
  }

  lemma {:induction false} ItemsExact(items: seq<Json>, f: Frame, depth: nat, reserved: bool)
    requires !f.isObj && depth <= MAX_MANIFEST_DEPTH
    ensures Items(items, f, depth, reserved).Pass?
       <==> depth + ItemsDepth(items) <= MAX_MANIFEST_DEPTH && ItemsDistinct(items, true)
    decreases items, 0
  {
    if items != [] {
      if items[0].Arr? || items[0].Obj? {
        ContentsExact(items[0], depth, false);
      }
      var r := ValueIn(f, items[0], depth, reserved);
      if r.Pass? {
        ItemsExact(items[1..], r.value, depth, reserved);
      }
    }
  }

  lemma {:induction false} MembersExact(members: seq<Member>, f: Frame, depth: nat, reserved: bool)
    requires f.isObj && depth <= MAX_MANIFEST_DEPTH
    ensures Members(members, f, depth, reserved).Pass?
       <==> && depth + MembersDepth(members) <= MAX_MANIFEST_DEPTH && MembersDistinct(members, true)
            && Free(NamesRead(members, f.key), f.seen, reserved)
    decreases members, 2
  {
    if members != [] {
      var m := members[0];
      var f1 := Taken(f, StringToken(m.name), reserved);
      var key1 := if f.key == "" then m.name else "";
      var rest1 := AfterName(members, key1);
      if f.key == "" {
        FreeCons(m.name, rest1, f.seen, reserved);
        assert NamesRead(members, f.key) == [m.name] + rest1;
      } else {
        assert NamesRead(members, f.key) == rest1;
      }
      if f1.Pass? {
        assert f1.value.key == key1;
        ValueThenRest(members, f1.value, depth, reserved);
      }
    }
  }

  /** The names read from the first member's value on. */
  function AfterName(members: seq<Member>, key: string): seq<string>
    requires members != []
  {
    var v := members[0].value;
    if key == "" && v.Text? then [v.s] + NamesRead(members[1..], v.s) else NamesRead(members[1..], "")
  }

  lemma {:induction false} ValueThenRest(members: seq<Member>, f: Frame, depth: nat, reserved: bool)
    requires members != [] && f.isObj && depth <= MAX_MANIFEST_DEPTH
    ensures (var r := ValueIn(f, members[0].value, depth, reserved);
             r.Pass? && Members(members[1..], r.value, depth, reserved).Pass?)
       <==> && depth + MembersDepth(members) <= MAX_MANIFEST_DEPTH && MembersDistinct(members, true)
            && Free(AfterName(members, f.key), f.seen, reserved)
    decreases members, 1
  {
    var v := members[0].value;
    var rest := members[1..];
    var r := ValueIn(f, v, depth, reserved);
    if r.Pass? {
      MembersExact(rest, r.value, depth, reserved);
    }
    if v.Arr? || v.Obj? {
      ContentsExact(v, depth, false);
    } else if v.Text? && f.key == "" {
      FreeCons(v.s, NamesRead(rest, v.s), f.seen, reserved);
      assert Depth(v) == 0 && DistinctNames(v, true);
    } else {
      assert Depth(v) == 0 && DistinctNames(v, true);
      assert r.Pass? && r.value.key == "" && r.value.seen == f.seen;
    }
  }

  predicate RootFree(values: seq<Json>)
    decreases |values|
  {
    values == [] ||
    if Container(values[0]) then values[0].Obj? ==> "signatures" !in NamesRead(values[0].members, "")
    else RootFree(values[1..])
  }

  predicate AllFit(values: seq<Json>)
    decreases |values|
  {
    values == [] || (Fits(values[0], 0) && AllFit(values[1..]))
  }

  lemma {:induction false} DocumentExact(values: seq<Json>, saw: bool)
    ensures Document(values, saw).Pass? <==> AllFit(values) && (saw || RootFree(values))
    decreases |values|
  {
    if values != [] {
      var j := values[0];
      if Container(j) {
        ContentsExact(j, 0, !saw);
        DocumentExact(values[1..], true);
      } else {
        assert Depth(j) == 0;
        DocumentExact(values[1..], saw);
      }
    }
  }

  /** On any stream of values the one pass accepts exactly when every value nests no deeper than the
      limit, no object's names as read repeat, and the first container's names as read do not include
      the reserved one. */
  lemma ValidationExact(values: seq<Json>)
    ensures Run(FRESH, StreamTokens(values)).Pass? <==> AllFit(values) && RootFree(values)
  {
    RunStream(false, values);
    DocumentExact(values, false);
  }

  // ----- when the names read are the names there are

  /** No member at any level has both an empty name and a string value. */
  predicate NoBlankText(j: Json)
    decreases j
  {
    match j
    case Text(_) => true
    case Scalar => true
    case Arr(items) => ItemsNoBlank(items)
    case Obj(members) => MembersNoBlank(members)
  }

  predicate ItemsNoBlank(items: seq<Json>)
    decreases items
  {
    items == [] || (NoBlankText(items[0]) && ItemsNoBlank(items[1..]))
  }

  predicate MembersNoBlank(members: seq<Member>)
    decreases members
  {
    members == [] ||
    (!(members[0].name == "" && members[0].value.Text?) && NoBlankText(members[0].value) && MembersNoBlank(members[1..]))
  }

  lemma {:induction false} NamesAreRead(members: seq<Member>)
    requires MembersNoBlank(members)
    ensures NamesRead(members, "") == Names(members)
    decreases |members|
  {
    if members != [] {
      NamesAreRead(members[1..]);
    }
  }

  lemma {:induction false} DistinctAsRead(j: Json)
    requires NoBlankText(j)
    ensures DistinctNames(j, true) == DistinctNames(j, false)
    decreases j, 0
  {
    match j
    case Arr(items) => ItemsAsRead(items);
    case Obj(members) => NamesAreRead(members); MembersAsRead(members);
    case _ =>
  }

  lemma {:induction false} ItemsAsRead(items: seq<Json>)
    requires ItemsNoBlank(items)
    ensures ItemsDistinct(items, true) == ItemsDistinct(items, false)
    decreases items, 0
  {
    if items != [] {
      DistinctAsRead(items[0]);
      ItemsAsRead(items[1..]);
    }
  }

  lemma {:induction false} MembersAsRead(members: seq<Member>)
    requires MembersNoBlank(members)
    ensures MembersDistinct(members, true) == MembersDistinct(members, false)
    decreases members, 0
  {
    if members != [] {
      DistinctAsRead(members[0].value);
      MembersAsRead(members[1..]);
    }
  }

  /** What the check is for: depth, distinct names at every level, no reserved member at the root. */
  predicate Acceptable(j: Json) {
    && Depth(j) <= 32
    && DistinctNames(j, false)
    && (j.Obj? ==> "signatures" !in Names(j.members))
  }

  lemma OneValue(j: Json)
    ensures Run(FRESH, Tokens(j)).Pass?
       <==> Fits(j, 0) && (j.Obj? ==> RESERVED !in NamesRead(j.members, ""))
  {
    assert [j][1..] == [];
    assert StreamTokens([j]) == Tokens(j);
    assert AllFit([]) && RootFree([]);
    assert AllFit([j]) == Fits(j, 0);
    ValidationExact([j]);
  }

  /** A document with no empty-named string member is accepted exactly when it should be. */
  lemma ManifestCheckExact(j: Json)
    requires NoBlankText(j)
    ensures Run(FRESH, Tokens(j)).Pass? <==> Acceptable(j)
  {
    OneValue(j);
    DistinctAsRead(j);
    if j.Obj? {
      NamesAreRead(j.members);
    }
  }

  /** Without that condition the check errs both ways. After an empty name a string value counts as a
      name and the next name as a value, so a repeated name can go unseen. */
  lemma BlankNameHidesRepeat(b: Member, m: Member)
    requires b.name == "" && b.value.Text? && b.value.s !in {"", RESERVED, m.name}
    requires m.name !in {"", RESERVED} && m.value.Scalar?
    ensures !Acceptable(Obj([b, m, m])) && Run(FRESH, Tokens(Obj([b, m, m]))).Pass?
  {
    FlatDocument([b, m, m]);
    ReadTwice(b, m);
    DistinctThree("", b.value.s, m.name);
  }

  lemma ReadTwice(b: Member, m: Member)
    requires b.name == "" && b.value.Text? && b.value.s != "" && m.name != "" && m.value.Scalar?
    ensures NamesRead([b, m, m], "") == ["", b.value.s, m.name]
    ensures !Distinct(Names([b, m, m]))
  {
    assert [b, m, m][1..] == [m, m] && [m, m][1..] == [m] && [m][1..] == [];
    assert NamesRead([m], "") == [m.name];
    assert NamesRead([m, m], b.value.s) == [m.name];
    assert Names([m]) == [m.name];
    assert Names([m, m]) == [m.name, m.name];
    assert Names([b, m, m])[1..] == [m.name, m.name];
    assert [m.name, m.name][1..] == [m.name];
  }

  lemma DistinctThree(a: string, b: string, c: string)
    requires a != b && b != c && a != c
    ensures Distinct([a, b, c]) && Distinct([a, b])
  {
    assert [a, b, c][1..] == [b, c] && [b, c][1..] == [c] && [c][1..] == [];
    assert [a, b][1..] == [b] && [b][1..] == [];
    assert Distinct([c]) && Distinct([b]);
  }

  /** In the same way the reserved name at the root can go unseen. */
  lemma BlankNameHidesReserved(b: Member, m: Member)
    requires b.name == "" && b.value.Text? && b.value.s !in {"", RESERVED}
    requires m.name == RESERVED && m.value.Scalar?
    ensures !Acceptable(Obj([b, m])) && Run(FRESH, Tokens(Obj([b, m]))).Pass?
  {
    FlatDocument([b, m]);
    assert [b, m][1..] == [m] && [m][1..] == [];
    assert NamesRead([m], b.value.s) == [];
    assert NamesRead([b, m], "") == ["", b.value.s];
    DistinctThree("", b.value.s, RESERVED);
    assert Names([b, m])[1] == RESERVED;
  }

  /** And a good document whose empty-named member is an empty string is refused. */
  lemma BlankTextRefused()
    ensures (var j := Obj([Member("", Text(""))]);
             Acceptable(j) && Run(FRESH, Tokens(j)).Fail?)
  {
    var ms := [Member("", Text(""))];
    FlatDocument(ms);
    assert ms[1..] == [];
    assert Names(ms) == [""];
    assert NamesRead(ms, "") == ["", ""];
    assert ["", ""][1..] == [""];
    assert [""][1..] == [];
  }

  lemma {:induction false} Shallow(members: seq<Member>)
    requires forall m <- members :: !Container(m.value)
    ensures MembersDepth(members) == 0
    ensures MembersDistinct(members, true) && MembersDistinct(members, false)
    decreases |members|
  {
    if members != [] {
      Shallow(members[1..]);
    }
  }

  lemma FlatDocument(members: seq<Member>)
    requires forall m <- members :: !Container(m.value)
    ensures Run(FRESH, Tokens(Obj(members))).Pass?
       <==> Distinct(NamesRead(members, "")) && RESERVED !in NamesRead(members, "")
    ensures Acceptable(Obj(members)) <==> Distinct(Names(members)) && RESERVED !in Names(members)
  {
    Shallow(members);
    OneValue(Obj(members));
  }
}
