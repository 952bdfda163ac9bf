/** What each error of the manifest check says about the document. */
module ManifestErrors {
  import opened ManifestJson

  /** The name occurs twice, or once more than among those seen before. */
  ghost predicate Clashes(names: seq<string>, seen: set<string>, k: string) {
    || (k in seen && k in names)
    || exists i, j :: 0 <= i < j < |names| && names[i] == k && names[j] == k
  }

  lemma ClashesCons(n: string, names: seq<string>, seen: set<string>, k: string)
    ensures (n == k && n in seen) || Clashes(names, seen + {n}, k) ==> Clashes([n] + names, seen, k)
    ensures Clashes(names, seen, k) ==> Clashes([n] + names, seen, k)
  {
    var all := [n] + names;
    assert all[0] == n;
    if k in names {
      var i :| 0 <= i < |names| && names[i] == k;
      assert all[i + 1] == k;
    }
    if i, j :| 0 <= i < j < |names| && names[i] == k && names[j] == k {
      assert all[i + 1] == k && all[j + 1] == k;
    }
  }

  /** Some object inside the value has the name twice, among the names as they are read. */
  ghost predicate RepeatsIn(j: Json, k: string)
    decreases j
  {
    match j
    case Text(_) => false
    case Scalar => false
    case Arr(items) => ItemsRepeat(items, k)
    case Obj(members) => Clashes(NamesRead(members, ""), {}, k) || MembersRepeat(members, k)
  }

  ghost predicate ItemsRepeat(items: seq<Json>, k: string)
    decreases items
  {
    items != [] && (RepeatsIn(items[0], k) || ItemsRepeat(items[1..], k))
  }

  ghost predicate MembersRepeat(members: seq<Member>, k: string)
    decreases members
  {
    members != [] && (RepeatsIn(members[0].value, k) || MembersRepeat(members[1..], k))
  }

  /** An error of a container, with so many containers around it. */
  ghost predicate ShownBy(e: JsonError, j: Json, depth: nat, reserved: bool) {
    match e
    case TooDeep => depth + Depth(j) > 32
    case DuplicateKey(k) => RepeatsIn(j, k)
    case ReservedKey => reserved && j.Obj? && "signatures" in NamesRead(j.members, "")
    case ParseError => false
  }

  ghost predicate ShownByItems(e: JsonError, items: seq<Json>, depth: nat) {
    match e
    case TooDeep => depth + ItemsDepth(items) > 32
    case DuplicateKey(k) => ItemsRepeat(items, k)
    case _ => false
  }

  /** An error of the members from some point on, with the names still to be read and those already seen. */
  ghost predicate ShownByMembers(e: JsonError, members: seq<Member>, names: seq<string>, seen: set<string>, depth: nat, reserved: bool) {
    match e
    case TooDeep => depth + MembersDepth(members) > 32
    case DuplicateKey(k) => Clashes(names, seen, k) || MembersRepeat(members, k)
    case ReservedKey => reserved && "signatures" in names
    case ParseError => false
  }

  lemma {:induction false} ContentsShown(j: Json, depth: nat, reserved: bool)
    requires j.Arr? || j.Obj?
    ensures Contents(j, depth, reserved).Fail? ==> ShownBy(Contents(j, depth, reserved).error, j, depth, reserved)
    decreases j, 0
  {
    if depth + 1 <= MAX_MANIFEST_DEPTH {
      if j.Arr? {
        ItemsShown(j.items, Frame(false, {}, ""), depth + 1, reserved);
      } else {
        MembersShown(j.members, Frame(true, {}, ""), depth + 1, reserved);
      }
    }
  }

  lemma {:induction false} ItemsShown(items: seq<Json>, f: Frame, depth: nat, reserved: bool)
    requires !f.isObj && depth <= MAX_MANIFEST_DEPTH
    ensures Items(items, f, depth, reserved).Fail? ==> ShownByItems(Items(items, f, depth, reserved).error, items, depth)
    decreases items, 0
  {
    if items != [] {
      if items[0].Arr? || items[0].Obj? {
        ContentsShown(items[0], depth, false);
      }
      var r := ValueIn(f, items[0], depth, reserved);
      if r.Pass? {
        ItemsShown(items[1..], r.value, depth, reserved);
      }
    }
  }

  lemma NameShown(f: Frame, name: string, members: seq<Member>, rest: seq<string>, depth: nat, reserved: bool)
    requires f.isObj && f.key == "" && Registered(f, name, reserved).Fail?
    ensures ShownByMembers(Registered(f, name, reserved).error, members, [name] + rest, f.seen, depth, reserved)
  {
    ClashesCons(name, rest, f.seen, name);
    assert ([name] + rest)[0] == name;
  }

  lemma NamesBehind(e: JsonError, name: string, members: seq<Member>, rest: seq<string>, seen: set<string>, depth: nat, reserved: bool)
    requires ShownByMembers(e, members, rest, seen + {name}, depth, reserved)
    ensures ShownByMembers(e, members, [name] + rest, seen, depth, reserved)
  {
    if e.DuplicateKey? {
      ClashesCons(name, rest, seen, e.key);
    }
  }

  lemma {:induction false} MembersShown(members: seq<Member>, f: Frame, depth: nat, reserved: bool)
    requires f.isObj && depth <= MAX_MANIFEST_DEPTH
    ensures Members(members, f, depth, reserved).Fail? ==>
              ShownByMembers(Members(members, f, depth, reserved).error, members, NamesRead(members, f.key), f.seen, depth, reserved)
    decreases members, 2
  {
    var r := Members(members, f, depth, reserved);
    if members != [] && r.Fail? {
      var m := members[0];
      var f1 := Taken(f, StringToken(m.name), reserved);
      var key1 := if f.key == "" then m.name else "";
      var rest1 := AfterName(members, key1);
      assert NamesRead(members, f.key) == if f.key == "" then [m.name] + rest1 else rest1;
      if f1.Fail? {
        NameShown(f, m.name, members, rest1, depth, reserved);
      } else {
        ValueShown(members, f1.value, depth, reserved);
        if f.key == "" {
          NamesBehind(r.error, m.name, members, rest1, f.seen, depth, reserved);
        }
      }
    }
  }

  lemma {:induction false} ValueShown(members: seq<Member>, f: Frame, depth: nat, reserved: bool)
    requires members != [] && f.isObj && depth <= MAX_MANIFEST_DEPTH
    ensures var r := ValueIn(f, members[0].value, depth, reserved);
            && (r.Fail? ==> ShownByMembers(r.error, members, AfterName(members, f.key), f.seen, depth, reserved))
            && (r.Pass? && Members(members[1..], r.value, depth, reserved).Fail? ==>
                  ShownByMembers(Members(members[1..], r.value, depth, reserved).error, members, AfterName(members, f.key), f.seen, depth, reserved))
    decreases members, 1
  {
    var v := members[0].value;
    var rest := members[1..];
    var r := ValueIn(f, v, depth, reserved);
    if r.Fail? {
      if v.Arr? || v.Obj? {
        ContentsShown(v, depth, false);
      } else {
        NameShown(f, v.s, members, NamesRead(rest, v.s), depth, reserved);
      }
    } else {
      MembersShown(rest, r.value, depth, reserved);
      var after := Members(rest, r.value, depth, reserved);
      if after.Fail? {
        if v.Text? && f.key == "" {
          NamesBehind(after.error, v.s, members, NamesRead(rest, v.s), f.seen, depth, reserved);
        }
      }
    }
  }

  lemma {:induction false} DocumentShown(values: seq<Json>, saw: bool)
    ensures Document(values, saw).Fail? ==>
              match Document(values, saw).error
              case TooDeep => exists v :: v in values && Depth(v) > 32
              case DuplicateKey(k) => exists v :: v in values && RepeatsIn(v, k)
              case ReservedKey => !saw && !RootFree(values)
              case ParseError => false
    decreases |values|
  {
    if values != [] {
      var v := values[0];
      assert v in values && forall x :: x in values[1..] ==> x in values;
      if Container(v) {
        ContentsShown(v, 0, !saw);
        DocumentShown(values[1..], true);
      } else {
        DocumentShown(values[1..], saw);
      }
    }
  }

  /** The errors: too deep means that some value nests more than 32 containers, a duplicate key that some object
      reads that very name twice, and the reserved key that the first container reads "signatures". */
  lemma ErrorsShown(values: seq<Json>)
    ensures var r := Run(FRESH, StreamTokens(values));
            r.Fail? ==>
              match r.error
              case TooDeep => exists v :: v in values && Depth(v) > 32
              case DuplicateKey(k) => exists v :: v in values && RepeatsIn(v, k)
              case ReservedKey => !RootFree(values)
              case ParseError => false
  {
    RunStream(false, values);
    DocumentShown(values, false);
  }
}
