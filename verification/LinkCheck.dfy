/**
 The link checker of the shared Deno router, `unsafeLink` in `proxy/runtimes.py`, over a
 finite tree. The real path of a link and the link count of a file are part of the tree.
 */
module LinkCheck {
  import opened Paths
  import opened Options

  /** A link has the real path of its target, or none when it dangles; other files a link count. */
  datatype Entry =
    | Link(name: string, target: Option<string>)
    | Dir(name: string, entries: seq<Entry>)
    | Other(name: string, nlink: nat)

  predicate Reaches(path: string, roots: seq<string>) {
    exists r :: r in roots && AtOrBelow(r, path)
  }

  /** The entry itself is refused; a directory never is. */
  predicate Refused(e: Entry, roots: seq<string>, hardLinks: bool) {
    match e
    case Link(_, target) => target == None || !Reaches(target.value, roots)
    case Dir(_, _) => false
    case Other(_, nlink) => hardLinks && nlink > 1
  }

  /** What the walk over entries i, i+1, ... returns. */
  function FirstUnsafe(dir: string, entries: seq<Entry>, i: nat, roots: seq<string>, hardLinks: bool): Option<string>
    requires i <= |entries|
    decreases entries, |entries| - i
  {
    if i == |entries| then None
    else
      var p := dir + "/" + entries[i].name;
      var bad :=
        if entries[i].Dir? then FirstUnsafe(p, entries[i].entries, 0, roots, hardLinks)
        else if Refused(entries[i], roots, hardLinks) then Some(p) else None;
      if bad.Some? then bad else FirstUnsafe(dir, entries, i + 1, roots, hardLinks)
  }

  /** roots.some(...) */
  method SomeRoot(path: string, roots: seq<string>) returns (found: bool)
    ensures found == Reaches(path, roots)
  {
    for i := 0 to |roots|
      invariant forall j :: 0 <= j < i ==> !AtOrBelow(roots[j], path)
    {
      if AtOrBelow(roots[i], path) {
        return true;
      }
    }
    found := false;
  }

  /** unsafeLink */
  method UnsafeLink(dir: string, entries: seq<Entry>, roots: seq<string>, hardLinks: bool) returns (bad: Option<string>)
    ensures bad == FirstUnsafe(dir, entries, 0, roots, hardLinks)
    decreases entries
  {
    for i := 0 to |entries|
      invariant FirstUnsafe(dir, entries, i, roots, hardLinks) == FirstUnsafe(dir, entries, 0, roots, hardLinks)
    {
      var p := dir + "/" + entries[i].name;
      match entries[i]
      case Link(_, target) =>
        if target == None {
          return Some(p);
        }
        var inside := SomeRoot(target.value, roots);
        if !inside {
          return Some(p);
        }
      case Dir(_, sub) =>
        var inner := UnsafeLink(p, sub, roots, hardLinks);
        if inner.Some? {
          return inner;
        }
      case Other(_, nlink) =>
        if hardLinks && nlink > 1 {
          return Some(p);
        }
    }
    bad := None;
  }

  // ---------------------------------------------------------------------------
  // Anywhere in the tree: an address is the position of an entry at each level.

  function At(entries: seq<Entry>, address: seq<nat>): Option<Entry> {
    if address == [] || address[0] >= |entries| then None
    else if |address| == 1 then Some(entries[address[0]])
    else if entries[address[0]].Dir? then At(entries[address[0]].entries, address[1..])
    else None
  }

  /** The names on the way to the entry, its own last. */
  function Names(entries: seq<Entry>, address: seq<nat>): (names: seq<string>)
    requires At(entries, address).Some?
    ensures |names| == |address|
    decreases address
  {
    [entries[address[0]].name] + if |address| == 1 then [] else Names(entries[address[0]].entries, address[1..])
  }

  /** A first component may be joined to the second one beforehand. */
  lemma JoinFirst(dir: string, name: string, names: seq<string>)
    ensures Join([dir + "/" + name] + names) == Join([dir] + ([name] + names))
  {
    assert ([dir] + ([name] + names))[1..] == [name] + names;
    if names == [] {
      assert [name] + names == [name] && [dir + "/" + name] + names == [dir + "/" + name];
    } else {
      assert ([name] + names)[1..] == names && ([dir + "/" + name] + names)[1..] == names;
      assert dir + "/" + name + "/" + Join(names) == dir + "/" + (name + "/" + Join(names));
    }
  }

  /** Visited earlier, or an enclosing directory. */
  predicate Before(a: seq<nat>, b: seq<nat>) {
    b != [] && (a == [] || a[0] < b[0] || (a[0] == b[0] && Before(a[1..], b[1..])))
  }

  predicate From(i: nat, address: seq<nat>) {
    address != [] && address[0] >= i
  }

  ghost predicate AllAllowed(entries: seq<Entry>, i: nat, roots: seq<string>, hardLinks: bool) {
    forall a :: From(i, a) && At(entries, a).Some? ==> !Refused(At(entries, a).value, roots, hardLinks)
  }

  lemma DirAllowed(entries: seq<Entry>, i: nat, roots: seq<string>, hardLinks: bool)
    requires i < |entries|
    ensures AllAllowed(entries, i, roots, hardLinks)
            <==> !Refused(entries[i], roots, hardLinks) && AllAllowed(entries, i + 1, roots, hardLinks)
                 && (entries[i].Dir? ==> AllAllowed(entries[i].entries, 0, roots, hardLinks))
  {
    if AllAllowed(entries, i, roots, hardLinks) {
      assert From(i, [i]) && At(entries, [i]) == Some(entries[i]);
      forall a | From(i + 1, a) && At(entries, a).Some? ensures !Refused(At(entries, a).value, roots, hardLinks) {
        assert From(i, a);
      }
      if entries[i].Dir? {
        var sub := entries[i].entries;
        forall a | From(0, a) && At(sub, a).Some? ensures !Refused(At(sub, a).value, roots, hardLinks) {
          assert ([i] + a)[1..] == a;
          assert From(i, [i] + a) && At(entries, [i] + a) == At(sub, a);
        }
      }
    }
    if !Refused(entries[i], roots, hardLinks) && AllAllowed(entries, i + 1, roots, hardLinks)
       && (entries[i].Dir? ==> AllAllowed(entries[i].entries, 0, roots, hardLinks)) {
      forall a | From(i, a) && At(entries, a).Some? ensures !Refused(At(entries, a).value, roots, hardLinks) {
        if a[0] > i {
          assert From(i + 1, a);
        } else if |a| > 1 {
          assert From(0, a[1..]) && At(entries[i].entries, a[1..]) == At(entries, a);
        }
      }
    }
  }

  lemma {:induction false} NothingUnsafe(dir: string, entries: seq<Entry>, i: nat, roots: seq<string>, hardLinks: bool)
    requires i <= |entries|
    ensures FirstUnsafe(dir, entries, i, roots, hardLinks) == None <==> AllAllowed(entries, i, roots, hardLinks)
    decreases entries, |entries| - i
  {
    if i < |entries| {
      DirAllowed(entries, i, roots, hardLinks);
      NothingUnsafe(dir, entries, i + 1, roots, hardLinks);
      if entries[i].Dir? {
        NothingUnsafe(dir + "/" + entries[i].name, entries[i].entries, 0, roots, hardLinks);
      }
    }
  }

  /**
   The check passes exactly when every symbolic link anywhere in the tree resolves to a path
   whose first components are those of a root, and, with hardLinks set, every entry that is
   neither a link nor a directory has a link count of at most one.
   */
  lemma SafeExactly(dir: string, entries: seq<Entry>, roots: seq<string>, hardLinks: bool)
    ensures FirstUnsafe(dir, entries, 0, roots, hardLinks) == None
            <==> forall a :: From(0, a) && At(entries, a).Some? ==>
                   match At(entries, a).value
                   case Link(_, target) =>
                     target.Some? && exists r :: r in roots && Split(r) <= Split(target.value)
                   case Dir(_, _) => true
                   case Other(_, nlink) => hardLinks ==> nlink <= 1
  {
    NothingUnsafe(dir, entries, 0, roots, hardLinks);
    forall r: string, path: string ensures AtOrBelow(r, path) <==> Split(r) <= Split(path) {
      ComponentPrefix(r, path);
    }
  }

  /** What the check returns otherwise is the path of the first refused entry of the walk. */
  lemma {:induction false} FirstRefused(dir: string, entries: seq<Entry>, i: nat, roots: seq<string>, hardLinks: bool)
    returns (a: seq<nat>)
    requires i <= |entries| && FirstUnsafe(dir, entries, i, roots, hardLinks).Some?
    ensures From(i, a) && At(entries, a).Some? && Refused(At(entries, a).value, roots, hardLinks)
    ensures FirstUnsafe(dir, entries, i, roots, hardLinks) == Some(Join([dir] + Names(entries, a)))
    ensures forall b :: From(i, b) && Before(b, a) && At(entries, b).Some? ==>
              !Refused(At(entries, b).value, roots, hardLinks)
    decreases entries, |entries| - i
  {
    var p, e := dir + "/" + entries[i].name, entries[i];
    if e.Dir? && FirstUnsafe(p, e.entries, 0, roots, hardLinks).Some? {
      var c := FirstRefused(p, e.entries, 0, roots, hardLinks);
      a := [i] + c;
      assert a[1..] == c;
      JoinFirst(dir, e.name, Names(e.entries, c));
      forall b | From(i, b) && Before(b, a) && At(entries, b).Some?
        ensures !Refused(At(entries, b).value, roots, hardLinks)
      {
        if |b| > 1 {
          assert From(0, b[1..]) && Before(b[1..], c) && At(e.entries, b[1..]) == At(entries, b);
        }
      }
    } else if Refused(e, roots, hardLinks) {
      a := [i];
      JoinFirst(dir, e.name, []);
      assert [p] + [] == [p] && [e.name] + [] == [e.name];
    } else {
      a := FirstRefused(dir, entries, i + 1, roots, hardLinks);
      forall b | From(i, b) && Before(b, a) && At(entries, b).Some?
        ensures !Refused(At(entries, b).value, roots, hardLinks)
      {
        if b[0] == i {
          EarlierAllowed(dir, entries, i, roots, hardLinks, b);
        } else {
          assert From(i + 1, b);
        }
      }
    }
  }

  lemma EarlierAllowed(dir: string, entries: seq<Entry>, i: nat, roots: seq<string>, hardLinks: bool, b: seq<nat>)
    requires i < |entries| && From(i, b) && At(entries, b).Some? && b[0] == i
    requires !Refused(entries[i], roots, hardLinks)
    requires entries[i].Dir? ==>
               FirstUnsafe(dir + "/" + entries[i].name, entries[i].entries, 0, roots, hardLinks) == None
    ensures !Refused(At(entries, b).value, roots, hardLinks)
  {
    if |b| > 1 {
      NothingUnsafe(dir + "/" + entries[i].name, entries[i].entries, 0, roots, hardLinks);
      assert From(0, b[1..]) && At(entries[i].entries, b[1..]) == At(entries, b);
    }
  }
}
