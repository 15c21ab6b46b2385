/**
 Paths as strings and as lists of components. Both the link checker and the token scopes
 decide "this path or below it" on strings, by equality or by a prefix ending in a slash.
 */
module Paths {

  /** Python's and JavaScript's split("/"). */
  function Split(s: string): (parts: seq<string>)
    ensures parts != []
  {
    if s == "" then [""]
    else if s[0] == '/' then [""] + Split(s[1..])
    else
      var rest := Split(s[1..]);
      [[s[0]] + rest[0]] + rest[1..]
  }

  /** "/".join(parts) */
  function Join(parts: seq<string>): string
    requires parts != []
  {
    if |parts| == 1 then parts[0] else parts[0] + "/" + Join(parts[1..])
  }

  /** path is root or below it, as the sources test it. */
  predicate AtOrBelow(root: string, path: string) {
    path == root || root + "/" <= path
  }

  lemma {:induction false} JoinSplit(s: string)
    ensures Join(Split(s)) == s
  {
    if s != "" {
      var rest := Split(s[1..]);
      JoinSplit(s[1..]);
      if s[0] == '/' {
        assert Split(s)[1..] == rest;
      } else {
        assert Split(s)[1..] == rest[1..];
      }
    }
  }

  /** No component contains a slash. */
  lemma {:induction false} SplitPlain(s: string)
    ensures forall part :: part in Split(s) ==> '/' !in part
  {
    if s == "" {
    } else {
      SplitPlain(s[1..]);
      var rest := Split(s[1..]);
      assert forall part :: part in rest[1..] ==> part in rest;
      assert rest[0] in rest;
    }
  }

  lemma SplitSlash(s: string)
    requires s != "" && s[0] == '/'
    ensures Split(s) == [""] + Split(s[1..])
  {
  }

  lemma SplitOther(s: string)
    requires s != "" && s[0] != '/'
    ensures Split(s)[0] == [s[0]] + Split(s[1..])[0] && Split(s)[1..] == Split(s[1..])[1..]
  {
  }

  /** The string test means that the components of the root are the first components of the path. */
  lemma {:induction false} ComponentPrefix(root: string, path: string)
    ensures AtOrBelow(root, path) <==> Split(root) <= Split(path)
  {
    if root == "" {
      assert root + "/" == "/";
      if path != "" && path[0] != '/' {
        SplitOther(path);
      }
    } else if path == "" {
      assert Split(path) == [""];
      if root[0] == '/' { SplitSlash(root); } else { SplitOther(root); }
    } else {
      ComponentPrefix(root[1..], path[1..]);
      TailBelow(root, path);
      if root[0] == '/' && path[0] == '/' {
        SplitSlash(root);
        SplitSlash(path);
        SameHead(Split(root[1..]), Split(path[1..]));
      } else if root[0] == '/' {
        SplitSlash(root);
        SplitOther(path);
      } else if path[0] == '/' {
        SplitOther(root);
        SplitSlash(path);
      } else {
        SplitOther(root);
        SplitOther(path);
        SamePrefix(root[0], path[0], Split(root[1..]), Split(path[1..]), Split(root), Split(path));
      }
    }
  }

  lemma SameHead(p: seq<string>, q: seq<string>)
    ensures [""] + p <= [""] + q <==> p <= q
  {
    assert ([""] + p)[1..] == p && ([""] + q)[1..] == q;
    if [""] + p <= [""] + q {
      assert p == ([""] + q)[..|[""] + p|][1..];
    }
    if p <= q {
      assert [""] + p == ([""] + q)[..|p| + 1];
    }
  }

  lemma TailBelow(root: string, path: string)
    requires root != "" && path != ""
    ensures AtOrBelow(root, path) <==> root[0] == path[0] && AtOrBelow(root[1..], path[1..])
  {
    var long, short := root + "/", root[1..] + "/";
    assert long == [root[0]] + short && path == [path[0]] + path[1..] && root == [root[0]] + root[1..];
    if short <= path[1..] && root[0] == path[0] {
      assert path[..|long|] == [path[0]] + path[1..][..|short|];
    }
    if long <= path {
      assert path[1..][..|short|] == path[..|long|][1..];
    }
  }

  lemma SamePrefix(c: char, d: char, p: seq<string>, q: seq<string>, p': seq<string>, q': seq<string>)
    requires p != [] && q != [] && p' != [] && q' != []
    requires p'[0] == [c] + p[0] && p'[1..] == p[1..] && q'[0] == [d] + q[0] && q'[1..] == q[1..]
    ensures p' <= q' <==> c == d && p <= q
  {
    assert p == [p[0]] + p[1..] && q == [q[0]] + q[1..] && p' == [p'[0]] + p[1..] && q' == [q'[0]] + q[1..];
    if p' <= q' {
      assert p'[0] == q'[0] && p'[0][0] == c && q'[0][0] == d;
      assert p[0] == p'[0][1..] && q[0] == q'[0][1..];
      assert p[1..] == q'[..|p'|][1..];
      assert p == q[..|p|];
    }
    if c == d && p <= q {
      assert p[0] == q[0] && p[1..] == q[..|p|][1..];
      assert p' == q'[..|p'|];
    }
  }
}
