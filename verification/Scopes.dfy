/**
 Token scopes, `normalize_scope` and `scope_allows` in `proxy/tokens.py`.
 */
module Scopes {
  import opened Paths

  /** What strip() removes: white space when it is given no characters, or slashes. */
  datatype Stripping = WhiteSpace | Slashes

  /** The characters that str.isspace() holds of. */
  predicate IsSpace(c: char) {
    '\t' <= c <= '\r' || '\U{1C}' <= c <= ' ' || c == '\U{85}' || c == '\U{A0}' || c == '\U{1680}'
    || '\U{2000}' <= c <= '\U{200A}' || c == '\U{2028}' || c == '\U{2029}' || c == '\U{202F}' || c == '\U{205F}'
    || c == '\U{3000}'
  }

  predicate Strips(k: Stripping, c: char) {
    match k
    case WhiteSpace => IsSpace(c)
    case Slashes => c == '/'
  }

  const API_PREFIXES: set<string> :=
    {"audit", "attest", "projects", "routes", "substrate", "tunnels", "tokens", "verification"}

  function StripLeft(s: string, k: Stripping): string {
    if s != "" && Strips(k, s[0]) then StripLeft(s[1..], k) else s
  }

  function StripRight(s: string, k: Stripping): string {
    if s != "" && Strips(k, s[|s| - 1]) then StripRight(s[..|s| - 1], k) else s
  }

  /** s.strip() */
  function Strip(s: string, k: Stripping): string {
    StripRight(StripLeft(s, k), k)
  }

  predicate NameChar(c: char) {
    'a' <= c <= 'z' || '0' <= c <= '9' || c == '-'
  }

  /** NAME_RE */
  predicate IsName(s: string) {
    s != "" && s[0] != '-' && forall i :: 0 <= i < |s| ==> NameChar(s[i])
  }

  function Trimmed(scope: string): string {
    Strip(Strip(scope, WhiteSpace), Slashes)
  }

  /** normalize_scope */
  function Normalize(scope: string): string {
    var core := Trimmed(scope);
    if core == "" then ""
    else
      var parts := Split(core);
      if |parts| == 1 && IsName(parts[0]) && parts[0] !in API_PREFIXES then "projects/" + parts[0]
      else if parts[0] !in API_PREFIXES then ""
      else if "" in parts then ""
      else core
  }

  /** scope_allows */
  predicate ScopeAllows(scope: string, apiPath: string) {
    var normalized := Normalize(scope);
    normalized != "" && AtOrBelow(normalized, Strip(apiPath, Slashes))
  }

  // ---------------------------------------------------------------------------
  // Stripping

  /** Neither end is one of the characters. */
  predicate Stripped(s: string, k: Stripping) {
    s == "" || (!Strips(k, s[0]) && !Strips(k, s[|s| - 1]))
  }

  lemma {:induction false} StripLeftHead(s: string, k: Stripping)
    ensures var t := StripLeft(s, k); |t| <= |s| && (t == "" || !Strips(k, t[0]))
    ensures var t := StripLeft(s, k); t == s[|s| - |t|..]
  {
    if s != "" && Strips(k, s[0]) {
      StripLeftHead(s[1..], k);
    }
  }

  lemma {:induction false} StripRightLast(s: string, k: Stripping)
    ensures var t := StripRight(s, k); |t| <= |s| && (t == "" || !Strips(k, t[|t| - 1])) && t == s[..|t|]
  {
    if s != "" && Strips(k, s[|s| - 1]) {
      StripRightLast(s[..|s| - 1], k);
    }
  }

  lemma StripStrips(s: string, k: Stripping)
    ensures Stripped(Strip(s, k), k) && |Strip(s, k)| <= |s|
    ensures Strip(s, k) == s <==> Stripped(s, k)
    ensures |Strip(s, k)| == |s| ==> Strip(s, k) == s
  {
    StripLeftHead(s, k);
    StripRightLast(StripLeft(s, k), k);
  }

  ghost predicate All(s: string, k: Stripping) {
    forall c :: c in s ==> Strips(k, c)
  }

  lemma {:induction false} StripLeftAll(p: string, s: string, k: Stripping)
    requires All(p, k)
    ensures StripLeft(p + s, k) == StripLeft(s, k)
  {
    if p == "" {
      assert p + s == s;
    } else {
      assert p[0] in p && (p + s)[1..] == p[1..] + s;
      StripLeftAll(p[1..], s, k);
    }
  }

  lemma {:induction false} StripRightAll(s: string, q: string, k: Stripping)
    requires All(q, k)
    ensures StripRight(s + q, k) == StripRight(s, k)
  {
    if q == "" {
      assert s + q == s;
    } else {
      var last := q[|q| - 1];
      assert last in q && (s + q)[..|s + q| - 1] == s + q[..|q| - 1];
      StripRightAll(s, q[..|q| - 1], k);
    }
  }

  /** Stripping removes such characters from both ends, and all of them. */
  lemma StripBoth(p: string, s: string, q: string, k: Stripping)
    requires All(p, k) && All(q, k) && Stripped(s, k)
    ensures Strip(p + s + q, k) == s
  {
    assert p + s + q == p + (s + q);
    StripLeftAll(p, s + q, k);
    if s == "" {
      assert s + q == q + "" && q == "" + q;
      StripLeftAll(q, "", k);
    } else {
      StripRightAll(s, q, k);
    }
  }

  // ---------------------------------------------------------------------------
  // Normalising

  lemma NameLast(x: string)
    requires IsName(x)
    ensures !IsSpace(x[|x| - 1]) && x[|x| - 1] != '/' && x[0] != '/'
  {
    assert NameChar(x[|x| - 1]) && NameChar(x[0]);
  }

  lemma {:induction false} OnePart(x: string)
    requires '/' !in x
    ensures Split(x) == [x]
  {
    if x != "" {
      assert x[0] in x && forall c :: c in x[1..] ==> c in x;
      OnePart(x[1..]);
      assert [x[0]] + x[1..] == x;
    }
  }

  lemma {:induction false} SplitAt(p: string, q: string)
    requires '/' !in p
    ensures Split(p + "/" + q) == [p] + Split(q)
  {
    var s := p + "/" + q;
    if p == "" {
      assert s[1..] == q;
    } else {
      assert p[0] in p && forall c :: c in p[1..] ==> c in p;
      SplitAt(p[1..], q);
      assert [p[0]] + p[1..] == p && s[0] == p[0];
      assert s[1..] == p[1..] + "/" + q;
    }
  }

  lemma NameInProjects(x: string)
    requires IsName(x)
    ensures Split("projects/" + x) == ["projects", x]
  {
    assert '/' !in x by {
      assert forall i :: 0 <= i < |x| ==> NameChar(x[i]);
    }
    OnePart(x);
    assert '/' !in "projects";
    SplitAt("projects", x);
    assert "projects" + "/" + x == "projects/" + x;
  }

  /** Neither end is white space or a slash. */
  predicate Solid(s: string) {
    s != "" && !IsSpace(s[0]) && !IsSpace(s[|s| - 1]) && s[0] != '/' && s[|s| - 1] != '/'
  }

  lemma TrimmedCore(space: string, slashes: string, core: string, slashes': string, space': string)
    requires All(space, WhiteSpace) && All(space', WhiteSpace) && All(slashes, Slashes) && All(slashes', Slashes)
    requires Solid(core)
    ensures Trimmed(space + (slashes + core + slashes') + space') == core
  {
    var inner := slashes + core + slashes';
    assert !IsSpace('/');
    assert slashes != "" ==> slashes[0] in slashes;
    assert slashes' != "" ==> slashes'[|slashes'| - 1] in slashes';
    assert inner[0] == (if slashes == "" then core[0] else slashes[0]);
    assert inner[|inner| - 1] == (if slashes' == "" then core[|core| - 1] else slashes'[|slashes'| - 1]);
    StripBoth(space, inner, space', WhiteSpace);
    StripBoth(slashes, core, slashes', Slashes);
  }

  lemma NameAlone(x: string)
    requires IsName(x)
    ensures Solid(x) && Split(x) == [x]
  {
    NameLast(x);
    assert NameChar(x[0]);
    assert '/' !in x by {
      assert forall i :: 0 <= i < |x| ==> NameChar(x[i]);
    }
    OnePart(x);
  }

  /**
   Between white space outside and slashes inside, the name of a project stands for that
   project, and a path of components that starts with an API prefix for itself; nothing else
   that is solid is a scope.
   */
  lemma NormalizeExactly(space: string, slashes: string, core: string, slashes': string, space': string)
    requires All(space, WhiteSpace) && All(space', WhiteSpace) && All(slashes, Slashes) && All(slashes', Slashes)
    requires Solid(core)
    ensures Normalize(space + (slashes + core + slashes') + space')
            == if IsName(core) && core !in API_PREFIXES then "projects/" + core
               else if Split(core)[0] in API_PREFIXES && "" !in Split(core) then core
               else ""
  {
    TrimmedCore(space, slashes, core, slashes', space');
    JoinSplit(core);
    if IsName(core) {
      NameAlone(core);
    }
  }

  /** What a normalised scope looks like. */
  predicate Normal(n: string) {
    n != "" && !IsSpace(n[0]) && Stripped(n, Slashes) && Split(n)[0] in API_PREFIXES && "" !in Split(n)
  }

  lemma ApiWord(w: string)
    requires w in API_PREFIXES
    ensures w != "" && 'a' <= w[0] <= 'z' && 'a' <= w[|w| - 1] <= 'z' && '/' !in w
  {
  }

  lemma ApiFirst(s: string)
    requires s != "" && Split(s)[0] in API_PREFIXES
    ensures !IsSpace(s[0])
  {
    ApiWord(Split(s)[0]);
    if s[0] == '/' {
      SplitSlash(s);
    } else {
      SplitOther(s);
      assert Split(s)[0][0] == s[0];
    }
  }

  lemma NormalizeNormal(scope: string)
    ensures Normalize(scope) == "" || Normal(Normalize(scope))
  {
    var core := Trimmed(scope);
    StripStrips(Strip(scope, WhiteSpace), Slashes);
    if Normalize(scope) != "" {
      var parts := Split(core);
      if |parts| == 1 && IsName(parts[0]) && parts[0] !in API_PREFIXES {
        NameInProjects(parts[0]);
        NameLast(parts[0]);
      } else {
        ApiFirst(core);
      }
    }
  }

  predicate EndsInSpace(s: string) {
    s != "" && IsSpace(s[|s| - 1])
  }

  lemma NormalFixed(n: string)
    requires Normal(n) && !EndsInSpace(n)
    ensures Normalize(n) == n
  {
    StripStrips(n, WhiteSpace);
    StripStrips(n, Slashes);
  }

  lemma NormalizeCases(scope: string)
    ensures var core := Trimmed(scope);
            || Normalize(scope) == "" || Normalize(scope) == core
            || (IsName(core) && Normalize(scope) == "projects/" + core)
  {
    JoinSplit(Trimmed(scope));
  }

  lemma TrimmedShorter(n: string)
    requires Normal(n) && EndsInSpace(n)
    ensures |Trimmed(n)| < |n|
  {
    StripStrips(n, WhiteSpace);
    StripStrips(Strip(n, WhiteSpace), Slashes);
  }

  lemma NormalMoves(n: string)
    requires Normal(n) && EndsInSpace(n)
    ensures Normalize(n) != n
    ensures Normalize(n) != "" ==> !AtOrBelow(n, Normalize(n))
  {
    NormalizeCases(n);
    TrimmedShorter(n);
    if IsName(Trimmed(n)) {
      NotBelowName(n, Trimmed(n));
    }
  }

  lemma NotBelowName(n: string, x: string)
    requires EndsInSpace(n) && IsName(x)
    ensures !AtOrBelow(n, "projects/" + x) && n != "projects/" + x
  {
    NameInProjects(x);
    NameLast(x);
    ComponentPrefix(n, "projects/" + x);
    if AtOrBelow(n, "projects/" + x) {
      JoinSplit(n);
      JoinSplit("projects/" + x);
      PrefixOfTwo(n, x);
    }
  }

  lemma PrefixOfTwo(n: string, x: string)
    requires Split(n) <= ["projects", x] && Join(Split(n)) == n && Join(["projects", x]) == "projects/" + x
    ensures n == "projects" || n == "projects/" + x
  {
    if |Split(n)| == 1 {
      assert Split(n)[0] == "projects";
    } else {
      assert Split(n) == ["projects", x];
    }
  }

  /** The trailing white space that survives: it stood before slashes that were stripped last. */
  predicate KeepsSpace(scope: string) {
    var core := Trimmed(scope);
    EndsInSpace(core) && Split(core)[0] in API_PREFIXES && "" !in Split(core)
  }

  lemma KeptSpace(scope: string)
    ensures KeepsSpace(scope) <==> EndsInSpace(Normalize(scope))
  {
    NormalizeCases(scope);
    if IsName(Trimmed(scope)) {
      NameLast(Trimmed(scope));
    }
  }

  /** Normalising twice is normalising once, exactly when no trailing white space survives. */
  lemma IdempotentExactly(scope: string)
    ensures Normalize(Normalize(scope)) == Normalize(scope) <==> !KeepsSpace(scope)
  {
    NormalizeNormal(scope);
    KeptSpace(scope);
    if Normalize(scope) != "" {
      if KeepsSpace(scope) { NormalMoves(Normalize(scope)); } else { NormalFixed(Normalize(scope)); }
    }
  }

  /** Such a scope: the token is stored with a space as its last component, and then taken for the parent. */
  lemma SpaceSurvives(word: string)
    requires word in API_PREFIXES
    ensures KeepsSpace(word + "/ /")
    ensures Normalize(word + "/ /") == word + "/ " && Normalize(word + "/ ") == word
  {
    TrimOnce(word);
    SpaceStays(word, Trimmed(word + "/ /"));
    SpaceGoes(word);
  }

  lemma SpaceStays(word: string, core: string)
    requires word in API_PREFIXES && core == word + "/ "
    ensures EndsInSpace(core) && Split(core) == [word, " "]
    ensures forall s :: Trimmed(s) == core ==> Normalize(s) == core
  {
    ApiWord(word);
    OnePart(" ");
    SplitAt(word, " ");
    assert word + "/" + " " == core;
  }

  lemma SpaceGoes(word: string)
    requires word in API_PREFIXES
    ensures Normalize(word + "/ ") == word
  {
    TrimTwice(word);
    ApiWord(word);
    OnePart(word);
  }

  lemma TrimOnce(word: string)
    requires word in API_PREFIXES
    ensures Trimmed(word + "/ /") == word + "/ "
  {
    var s, t := word + "/ /", word + "/ ";
    ApiWord(word);
    StripStrips(s, WhiteSpace);
    assert s[..|s| - 1] == t;
    assert Strip(s, Slashes) == StripRight(s, Slashes) == StripRight(t, Slashes) == t;
  }

  lemma TrimTwice(word: string)
    requires word in API_PREFIXES
    ensures Trimmed(word + "/ ") == word
  {
    var t, u := word + "/ ", word + "/";
    ApiWord(word);
    assert t[..|t| - 1] == u && u[..|u| - 1] == word;
    assert Strip(t, WhiteSpace) == StripRight(t, WhiteSpace) == StripRight(u, WhiteSpace) == u;
    assert Strip(u, Slashes) == StripRight(u, Slashes) == StripRight(word, Slashes) == word;
  }

  // ---------------------------------------------------------------------------
  // Allowing

  /** A scope allows a path exactly when its components are the first components of the path. */
  lemma AllowsExactly(scope: string, apiPath: string)
    ensures ScopeAllows(scope, apiPath)
            <==> Normalize(scope) != "" && Split(Normalize(scope)) <= Split(Strip(apiPath, Slashes))
  {
    ComponentPrefix(Normalize(scope), Strip(apiPath, Slashes));
  }

  /** A scope that allows a path allows everything below it. */
  lemma AllowsBelow(scope: string, path: string, below: string)
    requires ScopeAllows(scope, path) && AtOrBelow(Strip(path, Slashes), Strip(below, Slashes))
    ensures ScopeAllows(scope, below)
  {
    AllowsExactly(scope, path);
    AllowsExactly(scope, below);
    ComponentPrefix(Strip(path, Slashes), Strip(below, Slashes));
  }

  /**
   A token keeps the normalised scope and checks paths against it, which normalises it again.
   It allows what the scope it was asked for allows, exactly when no white space survived.
   */
  lemma StoredScopeMeans(scope: string)
    ensures (forall path :: ScopeAllows(Normalize(scope), path) == ScopeAllows(scope, path)) <==> !KeepsSpace(scope)
  {
    var n := Normalize(scope);
    IdempotentExactly(scope);
    NormalizeNormal(scope);
    if KeepsSpace(scope) {
      KeptSpace(scope);
      NormalMoves(n);
      var path := if Normalize(n) == "" then n else Normalize(n);
      NormalizeNormal(n);
      StripStrips(path, Slashes);
      assert ScopeAllows(n, path) != ScopeAllows(scope, path);
    }
  }
}
