/**
 The hash-chained ledger of `proxy/audit.py`. The hash is a parameter: a function of an
 entry's contents and of the previous hash that has no collisions and is never empty.
 Files are sequences of lines that are already parsed, and a head file is the string that
 is left after stripping.
 */
module AuditLedger {
  import opened Options

  datatype Content = Content(timestamp: int, action: string, containerId: string,
                             image: string, imageDigest: string, detail: string)

  datatype Entry = Entry(content: Content, prevHash: string, entryHash: string)

  /** A line of the .jsonl file: blank, not a JSON entry, or an entry. */
  datatype Line = Blank | Malformed | Record(entry: Entry)

  datatype LoadError = BadJson | ChainBroken | Tampered | Truncated

  datatype Loaded = Entries(entries: seq<Entry>) | Failed(error: LoadError)

  /** _entry_hash, which hashes everything but the entry hash itself. */
  type Hash = (Content, string) -> string

  ghost predicate Collisionless(h: Hash) {
    && (forall c, p, d, q :: h(c, p) == h(d, q) ==> c == d && p == q)
    && (forall c, p :: h(c, p) != "")
  }

  function LastHash(entries: seq<Entry>): string {
    if entries == [] then "" else entries[|entries| - 1].entryHash
  }

  /** An entry from before the chain existed: it carries no hashes. */
  predicate Legacy(e: Entry) {
    e.entryHash == "" && e.prevHash == ""
  }

  /** The entry as it is chained onto the entries before it. */
  function Chained(h: Hash, content: Content, entries: seq<Entry>): Entry {
    Entry(content, LastHash(entries), h(content, LastHash(entries)))
  }

  // ---------------------------------------------------------------------------
  // Loading

  /** The loop of _load_entries from its current state. */
  function LoadLines(h: Hash, lines: seq<Line>, entries: seq<Entry>, legacy: nat): Loaded {
    if lines == [] then Entries(entries)
    else
      match lines[0]
      case Blank => LoadLines(h, lines[1..], entries, legacy)
      case Malformed => Failed(BadJson)
      case Record(e) =>
        if Legacy(e) && legacy == |entries| then
          LoadLines(h, lines[1..], entries + [Chained(h, e.content, entries)], legacy + 1)
        else if e.prevHash != LastHash(entries) then Failed(ChainBroken)
        else if e.entryHash != h(e.content, e.prevHash) then Failed(Tampered)
        else LoadLines(h, lines[1..], entries + [e], legacy)
  }

  function CheckHead(r: Loaded, head: Option<string>): Loaded {
    match r
    case Failed(_) => r
    case Entries(entries) =>
      if head.Some? && head.value != LastHash(entries) then Failed(Truncated) else r
  }

  function Load(h: Hash, lines: seq<Line>, head: Option<string>): Loaded {
    CheckHead(LoadLines(h, lines, [], 0), head)
  }

  // ---------------------------------------------------------------------------
  // Which files load

  /** Entry i names the hash of the one before it, the first one no hash, and carries its own hash. */
  ghost predicate Linked(h: Hash, entries: seq<Entry>, i: nat)
    requires i < |entries|
  {
    && entries[i].prevHash == (if i == 0 then "" else entries[i - 1].entryHash)
    && entries[i].entryHash == h(entries[i].content, entries[i].prevHash)
  }

  lemma LinkedChained(h: Hash, entries: seq<Entry>, i: nat)
    requires i < |entries|
    ensures Linked(h, entries, i) <==> entries[i] == Chained(h, entries[i].content, entries[..i])
  {
  }

  ghost predicate Chain(h: Hash, entries: seq<Entry>) {
    forall i :: 0 <= i < |entries| ==> Linked(h, entries, i)
  }

  ghost predicate AllRecords(lines: seq<Line>) {
    forall l :: l in lines ==> !l.Malformed?
  }

  ghost function Records(lines: seq<Line>): seq<Entry> {
    if lines == [] then []
    else match lines[0]
      case Record(e) => [e] + Records(lines[1..])
      case _ => Records(lines[1..])
  }

  /**
   `loaded` is the history of the entries `disk`: the first k carry no hashes and are
   adopted, the others are on disk exactly as loaded, and the whole is a chain.
   */
  ghost predicate HistoryOf(h: Hash, disk: seq<Entry>, k: nat, loaded: seq<Entry>) {
    && k <= |disk| == |loaded|
    && Chain(h, loaded)
    && (forall i :: 0 <= i < k ==>
          disk[i].prevHash == "" && disk[i].entryHash == "" && loaded[i].content == disk[i].content)
    && (forall i :: k <= i < |disk| ==> disk[i] == loaded[i])
  }

  ghost predicate IsHistory(h: Hash, disk: seq<Entry>, loaded: seq<Entry>) {
    exists k: nat :: HistoryOf(h, disk, k, loaded)
  }

  lemma ChainExtend(h: Hash, entries: seq<Entry>, e: Entry)
    requires Chain(h, entries)
    ensures Chain(h, entries + [e]) <==> e == Chained(h, e.content, entries)
  {
    var all := entries + [e];
    assert all[..|entries|] == entries && all[|entries|] == e;
    forall i | 0 <= i < |entries| ensures Linked(h, all, i) {
      assert Linked(h, entries, i);
    }
    LinkedChained(h, all, |entries|);
    assert Chain(h, all) <==> Linked(h, all, |entries|);
  }

  lemma ChainPrefix(h: Hash, entries: seq<Entry>, n: nat)
    requires Chain(h, entries) && n <= |entries|
    ensures Chain(h, entries[..n])
  {
    forall i | 0 <= i < n ensures Linked(h, entries[..n], i) {
      assert Linked(h, entries, i);
    }
  }

  lemma ChainHashed(h: Hash, entries: seq<Entry>, i: nat)
    requires Collisionless(h) && Chain(h, entries) && i < |entries|
    ensures !Legacy(entries[i]) && entries[i].entryHash != ""
  {
    assert Linked(h, entries, i);
  }

  /**
   The loop, from a state in which `entries` is the history of `done` with `legacy` of
   them adopted, ends with the history of all the entries or not at all.
   */
  lemma {:induction false} LoadLinesSound(h: Hash, lines: seq<Line>, done: seq<Entry>, entries: seq<Entry>, legacy: nat)
    requires Collisionless(h) && HistoryOf(h, done, legacy, entries)
    ensures var r := LoadLines(h, lines, entries, legacy);
            r.Entries? ==> AllRecords(lines) && IsHistory(h, done + Records(lines), r.entries)
  {
    if lines == [] {
      assert done + Records(lines) == done;
    } else {
      var rest := lines[1..];
      match lines[0]
      case Malformed =>
      case Blank =>
        LoadLinesSound(h, rest, done, entries, legacy);
      case Record(e) =>
        var more := done + [e];
        assert done + Records(lines) == more + Records(rest);
        if Legacy(e) && legacy == |entries| {
          var c := Chained(h, e.content, entries);
          ChainExtend(h, entries, c);
          LoadLinesSound(h, rest, more, entries + [c], legacy + 1);
        } else if e.prevHash == LastHash(entries) && e.entryHash == h(e.content, e.prevHash) {
          ChainExtend(h, entries, e);
          LoadLinesSound(h, rest, more, entries + [e], legacy);
        }
    }
  }

  /** What the loop decides about the n-th entry of a history. */
  lemma NextEntry(h: Hash, all: seq<Entry>, n: nat, k: nat, loaded: seq<Entry>)
    requires Collisionless(h) && HistoryOf(h, all, k, loaded) && n < |all|
    ensures loaded[..n + 1] == loaded[..n] + [loaded[n]]
    ensures n < k ==> Legacy(all[n]) && loaded[n] == Chained(h, all[n].content, loaded[..n])
    ensures n >= k ==> all[n] == loaded[n] && !Legacy(all[n]) && all[n].prevHash == LastHash(loaded[..n])
                       && all[n].entryHash == h(all[n].content, all[n].prevHash)
  {
    assert Linked(h, loaded, n);
    LinkedChained(h, loaded, n);
    ChainHashed(h, loaded, n);
  }

  function Min(m: nat, n: nat): nat {
    if m <= n then m else n
  }

  lemma RecordStep(h: Hash, lines: seq<Line>, all: seq<Entry>, n: nat, k: nat, loaded: seq<Entry>)
    requires Collisionless(h) && HistoryOf(h, all, k, loaded) && n < |all|
    requires lines != [] && lines[0] == Record(all[n])
    ensures LoadLines(h, lines, loaded[..n], Min(n, k))
            == LoadLines(h, lines[1..], loaded[..n + 1], Min(n + 1, k))
  {
    NextEntry(h, all, n, k, loaded);
  }

  /** Reading the entries of a history gets the loop to that history. */
  lemma {:induction false} LoadLinesReach(h: Hash, lines: seq<Line>, rest: seq<Line>, done: seq<Entry>,
                                          k: nat, loaded: seq<Entry>)
    requires Collisionless(h) && AllRecords(lines) && HistoryOf(h, done + Records(lines), k, loaded)
    ensures LoadLines(h, lines + rest, loaded[..|done|], Min(|done|, k)) == LoadLines(h, rest, loaded, k)
  {
    if lines == [] {
      assert done + Records(lines) == done && loaded[..|done|] == loaded && lines + rest == rest;
    } else {
      var tail := lines[1..];
      assert lines == [lines[0]] + tail && lines[0] in lines && (lines + rest)[1..] == tail + rest;
      if lines[0].Blank? {
        LoadLinesReach(h, tail, rest, done, k, loaded);
      } else {
        var e := lines[0].entry;
        var all := done + Records(lines);
        assert all == done + [e] + Records(tail);
        LoadLinesReach(h, tail, rest, done + [e], k, loaded);
        RecordStep(h, lines + rest, all, |done|, k, loaded);
      }
    }
  }

  lemma HistoryLoads(h: Hash, lines: seq<Line>, rest: seq<Line>, k: nat, loaded: seq<Entry>)
    requires Collisionless(h) && AllRecords(lines) && HistoryOf(h, Records(lines), k, loaded)
    ensures LoadLines(h, lines + rest, [], 0) == LoadLines(h, rest, loaded, k)
  {
    assert [] + Records(lines) == Records(lines);
    LoadLinesReach(h, lines, rest, [], k, loaded);
    assert loaded[..0] == [];
  }

  /**
   A file loads exactly when its lines are entries whose hashless leading run, once
   adopted, makes the whole a chain that ends in the head; the result is that chain.
   */
  lemma LoadIff(h: Hash, lines: seq<Line>, head: Option<string>, loaded: seq<Entry>)
    requires Collisionless(h)
    ensures Load(h, lines, head) == Entries(loaded)
            <==> AllRecords(lines) && IsHistory(h, Records(lines), loaded)
                 && (head.Some? ==> head.value == if loaded == [] then "" else loaded[|loaded| - 1].entryHash)
  {
    LoadsHistory(h, lines);
    if AllRecords(lines) && IsHistory(h, Records(lines), loaded) {
      var k: nat :| HistoryOf(h, Records(lines), k, loaded);
      HistoryLoads(h, lines, [], k, loaded);
      NothingAfter(lines);
    }
  }

  lemma NothingAfter(lines: seq<Line>)
    ensures lines + [] == lines
  {
  }

  lemma LoadsHistory(h: Hash, lines: seq<Line>)
    requires Collisionless(h)
    ensures var r := LoadLines(h, lines, [], 0);
            r.Entries? ==> AllRecords(lines) && IsHistory(h, Records(lines), r.entries)
  {
    assert HistoryOf(h, [], 0, []);
    LoadLinesSound(h, lines, [], [], 0);
    assert [] + Records(lines) == Records(lines);
  }

  ghost predicate AllHashless(entries: seq<Entry>) {
    forall e :: e in entries ==> e.prevHash == "" && e.entryHash == ""
  }

  /** The loop adopts a hashless entry exactly if all the entries before it are hashless. */
  lemma AdoptedExactly(h: Hash, disk: seq<Entry>, k: nat, loaded: seq<Entry>)
    requires Collisionless(h) && HistoryOf(h, disk, k, loaded)
    ensures k == |loaded| <==> AllHashless(disk)
  {
    if k < |loaded| {
      ChainHashed(h, loaded, k);
      assert disk[k] in disk;
    }
  }

  /**
   The first line that does not load decides the error: a line that is not JSON, an entry that
   does not name the last hash, or one that does and whose own hash is wrong. What comes after
   it, and the head, do not matter.
   */
  lemma FirstBadLine(h: Hash, lines: seq<Line>, line: Line, rest: seq<Line>, head: Option<string>, loaded: seq<Entry>)
    requires Collisionless(h) && Load(h, lines, None) == Entries(loaded)
    requires line.Record? && line.entry.prevHash == "" && line.entry.entryHash == "" ==> !AllHashless(Records(lines))
    ensures var r := Load(h, lines + ([line] + rest), head);
            && (line.Malformed? ==> r == Failed(BadJson))
            && (line.Record? && line.entry.prevHash != LastHash(loaded) ==> r == Failed(ChainBroken))
            && (line.Record? && line.entry.prevHash == LastHash(loaded) ==>
                  line.entry.entryHash != h(line.entry.content, line.entry.prevHash) ==> r == Failed(Tampered))
  {
    LoadIff(h, lines, None, loaded);
    var k: nat :| HistoryOf(h, Records(lines), k, loaded);
    HistoryLoads(h, lines, [line] + rest, k, loaded);
    AdoptedExactly(h, Records(lines), k, loaded);
    assert ([line] + rest)[1..] == rest;
  }

  // ---------------------------------------------------------------------------
  // Tamper evidence

  /** Equal last hashes come from equal last entries on equal previous hashes. */
  lemma LastDetermines(h: Hash, a: seq<Entry>, b: seq<Entry>)
    requires Collisionless(h) && Chain(h, a) && Chain(h, b) && LastHash(a) == LastHash(b)
    requires a != [] && b != []
    ensures a[|a| - 1] == b[|b| - 1] && LastHash(a[..|a| - 1]) == LastHash(b[..|b| - 1])
  {
    assert Linked(h, a, |a| - 1) && Linked(h, b, |b| - 1);
    LinkedChained(h, a, |a| - 1);
    LinkedChained(h, b, |b| - 1);
  }

  lemma LastHashEmpty(h: Hash, a: seq<Entry>)
    requires Collisionless(h) && Chain(h, a)
    ensures LastHash(a) == "" <==> a == []
  {
    if a != [] {
      ChainHashed(h, a, |a| - 1);
    }
  }

  lemma SameTail(a: seq<Entry>, b: seq<Entry>)
    requires a != [] && b != [] && a[..|a| - 1] == b[..|b| - 1] && a[|a| - 1] == b[|b| - 1]
    ensures a == b
  {
    assert a == a[..|a| - 1] + [a[|a| - 1]] && b == b[..|b| - 1] + [b[|b| - 1]];
  }

  /** A chain is determined by its last hash. */
  lemma {:induction false} ChainUnique(h: Hash, a: seq<Entry>, b: seq<Entry>)
    requires Collisionless(h) && Chain(h, a) && Chain(h, b) && LastHash(a) == LastHash(b)
    ensures a == b
    decreases |a|
  {
    LastHashEmpty(h, a);
    LastHashEmpty(h, b);
    if a != [] {
      LastDetermines(h, a, b);
      ChainPrefix(h, a, |a| - 1);
      ChainPrefix(h, b, |b| - 1);
      ChainUnique(h, a[..|a| - 1], b[..|b| - 1]);
      SameTail(a, b);
    }
  }

  /** Whatever was done to the file, if it still loads against the head it loads the same history. */
  lemma SameHeadSameHistory(h: Hash, before: seq<Line>, after: seq<Line>, head: string)
    requires Collisionless(h)
    requires Load(h, before, Some(head)).Entries? && Load(h, after, Some(head)).Entries?
    ensures Load(h, before, Some(head)) == Load(h, after, Some(head))
  {
    var a, b := Load(h, before, Some(head)).entries, Load(h, after, Some(head)).entries;
    LoadIff(h, before, Some(head), a);
    LoadIff(h, after, Some(head), b);
    ChainUnique(h, a, b);
  }

  lemma {:induction false} RecordsConcat(a: seq<Line>, b: seq<Line>)
    ensures Records(a + b) == Records(a) + Records(b)
    ensures AllRecords(a + b) <==> AllRecords(a) && AllRecords(b)
  {
    assert forall l :: l in a ==> l in a + b;
    assert forall l :: l in b ==> l in a + b;
    if a == [] {
      assert a + b == b;
    } else {
      assert (a + b)[1..] == a[1..] + b;
      RecordsConcat(a[1..], b);
    }
  }

  /** Without a head, cutting lines off the end goes unnoticed: what is left loads. */
  lemma TruncationWithoutHead(h: Hash, a: seq<Line>, b: seq<Line>)
    requires Collisionless(h) && Load(h, a + b, None).Entries?
    ensures Load(h, a, None).Entries? && Load(h, a, None).entries <= Load(h, a + b, None).entries
  {
    var loaded := Load(h, a + b, None).entries;
    LoadIff(h, a + b, None, loaded);
    RecordsConcat(a, b);
    var k: nat :| HistoryOf(h, Records(a + b), k, loaded);
    var n := |Records(a)|;
    ChainPrefix(h, loaded, n);
    assert forall i :: 0 <= i < n ==> Records(a + b)[i] == Records(a)[i];
    assert HistoryOf(h, Records(a), if k <= n then k else n, loaded[..n]);
    LoadIff(h, a, None, loaded[..n]);
  }

  /** With a head, cutting off lines that hold an entry is reported. */
  lemma TruncationWithHead(h: Hash, a: seq<Line>, b: seq<Line>, head: string)
    requires Collisionless(h) && Load(h, a + b, Some(head)).Entries? && Records(b) != []
    ensures Load(h, a, Some(head)) == Failed(Truncated)
  {
    var loaded := Load(h, a + b, Some(head)).entries;
    LoadIff(h, a + b, Some(head), loaded);
    RecordsConcat(a, b);
    TruncationWithoutHead(h, a, b);
    var cut := Load(h, a, None).entries;
    LoadIff(h, a, None, cut);
    if LastHash(cut) == head {
      ChainUnique(h, cut, loaded);
    }
  }

  // ---------------------------------------------------------------------------
  // Hashless entries

  ghost function Blanked(e: Entry): Entry {
    e.(prevHash := "", entryHash := "")
  }

  /** b is a with the hashes of its first n entries blanked. */
  ghost predicate LeadingRunBlanked(a: seq<Entry>, b: seq<Entry>, n: nat) {
    && n <= |a| == |b|
    && (forall i :: 0 <= i < n ==> b[i] == Blanked(a[i]))
    && (forall i :: n <= i < |a| ==> b[i] == a[i])
  }

  /** Blanking the hashes of a leading run of entries changes nothing that is loaded. */
  lemma BlankedLeadingRun(h: Hash, a: seq<Line>, b: seq<Line>, n: nat, head: Option<string>)
    requires Collisionless(h) && Load(h, a, head).Entries? && AllRecords(b)
    requires LeadingRunBlanked(Records(a), Records(b), n)
    ensures Load(h, b, head) == Load(h, a, head)
  {
    var loaded := Load(h, a, head).entries;
    LoadIff(h, a, head, loaded);
    var k: nat :| HistoryOf(h, Records(a), k, loaded);
    assert HistoryOf(h, Records(b), if k <= n then n else k, loaded);
    LoadIff(h, b, head, loaded);
  }

  /** A hashless entry after one with a hash is rejected, head or not. */
  lemma BlankedLaterEntry(h: Hash, lines: seq<Line>, head: Option<string>, i: nat, j: nat)
    requires Collisionless(h) && i < j < |Records(lines)|
    requires Records(lines)[i].prevHash != "" || Records(lines)[i].entryHash != ""
    requires Records(lines)[j].prevHash == "" && Records(lines)[j].entryHash == ""
    ensures Load(h, lines, head).Failed?
  {
    if Load(h, lines, head).Entries? {
      var loaded := Load(h, lines, head).entries;
      LoadIff(h, lines, head, loaded);
      var k: nat :| HistoryOf(h, Records(lines), k, loaded);
      ChainHashed(h, loaded, j);
    }
  }

  // ---------------------------------------------------------------------------
  // Saving

  /** Appending the chained entry and rewriting the head keeps the ledger loadable. */
  lemma SavedLoads(h: Hash, lines: seq<Line>, head: Option<string>, content: Content)
    requires Collisionless(h) && Load(h, lines, head).Entries?
    ensures var entries := Load(h, lines, head).entries;
            var e := Chained(h, content, entries);
            Load(h, lines + [Record(e)], Some(e.entryHash)) == Entries(entries + [e])
  {
    var entries := Load(h, lines, head).entries;
    var e := Chained(h, content, entries);
    LoadIff(h, lines, head, entries);
    var k: nat :| HistoryOf(h, Records(lines), k, entries);
    ChainExtend(h, entries, e);
    RecordsConcat(lines, [Record(e)]);
    assert Records([Record(e)]) == [e] by {
      assert Records([]) == [];
    }
    assert HistoryOf(h, Records(lines) + [e], k, entries + [e]);
    LoadIff(h, lines + [Record(e)], Some(e.entryHash), entries + [e]);
  }

  /**
   A stop between the append and the head: the next load fails, as truncated, exactly if there
   was a head already; without one the ledger loads with the new entry.
   */
  lemma AppendWithoutHead(h: Hash, lines: seq<Line>, head: Option<string>, content: Content)
    requires Collisionless(h) && Load(h, lines, head).Entries?
    ensures var entries := Load(h, lines, head).entries;
            var e := Chained(h, content, entries);
            Load(h, lines + [Record(e)], head) == if head.Some? then Failed(Truncated) else Entries(entries + [e])
  {
    var entries := Load(h, lines, head).entries;
    var e := Chained(h, content, entries);
    SavedLoads(h, lines, head, content);
    LoadIff(h, lines, head, entries);
    LoadIff(h, lines + [Record(e)], Some(e.entryHash), entries + [e]);
    LoadIff(h, lines + [Record(e)], None, entries + [e]);
    if head == Some(e.entryHash) {
      ChainUnique(h, entries, entries + [e]);
    }
  }

  /** The ledger directory: a file and a head file for each project. */
  class AuditLogManager {
    const h: Hash
    var files: map<string, seq<Line>>
    var heads: map<string, string>

    ghost function Ledger(project: string): Loaded
      reads this
    {
      Load(h, Lines(project), Head(project))
    }

    function Lines(project: string): seq<Line>
      reads this
    {
      if project in files then files[project] else []
    }

    function Head(project: string): Option<string>
      reads this
    {
      if project in heads then Some(heads[project]) else None
    }

    constructor (h: Hash)
      ensures this.h == h && files == map[] && heads == map[]
    {
      this.h, files, heads := h, map[], map[];
    }

    method LoadEntries(project: string) returns (r: Loaded)
      ensures r == Ledger(project)
    {
      var entries, legacy := [], 0;
      var lines := Lines(project);
      for i := 0 to |lines|
        invariant LoadLines(h, lines[i..], entries, legacy) == LoadLines(h, lines, [], 0)
      {
        assert lines[i..][1..] == lines[i + 1..];
        match lines[i]
        case Blank =>
        case Malformed => return Failed(BadJson);
        case Record(e) =>
          if Legacy(e) && legacy == |entries| {
            entries := entries + [Entry(e.content, LastHash(entries), h(e.content, LastHash(entries)))];
            legacy := legacy + 1;
          } else if e.prevHash != LastHash(entries) {
            return Failed(ChainBroken);
          } else if e.entryHash != h(e.content, e.prevHash) {
            return Failed(Tampered);
          } else {
            entries := entries + [e];
          }
      }
      var head := Head(project);
      if head.Some? && head.value != LastHash(entries) {
        return Failed(Truncated);
      }
      r := Entries(entries);
    }

    /** Appends to a ledger that loads; afterwards it loads with the new entry at the end. */
    method SaveEntry(project: string, content: Content) returns (r: Loaded)
      requires Collisionless(h)
      modifies this
      ensures r.Failed? ==> r == old(Ledger(project)) && files == old(files) && heads == old(heads)
      ensures r.Entries? ==>
                && old(Ledger(project)).Entries?
                && r == Entries([Chained(h, content, old(Ledger(project)).entries)])
                && r.entries[0].content == content && r.entries[0].prevHash == LastHash(old(Ledger(project)).entries)
                && r.entries[0].entryHash == h(content, r.entries[0].prevHash)
                && Ledger(project) == Entries(old(Ledger(project)).entries + r.entries)
                && Lines(project) == old(Lines(project)) + [Record(r.entries[0])]
                && Head(project) == Some(r.entries[0].entryHash)
      ensures forall other :: other != project ==> Lines(other) == old(Lines(other)) && Head(other) == old(Head(other))
    {
      var loaded := LoadEntries(project);
      if loaded.Failed? {
        return loaded;
      }
      var prev := LastHash(loaded.entries);
      var entry := Entry(content, prev, h(content, prev));
      SavedLoads(h, Lines(project), Head(project), content);
      files := files[project := Lines(project) + [Record(entry)]];
      heads := heads[project := entry.entryHash];
      r := Entries([entry]);
    }

    method DeleteAuditLog(project: string)
      modifies this
      ensures Lines(project) == [] && Head(project) == None && Ledger(project) == Entries([])
      ensures forall other :: other != project ==> Lines(other) == old(Lines(other)) && Head(other) == old(Head(other))
    {
      files := files - {project};
      heads := heads - {project};
    }
  }
}
