/** The directive-propagation engine of src/extension.ts: the classification
    cache, the cycle-guard stack, `markComponentAsClient`,
    `isClientComponent` and the project scan. */
module Classifier {
  import opened Text
  import opened Resolution
  import opened Walks
  import opened ImportGraph
  import opened ProjectTree

  /** The Directive visitor (src/extension.ts:126-136): the flag is raised,
      and the traversal stopped, at the first "use client". */
  method ContainsClientDirective(directives: seq<string>) returns (found: bool)
    ensures found <==> ClientDirective in directives
  {
    found := false;
    var i := 0;
    while i < |directives|
      invariant 0 <= i <= |directives|
      invariant ClientDirective !in directives[..i]
    {
      if directives[i] == ClientDirective {
        found := true;
        break;
      }
      i := i + 1;
    }
    assert !found ==> directives[..i] == directives;
  }

  /** No entry disappears and no "client" entry turns into "server". */
  ghost predicate Monotone(before: map<string, bool>, after: map<string, bool>) {
    forall x :: x in before ==> x in after && (before[x] ==> after[x])
  }

  /** x is reachable from some path of starts. */
  ghost predicate ReachedFrom(g: Graph, starts: set<string>, x: string) {
    exists f :: f in starts && Reachable(g, f, x)
  }

  /** Every readable path of cands has been classified. */
  ghost predicate Covers(g: Graph, cands: set<string>, c: map<string, bool>) {
    forall f :: f in cands && f in g ==> f in c
  }

  /** Every path classified since c0 is reached from one of cands. */
  ghost predicate Explained(g: Graph, c0: map<string, bool>, cands: set<string>, c: map<string, bool>) {
    forall x :: x in c ==> x in c0 || ReachedFrom(g, cands, x)
  }

  /** Classifying one path explains what it adds by that path alone. */
  lemma ReachedFromOne(g: Graph, c0: map<string, bool>, p: string, c: map<string, bool>)
    requires forall x :: x in c ==> x in c0 || Reachable(g, p, x)
    ensures Explained(g, c0, {p}, c)
  {
    forall x | x in c && x !in c0 ensures ReachedFrom(g, {p}, x) {
      assert p in {p} && Reachable(g, p, x);
    }
  }

  /** An entry of a folder whose readable candidates are all classified has
      all of its own classified too. */
  lemma CoveredEntry(g: Graph, folder: string, entries: seq<Entry>, i: nat, c: map<string, bool>)
    requires i < |entries|
    ensures Covers(g, Candidates(folder, entries), c) ==> Covers(g, EntryCandidates(folder, entries[i]), c)
  {
    EntryInCandidates(folder, entries, i);
  }

  /** What a scan that started from cache `c0` has achieved by cache `c` for
      the candidates `cands`: the cache only grew, it covers them, and it
      explains every new entry by them. */
  ghost predicate Scanned(g: Graph, c0: map<string, bool>, cands: set<string>, c: map<string, bool>) {
    Monotone(c0, c) && Covers(g, cands, c) && Explained(g, c0, cands, c)
  }

  /** One more entry of a scan: what it covers and explains joins what the
      earlier entries did, and the cache only grew. */
  lemma ScanStep(g: Graph, folder: string, entries: seq<Entry>, i: nat,
                 c0: map<string, bool>, c1: map<string, bool>, c2: map<string, bool>)
    requires i < |entries|
    requires Scanned(g, c0, Candidates(folder, entries[..i]), c1)
    requires Scanned(g, c1, EntryCandidates(folder, entries[i]), c2)
    ensures Scanned(g, c0, Candidates(folder, entries[..i + 1]), c2)
  {
    CandidatesSnoc(folder, entries, i);
    var seen := Candidates(folder, entries[..i]);
    var here := EntryCandidates(folder, entries[i]);
    forall x | x in c2 && x !in c0 ensures ReachedFrom(g, seen + here, x) {
      if x in c1 {
        var f :| f in seen && Reachable(g, f, x);
        assert f in seen + here;
      } else {
        var f :| f in here && Reachable(g, f, x);
        assert f in seen + here;
      }
    }
  }

  /** Every path on the stack is cached as client. */
  ghost predicate AllMarked(cache: map<string, bool>, stack: seq<string>) {
    forall x :: x in stack ==> x in cache && cache[x]
  }

  function Elems(s: seq<string>): set<string> {
    set x | x in s
  }

  lemma {:induction false} SubsetCard(a: set<string>, b: set<string>)
    requires a <= b
    ensures |a| <= |b|
    decreases |b|
  {
    if a != {} {
      var x :| x in a;
      SubsetCard(a - {x}, b - {x});
    }
  }

  lemma ElemsPrefix(base: seq<string>, s: seq<string>)
    requires |base| <= |s| && s[..|base|] == base
    ensures Elems(base) <= Elems(s)
  {
    forall x | x in base ensures x in s {
      var k :| 0 <= k < |base| && base[k] == x;
      assert s[k] == s[..|base|][k];
    }
  }

  /** Pushing a readable path that is not yet on the stack shrinks the set
      of readable paths that could still be pushed: the marking terminates. */
  lemma MeasureDrops(g: Graph, blocked: seq<string>, u: string)
    requires u !in blocked && u in g
    ensures |g.Keys - Elems(blocked + [u])| < |g.Keys - Elems(blocked)|
  {
    assert g.Keys - Elems(blocked + [u]) == (g.Keys - Elems(blocked)) - {u};
  }

  /** The effect of one marking that reached the paths of reach, taking
      cache c0 and stack base to cache c and stack s: the reached paths are
      added to the cache as client and nothing else in it changes; the
      stack keeps base below and, above it, exactly the reached paths that
      could not be read (they are not in the import graph g), which were
      pushed and never spliced out. */
  ghost predicate Grown(g: Graph, c0: map<string, bool>, base: seq<string>,
                        c: map<string, bool>, s: seq<string>, reach: iset<string>)
  {
    (forall x :: x in c <==> x in c0 || x in reach)
    && (forall x :: x in c ==> c[x] == (x in reach || (x in c0 && c0[x])))
    && |base| <= |s| && s[..|base|] == base
    && (forall k :: |base| <= k < |s| ==> s[k] !in g)
    && (forall x :: x in s <==> x in base || (x in reach && x !in g))
  }

  /** Two markings one after the other reach what either reaches. */
  lemma GrownThen(g: Graph, c0: map<string, bool>, s0: seq<string>, c1: map<string, bool>, s1: seq<string>,
                  c2: map<string, bool>, s2: seq<string>, a: iset<string>, b: iset<string>)
    requires Grown(g, c0, s0, c1, s1, a) && Grown(g, c1, s1, c2, s2, b)
    ensures Grown(g, c0, s0, c2, s2, a + b)
  {
    assert s2[..|s0|] == s1[..|s1|][..|s0|];
    forall k | |s0| <= k < |s2| ensures s2[k] !in g {
      if k < |s1| {
        assert s2[k] == s2[..|s1|][k];
      }
    }
  }

  /** A marking never removes an entry and only ever turns entries to client. */
  lemma GrownMonotone(g: Graph, c0: map<string, bool>, s0: seq<string>,
                      c: map<string, bool>, s: seq<string>, reach: iset<string>)
    requires Grown(g, c0, s0, c, s, reach)
    ensures Monotone(c0, c)
  {
  }

  /** A child marking starts above its siblings' leftovers on the stack;
      since those are unreadable, starting from the parent's stack instead
      adds only paths the siblings already reached. */
  lemma ReachPastLeftovers(g: Graph, w: string, base: seq<string>, s: seq<string>, a: iset<string>)
    requires |base| <= |s| && s[..|base|] == base
    requires forall k :: |base| <= k < |s| ==> s[k] !in g
    requires forall x :: x in s ==> x in base || x in a
    ensures a + ReachSet(g, w, s) == a + ReachSet(g, w, base)
  {
    var dead := s[|base|..];
    assert s == base + dead;
    forall x ensures x in ReachSet(g, w, s) ==> x in ReachSet(g, w, base)
      ensures x in ReachSet(g, w, base) ==> x in a + ReachSet(g, w, s)
    {
      if ReachAvoiding(g, w, x, s) {
        ReachWeaken(g, w, x, s, base);
      }
      if ReachAvoiding(g, w, x, base) {
        ReachEnds(g, w, x, base);
        assert forall k :: 0 <= k < |dead| ==> dead[k] == s[|base| + k];
        ReachPastDead(g, w, x, base, dead);
      }
    }
  }

  /** One turn of the loop over the edge targets keeps its invariant: after
      marking targets[i] from the current stack, the targets up to i are
      covered as if each had been marked from the stack the loop began on. */
  lemma MarkStep(g: Graph, c0: map<string, bool>, here: seq<string>, targets: seq<string>, i: nat,
                 c: map<string, bool>, s: seq<string>, c2: map<string, bool>, s2: seq<string>)
    requires i < |targets|
    requires Grown(g, c0, here, c, s, AnyReachSet(g, targets[..i], here))
    requires Grown(g, c, s, c2, s2, ReachSet(g, targets[i], s))
    ensures Grown(g, c0, here, c2, s2, AnyReachSet(g, targets[..i + 1], here))
  {
    var a := AnyReachSet(g, targets[..i], here);
    GrownThen(g, c0, here, c, s, c2, s2, a, ReachSet(g, targets[i], s));
    ReachPastLeftovers(g, targets[i], here, s, a);
    AnyReachSetSnoc(g, targets, i, here);
  }

  /** A path already on the stack reaches nothing. */
  lemma GrownOnStack(g: Graph, c: map<string, bool>, s: seq<string>, u: string)
    requires u in s
    ensures Grown(g, c, s, c, s, ReachSet(g, u, s))
  {
    forall x ensures x !in ReachSet(g, u, s) {
      if ReachAvoiding(g, u, x, s) {
        ReachEnds(g, u, x, s);
      }
    }
    assert s[..|s|] == s;
  }

  /** A path that cannot be read reaches itself only, and stays pushed. */
  lemma GrownUnreadable(g: Graph, c: map<string, bool>, s: seq<string>, u: string)
    requires u !in s && u !in g
    ensures Grown(g, c, s, c[u := true], s + [u], ReachSet(g, u, s))
  {
    forall x ensures x in ReachSet(g, u, s) <==> x == u {
      ReachFromDead(g, u, x, s);
    }
    assert (s + [u])[..|s|] == s;
  }

  /** `indexOf(u)` on a stack that holds u right above base, and nowhere
      in base, finds that entry. */
  lemma IndexAbove(base: seq<string>, u: string, s: seq<string>)
    requires u !in base && |base| < |s| && s[..|base| + 1] == base + [u]
    ensures IndexOf(s, u) == |base|
  {
    assert s[..|base|] == s[..|base| + 1][..|base|];
    assert s[|base|] == s[..|base| + 1][|base|];
  }

  /** Splicing that entry out keeps everything else in order. */
  lemma SpliceAbove(base: seq<string>, u: string, s: seq<string>)
    requires u !in base && |base| < |s| && s[..|base| + 1] == base + [u]
    ensures var s' := s[..|base|] + s[|base| + 1..];
      |s'| == |s| - 1 && s'[..|base|] == base
      && (forall k :: |base| <= k < |s'| ==> s'[k] == s[k + 1])
      && (forall x :: x in s' <==> x in base || x in s[|base| + 1..])
      && (forall x :: x in s <==> x in base || x == u || x in s[|base| + 1..])
  {
    assert s[..|base|] == s[..|base| + 1][..|base|];
    assert s[|base|] == s[..|base| + 1][|base|];
    assert s == base + [u] + s[|base| + 1..];
  }

  /** Splicing a readable path out from just above base, after marking its
      successors from base + [u], completes a marking from u. */
  lemma Unpush(g: Graph, c0: map<string, bool>, base: seq<string>, u: string,
               c: map<string, bool>, s: seq<string>, a: iset<string>)
    requires u !in base && u in g
    requires Grown(g, c0[u := true], base + [u], c, s, a)
    ensures Grown(g, c0, base, c, s[..|base|] + s[|base| + 1..], iset{u} + a)
  {
    SpliceAbove(base, u, s);
  }

  /** The same, with the successors' reach folded back into u's. */
  lemma UnpushReach(g: Graph, c0: map<string, bool>, base: seq<string>, u: string,
                    c: map<string, bool>, s: seq<string>)
    requires u !in base && u in g
    requires Grown(g, c0[u := true], base + [u], c, s, AnyReachSet(g, Succ(g, u), base + [u]))
    ensures Grown(g, c0, base, c, s[..|base|] + s[|base| + 1..], ReachSet(g, u, base))
  {
    Unpush(g, c0, base, u, c, s, AnyReachSet(g, Succ(g, u), base + [u]));
    ReachSetUnfold(g, u, base);
  }

  /** Between calls the stack holds only unreadable paths marked client, so
      a marking that avoids it reaches, as far as cache and stack tell, all
      that is reachable at all: a walk can only end on a stack entry. */
  lemma GrownWiden(g: Graph, c0: map<string, bool>, base: seq<string>,
                   c: map<string, bool>, s: seq<string>, u: string)
    requires AllMarked(c0, base) && forall k :: 0 <= k < |base| ==> base[k] !in g
    requires Grown(g, c0, base, c, s, ReachSet(g, u, base))
    ensures Grown(g, c0, base, c, s, ReachSet(g, u, []))
  {
    assert [] + base == base;
    forall x ensures x in ReachSet(g, u, base) ==> x in ReachSet(g, u, [])
      ensures x in ReachSet(g, u, []) ==> x in ReachSet(g, u, base) || x in base
    {
      if ReachAvoiding(g, u, x, base) {
        ReachWeaken(g, u, x, base, []);
      }
      if ReachAvoiding(g, u, x, []) {
        ReachPastDead(g, u, x, [], base);
      }
    }
  }

  /** What a marking from a client root p that avoids no path does to the
      cache: every path reachable from p is now client, the paths added are
      reachable from p, and every other entry keeps its value. */
  lemma MarkedFromRoot(g: Graph, c0: map<string, bool>, s0: seq<string>,
                       c: map<string, bool>, s: seq<string>, p: string)
    requires Grown(g, c0, s0, c, s, ReachSet(g, p, []))
    ensures forall x :: Reachable(g, p, x) ==> x in c && c[x]
    ensures forall x :: x in c && x !in c0 ==> Reachable(g, p, x)
    ensures forall x :: x in c0 && !Reachable(g, p, x) ==> x in c && c[x] == c0[x]
  {
    forall x | Reachable(g, p, x) ensures x in c && c[x] {
      assert x in ReachSet(g, p, []);
    }
    forall x | x in c && x !in c0 ensures Reachable(g, p, x) {
      assert x in ReachSet(g, p, []);
    }
    forall x | x in c0 && !Reachable(g, p, x) ensures x in c && c[x] == c0[x] {
      assert x !in ReachSet(g, p, []);
    }
  }

  /** Marking from a file that carries the directive keeps the cache
      consistent with the project. */
  lemma ConsistentAfterClient(proj: Project, c0: map<string, bool>, s0: seq<string>,
                              c: map<string, bool>, s: seq<string>, p: string)
    requires proj.Consistent(c0, s0) && proj.IsClientRoot(p)
    requires Grown(proj.Graph(), c0, s0, c, s, ReachSet(proj.Graph(), p, []))
    ensures proj.Consistent(c, s)
  {
    var g := proj.Graph();
    forall x, y | x in proj.ClientSet(c) && Edge(g, x, y) ensures y in proj.ClientSet(c) {
      if Reachable(g, p, x) {
        ReachExtend(g, p, x, y);
      } else {
        assert x in proj.ClientSet(c0);
      }
    }
    assert Closed(g, proj.ClientSet(c));
    forall x | x in c && c[x] ensures proj.HasClientCause(x) {
      if Reachable(g, p, x) {
        assert proj.IsClientRoot(p) && Reachable(g, p, x);
      }
    }
  }

  /** Recording a readable file without the directive as server keeps the
      cache consistent. */
  lemma ConsistentAfterServer(proj: Project, c0: map<string, bool>, s0: seq<string>, p: string)
    requires proj.Consistent(c0, s0) && p !in c0
    requires proj.Read(p).Some? && !HasClientDirective(proj.Read(p).value)
    ensures proj.Consistent(c0[p := false], s0)
  {
    var c := c0[p := false];
    assert proj.ClientSet(c) == proj.ClientSet(c0);
    forall x | x in c && c[x] ensures proj.HasClientCause(x) {
      assert x in c0 && c0[x];
    }
    forall x | x in c && !c[x] ensures proj.Read(x).Some? && !HasClientDirective(proj.Read(x).value) {
      if x != p {
        assert x in c0 && !c0[x];
      }
    }
  }

  /** The session state of the extension: the two module-level tables of
      src/extension.ts:9-10 and the project they describe. */
  class Session {
    /** The files, their parses and the alias table, fixed for the session. */
    const proj: Project
    /** The import graph of proj: the files do not change during a session,
        so each read-and-parse of a file always yields the same edges. */
    const graph: Graph
    /** `isClientComponentCache`: true for client, false for server. */
    var cache: map<string, bool>
    /** `checkingStack` */
    var stack: seq<string>

    ghost predicate Valid()
      reads this
    {
      graph == proj.Graph() && proj.Consistent(cache, stack)
    }

    constructor (proj: Project)
      ensures this.proj == proj && cache == map[] && stack == []
      ensures Valid()
    {
      this.proj := proj;
      graph := proj.Graph();
      cache := map[];
      stack := [];
    }

    /** `markComponentAsClient(u)`. A path already on the stack is left
        alone (the guard against import cycles); any other path is visited.
        ok is false when reading or parsing u failed.

        The effect: exactly the paths reachable from u without touching the
        old stack become client; the stack keeps its old content followed by
        the unreadable paths among them. */
    method MarkAsClient(u: string) returns (ok: bool)
      modifies this
      ensures ok == (u in old(stack) || u in graph)
      ensures Grown(graph, old(cache), old(stack), cache, stack, ReachSet(graph, u, old(stack)))
      ensures !ok ==> stack == old(stack) + [u]
      ensures u in old(stack) ==> cache == old(cache) && stack == old(stack)
      ensures u !in old(stack) && u in graph ==> u !in stack
      decreases |graph.Keys - Elems(stack)|, 1
    {
      if u in stack {
        GrownOnStack(graph, cache, stack, u);
        return true;
      }
      ok := Visit(u);
    }

    /** The body of `markComponentAsClient` past its guard: u is pushed and
        cached as client, its file is read and parsed, and every edge
        target is marked in order; a child whose read fails throws before
        its splice, so it stays on the stack, and the parent goes on (the
        child calls are not awaited). Finally u is spliced out. */
    method Visit(u: string) returns (ok: bool)
      requires u !in stack
      modifies this
      ensures ok == (u in graph)
      ensures Grown(graph, old(cache), old(stack), cache, stack, ReachSet(graph, u, old(stack)))
      ensures !ok ==> stack == old(stack) + [u]
      ensures ok ==> u !in stack
      decreases |graph.Keys - Elems(stack)|, 0
    {
      ghost var blocked := stack;
      ghost var before := cache;
      stack := stack + [u];
      cache := cache[u := true];
      if u !in graph {
        GrownUnreadable(graph, before, blocked, u);
        return false;
      }
      MeasureDrops(graph, blocked, u);
      MarkImports(graph[u]);
      IndexAbove(blocked, u, stack);
      UnpushReach(graph, before, blocked, u, cache, stack);
      var at := IndexOf(stack, u);
      stack := stack[..at] + stack[at + 1..];
      return true;
    }

    /** The `ImportDeclaration` visitor of the traversal in
        `markComponentAsClient`: every target, in order, is marked from the
        current stack. Together the calls reach what any target reaches
        without touching the stack the traversal started from. */
    method MarkImports(targets: seq<string>)
      modifies this
      ensures Grown(graph, old(cache), old(stack), cache, stack, AnyReachSet(graph, targets, old(stack)))
      decreases |graph.Keys - Elems(stack)|, 2
    {
      ghost var here := stack;
      assert stack[..|here|] == here;
      var i := 0;
      while i < |targets|
        invariant 0 <= i <= |targets|
        invariant Grown(graph, old(cache), here, cache, stack, AnyReachSet(graph, targets[..i], here))
      {
        ghost var s := stack;
        ghost var c := cache;
        ElemsPrefix(here, stack);
        SubsetCard(graph.Keys - Elems(stack), graph.Keys - Elems(here));
        var _ := MarkAsClient(targets[i]);
        MarkStep(graph, old(cache), here, targets, i, c, s, cache, stack);
        i := i + 1;
      }
      assert targets[..i] == targets;
    }

    /** `isClientComponent(p)`: a cached answer is returned as is; otherwise
        the file is read and parsed (None when that fails), a file carrying
        "use client" is marked together with everything it transitively
        imports, and any other file is recorded as server. */
    method IsClientComponent(p: string) returns (r: Option<bool>)
      requires Valid()
      modifies this
      ensures Valid()
      ensures Monotone(old(cache), cache)
      ensures p in old(cache) ==> r == Some(old(cache)[p]) && unchanged(this)
      ensures p !in old(cache) && proj.Read(p).None? ==> r.None? && unchanged(this)
      ensures p !in old(cache) && proj.Read(p).Some? && !proj.IsClientRoot(p) ==>
        r == Some(false) && cache == old(cache)[p := false] && stack == old(stack)
      ensures p !in old(cache) && proj.IsClientRoot(p) ==>
        r == Some(true) && Grown(graph, old(cache), old(stack), cache, stack, ReachSet(graph, p, []))
      ensures p !in old(cache) && proj.IsClientRoot(p) ==>
        forall x :: Reachable(graph, p, x) ==> x in cache && cache[x]
      ensures r.Some? <==> p in cache
      ensures p in cache <==> p in old(cache) || p in graph
      ensures r.Some? ==> r.value == cache[p]
      ensures forall x :: x in cache ==> x in old(cache) || Reachable(graph, p, x)
    {
      if p in cache {
        return Some(cache[p]);
      }
      var read := proj.Read(p);
      if read.None? {
        return None;
      }
      var client := ContainsClientDirective(read.value.directives);
      ReachSelf(graph, p, []);
      if client {
        assert p !in stack;
        ghost var c0 := cache;
        ghost var s0 := stack;
        var _ := MarkAsClient(p);
        GrownWiden(graph, c0, s0, cache, stack, p);
        ConsistentAfterClient(proj, c0, s0, cache, stack, p);
        GrownMonotone(graph, c0, s0, cache, stack, ReachSet(graph, p, []));
        MarkedFromRoot(graph, c0, s0, cache, stack, p);
      } else {
        ConsistentAfterServer(proj, cache, stack, p);
        cache := cache[p := false];
      }
      return Some(cache[p]);
    }

    /** `scanProjectForClientComponents(folder)` over the folder's listing:
        each entry's path is joined onto the folder; paths containing
        "/pages/" are skipped, directories are scanned in turn and ".tsx"
        and ".jsx" files are classified. A failure inside one entry (an
        unlistable directory, an unreadable file) is caught and the scan
        goes on with the next entry.

        Afterwards every readable candidate is classified, and every entry
        the scan added is reached from a candidate. */
    method Scan(folder: string, entries: seq<Entry>)
      requires Valid()
      modifies this
      ensures Valid()
      ensures Monotone(old(cache), cache)
      ensures Covers(graph, Candidates(folder, entries), cache)
      ensures Explained(graph, old(cache), Candidates(folder, entries), cache)
      ensures Covers(graph, Candidates(folder, entries), old(cache)) ==> unchanged(this)
      decreases entries, 1
    {
      ghost var idle := Covers(graph, Candidates(folder, entries), cache);
      var i := 0;
      while i < |entries|
        invariant 0 <= i <= |entries|
        invariant Valid()
        invariant Scanned(graph, old(cache), Candidates(folder, entries[..i]), cache)
        invariant idle ==> unchanged(this)
      {
        ghost var c1 := cache;
        CoveredEntry(graph, folder, entries, i, cache);
        ScanEntry(folder, entries[i]);
        ScanStep(graph, folder, entries, i, old(cache), c1, cache);
        i := i + 1;
      }
      assert entries[..i] == entries;
    }

    /** One entry of the listing: a directory is scanned, a ".tsx" or ".jsx"
        file is classified and its result dropped; anything under "/pages/"
        and anything else is passed over. */
    method ScanEntry(folder: string, e: Entry)
      requires Valid()
      modifies this
      ensures Valid()
      ensures Monotone(old(cache), cache)
      ensures Covers(graph, EntryCandidates(folder, e), cache)
      ensures Explained(graph, old(cache), EntryCandidates(folder, e), cache)
      ensures Covers(graph, EntryCandidates(folder, e), old(cache)) ==> unchanged(this)
      decreases e, 0
    {
      var path := EntryPath(folder, e.name);
      if IsExcluded(path) {
      } else if e.Dir? {
        assert EntryCandidates(folder, e) == Candidates(path, e.entries);
        Scan(path, e.entries);
      } else if e.File? && IsComponentName(e.name) {
        assert EntryCandidates(folder, e) == {path};
        if path !in cache && path !in graph {
          assert proj.Read(path).None?;
        }
        var _ := IsClientComponent(path);
        ReachedFromOne(graph, old(cache), path, cache);
      }
    }
  }
}
