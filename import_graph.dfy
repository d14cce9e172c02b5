/** The import graph of a project as the marking sees it, and the facts
    about the cache and the cycle-guard stack that every completed call of
    `isClientComponent` leaves true. */
module ImportGraph {
  import opened Text
  import opened Paths
  import opened Resolution
  import opened Walks

  /** What the extension can see of a project: for each path, the result of
      reading and parsing it (None when readFileSync or the parser throws;
      a path missing from the map does not exist), and the alias table. */
  datatype Project = Project(files: map<string, Option<Parsed>>, aliases: seq<Alias>) {

    function Read(p: string): Option<Parsed> {
      if p in files then files[p] else None
    }

    /** An edge runs from each readable file to every path its value
        imports resolve to, in traversal order; unreadable paths have none. */
    function Graph(): (g: Walks.Graph)
      ensures forall p :: p in g <==> Read(p).Some?
      ensures forall p :: p in g ==> g[p] == EdgeTargets(p, Read(p).value.imports, aliases)
    {
      map p | p in files && files[p].Some? :: EdgeTargets(p, files[p].value.imports, aliases)
    }

    /** An edge leaves exactly the readable files, and runs to the targets of
        their imports that are not type-only; every target is an absolute
        ".tsx" path. */
    lemma GraphEdge(p: string, v: string)
      ensures Edge(Graph(), p, v) <==>
        Read(p).Some? &&
        exists k :: 0 <= k < |Read(p).value.imports| && !Read(p).value.imports[k].typeOnly &&
          v in ImportTargets(p, Read(p).value.imports[k].specifier, aliases)
      ensures Edge(Graph(), p, v) ==> IsAbsolute(v) && EndsWith(v, Extension)
    {
      if Read(p).Some? {
        var imps := Read(p).value.imports;
        EdgeTargetsFromValueImports(p, imps, aliases, v);
        if Edge(Graph(), p, v) {
          var k :| 0 <= k < |imps| && !imps[k].typeOnly && v in ImportTargets(p, imps[k].specifier, aliases);
          var ts := ImportTargets(p, imps[k].specifier, aliases);
          var j :| 0 <= j < |ts| && ts[j] == v;
        }
      }
    }

    /** A readable file whose syntax tree carries the "use client" directive. */
    predicate IsClientRoot(p: string) {
      Read(p).Some? && HasClientDirective(Read(p).value)
    }

    ghost function ClientSet(cache: map<string, bool>): iset<string> {
      iset x | x in cache && cache[x]
    }

    /** What holds of the cache and the cycle-guard stack between calls:
        the stack keeps only paths whose read failed, each cached as client;
        client-ness is closed under value imports; "server" is recorded only
        for a readable file without the directive; and every client entry
        is reached from a file that carries the directive. */
    ghost predicate Consistent(cache: map<string, bool>, stack: seq<string>) {
      (forall x :: x in stack ==> x in cache && cache[x] && Read(x).None?)
      && Closed(Graph(), ClientSet(cache))
      && (forall x :: x in cache && !cache[x] ==> Read(x).Some? && !HasClientDirective(Read(x).value))
      && (forall x :: x in cache && cache[x] ==> HasClientCause(x))
    }

    /** x carries the directive or is transitively imported by a file that does. */
    ghost predicate HasClientCause(x: string) {
      exists r :: IsClientRoot(r) && Reachable(Graph(), r, x)
    }

    /** Once every file carrying the directive has been classified, the
        cache says "client" of exactly the files that carry it or are
        transitively imported by one that does. */
    lemma ClientExactly(cache: map<string, bool>, stack: seq<string>, x: string)
      requires Consistent(cache, stack)
      requires forall r :: IsClientRoot(r) ==> r in cache
      ensures (x in cache && cache[x]) <==> HasClientCause(x)
    {
      if HasClientCause(x) {
        var g := Graph();
        var r :| IsClientRoot(r) && Reachable(g, r, x);
        assert r in cache && cache[r];
        ClosedReach(g, ClientSet(cache), r, x);
      }
    }
  }
}
