/** Reachability in a finite directed graph given as successor lists. A
    path without an entry has no successors (in the extension: a file that
    could not be read or parsed). The marking walks such a graph while
    refusing to enter a path that is already on its stack; the lemmas here
    say which paths that walk reaches. */
module Walks {

  type Graph = map<string, seq<string>>

  function Succ(g: Graph, u: string): seq<string> {
    if u in g then g[u] else []
  }

  predicate Edge(g: Graph, u: string, v: string) {
    u in g && v in g[u]
  }

  ghost predicate IsWalk(g: Graph, w: seq<string>) {
    |w| > 0 && forall i :: 0 <= i < |w| - 1 ==> Edge(g, w[i], w[i + 1])
  }

  ghost predicate Avoids(w: seq<string>, blocked: seq<string>) {
    forall i :: 0 <= i < |w| ==> w[i] !in blocked
  }

  /** v is reached from u along edges without touching a path of blocked
      (u and v included). */
  ghost predicate ReachAvoiding(g: Graph, u: string, v: string, blocked: seq<string>) {
    exists w :: IsWalk(g, w) && w[0] == u && w[|w| - 1] == v && Avoids(w, blocked)
  }

  ghost predicate Reachable(g: Graph, u: string, v: string) {
    ReachAvoiding(g, u, v, [])
  }

  ghost predicate AnyReachAvoiding(g: Graph, starts: seq<string>, v: string, blocked: seq<string>) {
    exists k :: 0 <= k < |starts| && ReachAvoiding(g, starts[k], v, blocked)
  }

  /** The paths reached from u avoiding blocked. */
  ghost function ReachSet(g: Graph, u: string, blocked: seq<string>): iset<string> {
    iset v | ReachAvoiding(g, u, v, blocked)
  }

  /** The paths reached from some path of starts avoiding blocked. */
  ghost function AnyReachSet(g: Graph, starts: seq<string>, blocked: seq<string>): iset<string> {
    iset v | AnyReachAvoiding(g, starts, v, blocked)
  }

  lemma WalkInterior(g: Graph, w: seq<string>)
    requires IsWalk(g, w)
    ensures forall i :: 0 <= i < |w| - 1 ==> w[i] in g
  {
    forall i | 0 <= i < |w| - 1 ensures w[i] in g {
      assert Edge(g, w[i], w[i + 1]);
    }
  }

  lemma WalkSuffix(g: Graph, w: seq<string>, j: nat)
    requires IsWalk(g, w) && j < |w|
    ensures IsWalk(g, w[j..])
  {
    var rest := w[j..];
    forall i | 0 <= i < |rest| - 1 ensures Edge(g, rest[i], rest[i + 1]) {
      assert rest[i] == w[j + i] && rest[i + 1] == w[j + i + 1];
    }
  }

  lemma WalkExtend(g: Graph, w: seq<string>, v: string)
    requires IsWalk(g, w) && Edge(g, w[|w| - 1], v)
    ensures IsWalk(g, w + [v])
  {
    var w' := w + [v];
    forall i | 0 <= i < |w'| - 1 ensures Edge(g, w'[i], w'[i + 1]) {
      if i < |w| - 1 {
        assert w'[i] == w[i] && w'[i + 1] == w[i + 1];
      }
    }
  }

  lemma WalkPrepend(g: Graph, u: string, w: seq<string>)
    requires IsWalk(g, w) && Edge(g, u, w[0])
    ensures IsWalk(g, [u] + w)
  {
    var w' := [u] + w;
    forall i | 0 <= i < |w'| - 1 ensures Edge(g, w'[i], w'[i + 1]) {
      if i > 0 {
        assert w'[i] == w[i - 1] && w'[i + 1] == w[i];
      }
    }
  }

  lemma ReachSelf(g: Graph, u: string, blocked: seq<string>)
    requires u !in blocked
    ensures ReachAvoiding(g, u, u, blocked)
  {
    var w := [u];
    assert IsWalk(g, w) && Avoids(w, blocked);
  }

  lemma ReachEnds(g: Graph, u: string, v: string, blocked: seq<string>)
    requires ReachAvoiding(g, u, v, blocked)
    ensures u !in blocked && v !in blocked
  {
    var w :| IsWalk(g, w) && w[0] == u && w[|w| - 1] == v && Avoids(w, blocked);
    assert w[0] !in blocked && w[|w| - 1] !in blocked;
  }

  /** Blocking fewer paths keeps every walk. */
  lemma ReachWeaken(g: Graph, u: string, v: string, blocked: seq<string>, fewer: seq<string>)
    requires ReachAvoiding(g, u, v, blocked)
    requires forall x :: x in fewer ==> x in blocked
    ensures ReachAvoiding(g, u, v, fewer)
  {
    var w :| IsWalk(g, w) && w[0] == u && w[|w| - 1] == v && Avoids(w, blocked);
    assert Avoids(w, fewer);
  }

  /** A path without successors can only end a walk, so blocking such paths
      cuts off only the walks that end at them. */
  lemma ReachPastDead(g: Graph, u: string, v: string, blocked: seq<string>, dead: seq<string>)
    requires forall k :: 0 <= k < |dead| ==> dead[k] !in g
    requires ReachAvoiding(g, u, v, blocked)
    ensures ReachAvoiding(g, u, v, blocked + dead) || v in dead
  {
    var w :| IsWalk(g, w) && w[0] == u && w[|w| - 1] == v && Avoids(w, blocked);
    if !Avoids(w, blocked + dead) {
      var i :| 0 <= i < |w| && w[i] in blocked + dead;
      assert w[i] in dead && w[i] !in g;
      WalkInterior(g, w);
      assert i == |w| - 1;
    }
  }

  /** A path without successors reaches itself and nothing else. */
  lemma ReachFromDead(g: Graph, u: string, v: string, blocked: seq<string>)
    requires u !in g
    ensures ReachAvoiding(g, u, v, blocked) <==> v == u && u !in blocked
  {
    if ReachAvoiding(g, u, v, blocked) {
      var w :| IsWalk(g, w) && w[0] == u && w[|w| - 1] == v && Avoids(w, blocked);
      WalkInterior(g, w);
      assert |w| == 1;
    }
    if v == u && u !in blocked {
      ReachSelf(g, u, blocked);
    }
  }

  /** A walk from u that does not end at u leaves u, for the last time,
      through one of its successors. */
  lemma {:induction false} LastExit(g: Graph, w: seq<string>, u: string, blocked: seq<string>)
    requires IsWalk(g, w) && w[0] == u && w[|w| - 1] != u && Avoids(w, blocked)
    ensures AnyReachAvoiding(g, Succ(g, u), w[|w| - 1], blocked + [u])
    decreases |w|
  {
    if j :| 1 <= j < |w| && w[j] == u {
      var rest := w[j..];
      WalkSuffix(g, w, j);
      assert Avoids(rest, blocked) by {
        forall i | 0 <= i < |rest| ensures rest[i] !in blocked {
          assert rest[i] == w[j + i];
        }
      }
      LastExit(g, rest, u, blocked);
    } else {
      var rest := w[1..];
      assert Edge(g, w[0], w[1]);
      var k :| 0 <= k < |Succ(g, u)| && Succ(g, u)[k] == w[1];
      WalkSuffix(g, w, 1);
      assert Avoids(rest, blocked + [u]) by {
        forall i | 0 <= i < |rest| ensures rest[i] !in blocked + [u] {
          assert rest[i] == w[i + 1];
        }
      }
      assert ReachAvoiding(g, Succ(g, u)[k], w[|w| - 1], blocked + [u]);
    }
  }

  /** The recursion of the marking: from u (not blocked, with successors
      recorded), v is reached exactly when v is u or is reached from one
      of u's successors with u itself blocked. */
  lemma ReachUnfold(g: Graph, u: string, v: string, blocked: seq<string>)
    requires u !in blocked && u in g
    ensures ReachAvoiding(g, u, v, blocked) <==> v == u || AnyReachAvoiding(g, Succ(g, u), v, blocked + [u])
  {
    if ReachAvoiding(g, u, v, blocked) && v != u {
      var w :| IsWalk(g, w) && w[0] == u && w[|w| - 1] == v && Avoids(w, blocked);
      LastExit(g, w, u, blocked);
    }
    if v == u {
      ReachSelf(g, u, blocked);
    } else if AnyReachAvoiding(g, Succ(g, u), v, blocked + [u]) {
      var k :| 0 <= k < |Succ(g, u)| && ReachAvoiding(g, Succ(g, u)[k], v, blocked + [u]);
      var w :| IsWalk(g, w) && w[0] == Succ(g, u)[k] && w[|w| - 1] == v && Avoids(w, blocked + [u]);
      WalkPrepend(g, u, w);
      var w' := [u] + w;
      assert Avoids(w', blocked) by {
        forall i | 1 <= i < |w'| ensures w'[i] !in blocked {
          assert w'[i] == w[i - 1];
        }
      }
      assert w'[|w'| - 1] == v;
    }
  }

  lemma AnyReachSnoc(g: Graph, starts: seq<string>, i: nat, v: string, blocked: seq<string>)
    requires i < |starts|
    ensures AnyReachAvoiding(g, starts[..i + 1], v, blocked) <==>
      AnyReachAvoiding(g, starts[..i], v, blocked) || ReachAvoiding(g, starts[i], v, blocked)
  {
    if AnyReachAvoiding(g, starts[..i + 1], v, blocked) {
      var k :| 0 <= k < i + 1 && ReachAvoiding(g, starts[..i + 1][k], v, blocked);
      if k < i {
        assert starts[..i][k] == starts[k];
      }
    }
    if AnyReachAvoiding(g, starts[..i], v, blocked) {
      var k :| 0 <= k < i && ReachAvoiding(g, starts[..i][k], v, blocked);
      assert starts[..i + 1][k] == starts[k];
    }
    if ReachAvoiding(g, starts[i], v, blocked) {
      assert starts[..i + 1][i] == starts[i];
    }
  }

  lemma AnyReachSetSnoc(g: Graph, starts: seq<string>, i: nat, blocked: seq<string>)
    requires i < |starts|
    ensures AnyReachSet(g, starts[..i + 1], blocked) == AnyReachSet(g, starts[..i], blocked) + ReachSet(g, starts[i], blocked)
  {
    forall v ensures v in AnyReachSet(g, starts[..i + 1], blocked) <==>
      v in AnyReachSet(g, starts[..i], blocked) + ReachSet(g, starts[i], blocked)
    {
      AnyReachSnoc(g, starts, i, v, blocked);
    }
  }

  /** ReachUnfold on whole sets. */
  lemma ReachSetUnfold(g: Graph, u: string, blocked: seq<string>)
    requires u !in blocked && u in g
    ensures ReachSet(g, u, blocked) == iset{u} + AnyReachSet(g, Succ(g, u), blocked + [u])
  {
    forall v ensures v in ReachSet(g, u, blocked) <==> v in iset{u} + AnyReachSet(g, Succ(g, u), blocked + [u]) {
      ReachUnfold(g, u, v, blocked);
    }
  }

  /** What reaches u reaches u's successors. */
  lemma ReachExtend(g: Graph, p: string, u: string, v: string)
    requires Reachable(g, p, u) && Edge(g, u, v)
    ensures Reachable(g, p, v)
  {
    var w :| IsWalk(g, w) && w[0] == p && w[|w| - 1] == u && Avoids(w, []);
    WalkExtend(g, w, v);
    assert Avoids(w + [v], []);
  }

  /** A set of marked paths closed under edges: every successor of a
      marked path is marked. */
  ghost predicate Closed(g: Graph, marked: iset<string>) {
    forall u, v :: u in marked && Edge(g, u, v) ==> v in marked
  }

  lemma {:induction false} ClosedAlongWalk(g: Graph, marked: iset<string>, w: seq<string>)
    requires Closed(g, marked) && IsWalk(g, w) && w[0] in marked
    ensures w[|w| - 1] in marked
    decreases |w|
  {
    if |w| > 1 {
      assert Edge(g, w[0], w[1]);
      WalkSuffix(g, w, 1);
      ClosedAlongWalk(g, marked, w[1..]);
    }
  }

  /** An edge-closed set holds everything its members reach. */
  lemma ClosedReach(g: Graph, marked: iset<string>, u: string, v: string)
    requires Closed(g, marked) && u in marked && Reachable(g, u, v)
    ensures v in marked
  {
    var w :| IsWalk(g, w) && w[0] == u && w[|w| - 1] == v && Avoids(w, []);
    ClosedAlongWalk(g, marked, w);
  }
}
