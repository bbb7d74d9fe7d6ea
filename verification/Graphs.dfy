/** Dependency graphs: reachability by paths, and acyclicity as the existence of a ranking. */
module Graphs {

  /** What each known name depends on, in order; unknown names depend on nothing. */
  type Graph = map<string, seq<string>>

  function Succ(g: Graph, n: string): seq<string> {
    if n in g then g[n] else []
  }

  ghost predicate IsPath(g: Graph, p: seq<string>) {
    p != [] && forall i | 0 <= i < |p| - 1 :: p[i + 1] in Succ(g, p[i])
  }

  ghost predicate Reaches(g: Graph, a: string, b: string) {
    exists p :: IsPath(g, p) && p[0] == a && p[|p| - 1] == b
  }

  ghost predicate Reachable(g: Graph, roots: seq<string>, n: string) {
    exists r :: r in roots && Reaches(g, r, n)
  }

  lemma ReachesSelf(g: Graph, a: string)
    ensures Reaches(g, a, a)
  {
    assert IsPath(g, [a]) && [a][0] == a;
  }

  lemma ReachesStep(g: Graph, a: string, b: string, c: string)
    requires Reaches(g, a, b) && c in Succ(g, b)
    ensures Reaches(g, a, c)
  {
    var p :| IsPath(g, p) && p[0] == a && p[|p| - 1] == b;
    var q := p + [c];
    assert IsPath(g, q) && q[0] == a && q[|q| - 1] == c;
  }

  /** Whatever is reachable lies one edge behind something reachable, or is where one starts. */
  lemma ReachesFirst(g: Graph, a: string, b: string)
    requires Reaches(g, a, b) && a != b
    ensures exists c :: c in Succ(g, a) && Reaches(g, c, b)
  {
    var p :| IsPath(g, p) && p[0] == a && p[|p| - 1] == b;
    var q := p[1..];
    assert p[1] in Succ(g, p[0]);
    assert IsPath(g, q) && q[0] == p[1] && q[|q| - 1] == b;
  }

  lemma ReachesBefore(g: Graph, a: string, c: string, b: string)
    requires c in Succ(g, a) && Reaches(g, c, b)
    ensures Reaches(g, a, b)
  {
    var p :| IsPath(g, p) && p[0] == c && p[|p| - 1] == b;
    var q := [a] + p;
    assert IsPath(g, q) && q[0] == a && q[|q| - 1] == b;
  }

  lemma ReachableRoot(g: Graph, roots: seq<string>, r: string)
    requires r in roots
    ensures Reachable(g, roots, r)
  {
    ReachesSelf(g, r);
  }

  lemma ReachableStep(g: Graph, roots: seq<string>, n: string, d: string)
    requires Reachable(g, roots, n) && d in Succ(g, n)
    ensures Reachable(g, roots, d)
  {
    var r :| r in roots && Reaches(g, r, n);
    ReachesStep(g, r, n, d);
  }

  ghost predicate Closed(g: Graph, s: set<string>) {
    forall n, d | n in s && d in Succ(g, n) :: d in s
  }

  /** A closed set that holds the roots holds everything reachable. */
  lemma ReachableInClosed(g: Graph, roots: seq<string>, s: set<string>, n: string)
    requires Closed(g, s) && (forall r | r in roots :: r in s) && Reachable(g, roots, n)
    ensures n in s
  {
    var r :| r in roots && Reaches(g, r, n);
    var p :| IsPath(g, p) && p[0] == r && p[|p| - 1] == n;
    PathInClosed(g, p, s, |p| - 1);
  }

  lemma {:induction false} PathInClosed(g: Graph, p: seq<string>, s: set<string>, i: nat)
    requires Closed(g, s) && IsPath(g, p) && p[0] in s && i < |p|
    ensures p[i] in s
  {
    if i > 0 {
      PathInClosed(g, p, s, i - 1);
      assert p[i - 1 + 1] in Succ(g, p[i - 1]);
    }
  }

  /** The ranked names include the roots, and every edge from one leads to a ranked name of lower rank. */
  ghost predicate Ranks(g: Graph, roots: seq<string>, rank: map<string, nat>) {
    && (forall r | r in roots :: r in rank)
    && (forall n, d {:trigger d in Succ(g, n)} | n in rank && d in Succ(g, n) :: d in rank && rank[d] < rank[n])
  }

  /** The part of the graph behind the roots can be ranked. */
  ghost predicate Acyclic(g: Graph, roots: seq<string>) {
    exists rank :: Ranks(g, roots, rank)
  }

  lemma ReachableIsRanked(g: Graph, roots: seq<string>, rank: map<string, nat>, n: string)
    requires Ranks(g, roots, rank) && Reachable(g, roots, n)
    ensures n in rank
  {
    ReachableInClosed(g, roots, rank.Keys, n);
  }

  /** In an acyclic graph no path leads back to where it began. */
  lemma AcyclicHasNoCycle(g: Graph, roots: seq<string>, n: string, d: string)
    requires Acyclic(g, roots) && Reachable(g, roots, n) && d in Succ(g, n)
    ensures !Reaches(g, d, n)
  {
    var rank :| Ranks(g, roots, rank);
    ReachableIsRanked(g, roots, rank, n);
    if Reaches(g, d, n) {
      var p :| IsPath(g, p) && p[0] == d && p[|p| - 1] == n;
      RankFalls(g, roots, rank, p, |p| - 1);
    }
  }

  lemma {:induction false} RankFalls(g: Graph, roots: seq<string>, rank: map<string, nat>, p: seq<string>, i: nat)
    requires Ranks(g, roots, rank) && IsPath(g, p) && p[0] in rank && i < |p|
    ensures p[i] in rank && rank[p[i]] <= rank[p[0]]
  {
    if i > 0 {
      RankFalls(g, roots, rank, p, i - 1);
      assert p[i - 1 + 1] in Succ(g, p[i - 1]);
    }
  }

  /** No edge of the part behind the roots lies on a cycle. */
  ghost predicate NoCycle(g: Graph, roots: seq<string>) {
    forall n, d {:trigger Reaches(g, d, n)} | Reachable(g, roots, n) && d in Succ(g, n) :: !Reaches(g, d, n)
  }

  /** A walk that never repeats a name of a finite set ends at one without an edge into the set. */
  lemma {:induction false} FindSink(g: Graph, roots: seq<string>, rest: set<string>, visited: set<string>, cur: string)
    returns (n: string)
    requires NoCycle(g, roots) && (forall m | m in rest :: Reachable(g, roots, m))
    requires cur in rest && cur !in visited && visited <= rest && forall v | v in visited :: Reaches(g, v, cur)
    ensures n in rest && forall d | d in Succ(g, n) :: d !in rest
    decreases rest - visited
  {
    if d :| d in Succ(g, cur) && d in rest {
      ReachesSelf(g, cur);
      var more := visited + {cur};
      assert d !in more;
      forall v | v in more ensures Reaches(g, v, d) {
        ReachesStep(g, v, cur, d);
      }
      n := FindSink(g, roots, rest, more, d);
    } else {
      n := cur;
    }
  }

  ghost function Everything(g: Graph, roots: seq<string>): set<string> {
    (set r | r in roots) + (set n, d | n in g && d in g[n] :: d)
  }

  lemma ReachableIsThere(g: Graph, roots: seq<string>, n: string)
    requires Reachable(g, roots, n)
    ensures n in Everything(g, roots)
  {
    ReachableInClosed(g, roots, Everything(g, roots), n);
  }

  /** A name above all ranked ones may follow when its successors are ranked. */
  lemma RankNext(g: Graph, rank: map<string, nat>, top: nat, n: string) returns (more: map<string, nat>)
    requires Ranks(g, [], rank) && (forall m | m in rank :: rank[m] < top)
    requires n !in rank && forall d | d in Succ(g, n) :: d in rank
    ensures Ranks(g, [], more) && (forall m | m in more :: more[m] < top + 1) && more.Keys == rank.Keys + {n}
  {
    more := rank[n := top];
  }

  /** Ranks can be given to the remaining names one by one, each behind its successors. */
  lemma {:induction false} RankRest(g: Graph, roots: seq<string>, all: set<string>, rank: map<string, nat>, top: nat)
    returns (full: map<string, nat>)
    requires NoCycle(g, roots) && (forall m | m in all :: Reachable(g, roots, m)) && Closed(g, all)
    requires rank.Keys <= all && Ranks(g, [], rank) && forall m | m in rank :: rank[m] < top
    ensures full.Keys == all && Ranks(g, [], full)
    decreases all - rank.Keys
  {
    full := rank;
    if cur :| cur in all && cur !in rank {
      var n := FindSink(g, roots, all - rank.Keys, {}, cur);
      assert forall d | d in Succ(g, n) :: d in rank;
      var more := RankNext(g, rank, top, n);
      full := RankRest(g, roots, all, more, top + 1);
    } else {
      assert rank.Keys == all;
    }
  }

  /** Having a ranking is having no cycle. */
  lemma AcyclicIff(g: Graph, roots: seq<string>)
    ensures Acyclic(g, roots) <==> NoCycle(g, roots)
  {
    if Acyclic(g, roots) {
      forall n, d | Reachable(g, roots, n) && d in Succ(g, n) ensures !Reaches(g, d, n) {
        AcyclicHasNoCycle(g, roots, n, d);
      }
    }
    if NoCycle(g, roots) {
      var all := set n | n in Everything(g, roots) && Reachable(g, roots, n);
      forall n, d | n in all && d in Succ(g, n) ensures d in all {
        ReachableStep(g, roots, n, d);
        ReachableIsThere(g, roots, d);
      }
      forall r | r in roots ensures r in all {
        ReachableRoot(g, roots, r);
      }
      var rank := RankRest(g, roots, all, map[], 0);
      assert Ranks(g, roots, rank);
    }
  }
}
