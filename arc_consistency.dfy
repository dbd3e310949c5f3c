/**
 * AC-3 arc consistency for the bot-scheduling problem, followed by plain
 * backtracking with MRV on the reduced domains. The only binary constraint
 * is No Back-to-Back, so an arc (xi, xj) joins two neighbouring slots and a
 * value of xi is supported when the domain of xj holds some other bot.
 */
module ArcConsistency {
  import opened CspFramework
  import opened BacktrackingSearch

  // ---------------------------------------------------------------------------
  // Arcs and support

  /** A directed arc of the constraint graph: two neighbouring slots. */
  predicate IsArc(arc: (int, int)) {
    0 <= arc.0 < NUM_SLOTS && 0 <= arc.1 < NUM_SLOTS && Adjacent(arc.0, arc.1)
  }

  /** Math.abs. */
  function Abs(x: int): (r: int)
    ensures r >= 0 && (r == x || r == -x)
  {
    if x < 0 then -x else x
  }

  /** Some bot of dj differs from v: v has a partner across the arc. */
  predicate Supported(v: Bot, dj: seq<Bot>) {
    exists k | 0 <= k < |dj| :: dj[k] != v
  }

  /** Every value of the domain of x has support in the domain of y. */
  predicate ArcConsistent(d: seq<seq<Bot>>, x: int, y: int)
    requires 0 <= x < |d| && 0 <= y < |d|
  {
    forall m | 0 <= m < |d[x]| :: Supported(d[x][m], d[y])
  }

  /** Every arc of the constraint graph is consistent. */
  ghost predicate AllArcsConsistent(d: seq<seq<Bot>>) {
    |d| == NUM_SLOTS && forall arc | IsArc(arc) :: ArcConsistent(d, arc.0, arc.1)
  }

  /** Every solution within d0 that keeps No Back-to-Back is still within d. */
  ghost predicate KeepsSolutions(d0: seq<seq<Bot>>, d: seq<seq<Bot>>) {
    forall s | Extends(s, EmptyAssignment(), d0) && NoBackToBack(s) :: Extends(s, EmptyAssignment(), d)
  }

  /** The number of values left in all domains together. */
  function Size(d: seq<seq<Bot>>): nat
    requires |d| == NUM_SLOTS
  {
    |d[0]| + |d[1]| + |d[2]| + |d[3]|
  }

  // ---------------------------------------------------------------------------
  // revise

  /** The values of di that keep their support in dj, in their order. */
  function Revised(di: seq<Bot>, dj: seq<Bot>): (r: seq<Bot>)
    ensures |r| <= |di| && multiset(r) <= multiset(di)
    ensures forall v :: v in r <==> v in di && Supported(v, dj)
  {
    if di == [] then []
    else
      assert di == [di[0]] + di[1..];
      (if Supported(di[0], dj) then [di[0]] else []) + Revised(di[1..], dj)
  }

  /** List.removeAll: every element of s equal to some element of t goes. */
  function RemoveAll(s: seq<Bot>, t: seq<Bot>): (r: seq<Bot>)
    ensures forall v :: v in r <==> v in s && v !in t
  {
    if s == [] then []
    else
      assert s == [s[0]] + s[1..];
      (if s[0] in t then [] else [s[0]]) + RemoveAll(s[1..], t)
  }

  /** Removing exactly the unsupported values keeps the supported ones, in order. */
  lemma {:induction false} RemoveUnsupported(s: seq<Bot>, t: seq<Bot>, dj: seq<Bot>)
    requires forall v | v in s :: v in t <==> !Supported(v, dj)
    ensures RemoveAll(s, t) == Revised(s, dj)
  {
    if s != [] {
      assert s[0] in s;
      forall v | v in s[1..] ensures v in t <==> !Supported(v, dj) {
        assert v in s;
      }
      RemoveUnsupported(s[1..], t, dj);
    }
  }

  /** A revision that removes nothing leaves the domain as it was. */
  lemma {:induction false} RevisedAllSupported(di: seq<Bot>, dj: seq<Bot>)
    requires forall v | v in di :: Supported(v, dj)
    ensures Revised(di, dj) == di
  {
    if di != [] {
      assert di[0] in di;
      forall v | v in di[1..] ensures Supported(v, dj) {
        assert v in di;
      }
      RevisedAllSupported(di[1..], dj);
      assert di == [di[0]] + di[1..];
    }
  }

  /** A revision that removes something shortens the domain. */
  lemma {:induction false} RevisedShorter(di: seq<Bot>, dj: seq<Bot>, v: Bot)
    requires v in di && !Supported(v, dj)
    ensures |Revised(di, dj)| < |di|
  {
    if di[0] != v {
      assert v in di[1..];
      RevisedShorter(di[1..], dj, v);
    }
  }

  /**
   * ArcConsistency.revise: collects the values of the domain of xi that have
   * no different bot in the domain of xj, removes them with removeAll, and
   * says whether there were any.
   */
  method Revise(domains: array<seq<Bot>>, xi: int, xj: int) returns (revised: bool)
    requires domains.Length == NUM_SLOTS && 0 <= xi < NUM_SLOTS && 0 <= xj < NUM_SLOTS && xi != xj
    modifies domains
    ensures domains[..] == old(domains[..])[xi := Revised(old(domains[xi]), old(domains[xj]))]
    ensures revised <==> exists v | v in old(domains[xi]) :: !Supported(v, old(domains[xj]))
  {
    revised := false;
    var toRemove: seq<Bot> := [];
    var di, dj := domains[xi], domains[xj];
    for k := 0 to |di|
      invariant forall v :: v in toRemove <==> v in di[..k] && !Supported(v, dj)
      invariant revised <==> toRemove != []
    {
      var val := di[k];
      var hasSupport := false;
      var m := 0;
      while m < |dj|
        invariant 0 <= m <= |dj|
        invariant !hasSupport ==> forall p | 0 <= p < m :: dj[p] == val
        invariant hasSupport ==> Supported(val, dj)
      {
        if dj[m] != val {
          hasSupport := true;
          break;
        }
        m := m + 1;
      }
      if !hasSupport {
        toRemove := toRemove + [val];
        revised := true;
      }
      assert di[..k + 1] == di[..k] + [val];
    }
    assert di[..|di|] == di;
    if revised {
      assert toRemove[0] in toRemove;
    }
    RemoveUnsupported(di, toRemove, dj);
    domains[xi] := RemoveAll(di, toRemove);
  }

  /** After revising xi against xj the arc (xi, xj) is consistent. */
  lemma RevisedConsistent(d: seq<seq<Bot>>, xi: int, xj: int)
    requires |d| == NUM_SLOTS && 0 <= xi < NUM_SLOTS && 0 <= xj < NUM_SLOTS && xi != xj
    ensures ArcConsistent(d[xi := Revised(d[xi], d[xj])], xi, xj)
  {
    var d' := d[xi := Revised(d[xi], d[xj])];
    forall m | 0 <= m < |d'[xi]| ensures Supported(d'[xi][m], d'[xj]) {
      assert d'[xi][m] in Revised(d[xi], d[xj]);
    }
  }

  /**
   * Revising xi against xj keeps every other consistent arc consistent,
   * except the arcs (xk, xi) with xk != xj, which AC-3 puts back in the
   * queue. The reverse arc (xj, xi) survives because a value is only removed
   * when every bot of the domain of xj equals it.
   */
  lemma ReviseKeepsArc(d: seq<seq<Bot>>, xi: int, xj: int, arc: (int, int))
    requires |d| == NUM_SLOTS && IsArc((xi, xj)) && IsArc(arc)
    requires ArcConsistent(d, arc.0, arc.1) && (arc.1 != xi || arc.0 == xj)
    requires Revised(d[xi], d[xj]) != []
    ensures ArcConsistent(d[xi := Revised(d[xi], d[xj])], arc.0, arc.1)
  {
    var d' := d[xi := Revised(d[xi], d[xj])];
    if arc.0 == xi {
      forall m | 0 <= m < |d'[xi]| ensures Supported(d'[xi][m], d'[arc.1]) {
        var v := d'[xi][m];
        assert v in d[xi];
        var m0 :| 0 <= m0 < |d[xi]| && d[xi][m0] == v;
        assert Supported(d[xi][m0], d[arc.1]);
      }
    } else if arc.1 == xi {
      var w := d'[xi][0];
      assert w in Revised(d[xi], d[xj]);
      if exists v | v in d[xi] :: !Supported(v, d[xj]) {
        var v :| v in d[xi] && !Supported(v, d[xj]);
        var z :| 0 <= z < |d[xj]| && d[xj][z] != w;
        forall m | 0 <= m < |d'[xj]| ensures Supported(d'[xj][m], d'[xi]) {
          assert d[xj][m] == v == d[xj][z];
          assert d'[xi][0] != d'[xj][m];
        }
      } else {
        RevisedAllSupported(d[xi], d[xj]);
        assert d' == d;
      }
    } else {
      assert d'[arc.0] == d[arc.0] && d'[arc.1] == d[arc.1];
    }
  }

  /** Revising never removes a value some solution uses. */
  lemma ReviseKeepsSolutions(d0: seq<seq<Bot>>, d: seq<seq<Bot>>, xi: int, xj: int)
    requires |d| == NUM_SLOTS && IsArc((xi, xj)) && KeepsSolutions(d0, d)
    ensures KeepsSolutions(d0, d[xi := Revised(d[xi], d[xj])])
  {
    var d' := d[xi := Revised(d[xi], d[xj])];
    forall s: seq<Entry> | Extends(s, EmptyAssignment(), d0) && NoBackToBack(s) ensures Extends(s, EmptyAssignment(), d') {
      assert Extends(s, EmptyAssignment(), d);
      var v := s[xi].bot;
      var m :| 0 <= m < |d[xj]| && d[xj][m] == s[xj].bot;
      if xi < xj {
        assert !(s[xi].Assigned? && s[xi] == s[xi + 1]);
      } else {
        assert !(s[xj].Assigned? && s[xj] == s[xj + 1]);
      }
      assert Supported(v, d[xj]);
    }
  }

  /** On a consistent arc every value has support, so revising it changes nothing. */
  lemma ConsistentNotRevised(d: seq<seq<Bot>>, xi: int, xj: int)
    requires 0 <= xi < |d| && 0 <= xj < |d|
    ensures ArcConsistent(d, xi, xj) ==> forall v | v in d[xi] :: Supported(v, d[xj])
  {
  }

  /** Revising only removes values. */
  lemma ReviseNarrower(d: seq<seq<Bot>>, d0: seq<seq<Bot>>, xi: int, xj: int)
    requires Narrower(d, d0) && 0 <= xi < |d| && 0 <= xj < |d|
    ensures Narrower(d[xi := Revised(d[xi], d[xj])], d0)
  {
    var d' := d[xi := Revised(d[xi], d[xj])];
    forall i | 0 <= i < |d'| ensures multiset(d'[i]) <= multiset(d0[i]) {
      assert multiset(d'[i]) <= multiset(d[i]);
    }
  }

  /** A domain with values has values in every wider domain. */
  lemma NarrowerNonEmpty(d: seq<seq<Bot>>, d0: seq<seq<Bot>>, i: int)
    requires Narrower(d, d0) && 0 <= i < |d| && d[i] != []
    ensures d0[i] != []
  {
    assert d[i][0] in multiset(d[i]);
  }

  /** Once AC-3 empties a domain, no solution lay within the domains it started from. */
  lemma EmptyAfterAc3(d0: seq<seq<Bot>>, d: seq<seq<Bot>>, i: int)
    requires KeepsSolutions(d0, d) && |d| == NUM_SLOTS && 0 <= i < NUM_SLOTS && d[i] == []
    ensures NoSolution(EmptyAssignment(), d0)
  {
    forall s: seq<Entry> | Extends(s, EmptyAssignment(), d0) ensures !Solution(s) {
    }
  }

  // ---------------------------------------------------------------------------
  // ac3

  /** The arcs ac3 puts back after revising xi against xj, for neighbours below n. */
  function Requeued(xi: int, xj: int, n: int): seq<(int, int)>
    requires 0 <= n <= NUM_SLOTS
  {
    if n == 0 then []
    else Requeued(xi, xj, n - 1) + (if n - 1 != xj && Abs(n - 1 - xi) == 1 then [(n - 1, xi)] else [])
  }

  /** The requeued arcs are exactly the arcs into xi from neighbours other than xj. */
  lemma {:induction false} RequeuedArcs(xi: int, xj: int, n: int)
    requires 0 <= xi < NUM_SLOTS && 0 <= n <= NUM_SLOTS
    ensures forall arc :: arc in Requeued(xi, xj, n) <==> (IsArc(arc) && arc.1 == xi && arc.0 != xj && arc.0 < n)
  {
    if n > 0 {
      RequeuedArcs(xi, xj, n - 1);
    }
  }

  /** The queue ac3 starts from: (i, i+1) and (i+1, i) for the slots below n. */
  function InitialArcs(n: int): seq<(int, int)>
    requires 0 <= n < NUM_SLOTS
  {
    if n == 0 then [] else InitialArcs(n - 1) + [(n - 1, n), (n, n - 1)]
  }

  /** The initial queue holds every arc of the constraint graph and nothing else. */
  lemma {:induction false} InitialArcsAll(n: int)
    requires 0 <= n < NUM_SLOTS
    ensures forall arc :: arc in InitialArcs(n) <==> IsArc(arc) && arc.0 <= n && arc.1 <= n
  {
    if n > 0 {
      InitialArcsAll(n - 1);
    }
  }

  /**
   * The bookkeeping of one AC-3 step: after the arc at the head of the queue
   * is revised and the arcs into xi are put back, every arc is still in the
   * queue or consistent.
   */
  lemma Ac3Step(d: seq<seq<Bot>>, queue: seq<(int, int)>, revised: bool)
    requires |d| == NUM_SLOTS && queue != [] && IsArc(queue[0])
    requires forall arc | IsArc(arc) :: arc in queue || ArcConsistent(d, arc.0, arc.1)
    requires revised <==> exists v | v in d[queue[0].0] :: !Supported(v, d[queue[0].1])
    requires revised ==> Revised(d[queue[0].0], d[queue[0].1]) != []
    ensures var xi, xj := queue[0].0, queue[0].1;
            var d' := d[xi := Revised(d[xi], d[xj])];
            var queue' := queue[1..] + (if revised then Requeued(xi, xj, NUM_SLOTS) else []);
            forall arc | IsArc(arc) :: arc in queue' || ArcConsistent(d', arc.0, arc.1)
  {
    var xi, xj := queue[0].0, queue[0].1;
    var d' := d[xi := Revised(d[xi], d[xj])];
    var queue' := queue[1..] + (if revised then Requeued(xi, xj, NUM_SLOTS) else []);
    RequeuedArcs(xi, xj, NUM_SLOTS);
    if !revised {
      RevisedAllSupported(d[xi], d[xj]);
      assert d' == d;
    }
    forall arc | IsArc(arc) && arc !in queue' ensures ArcConsistent(d', arc.0, arc.1) {
      if arc == (xi, xj) {
        RevisedConsistent(d, xi, xj);
      } else {
        assert arc !in queue[1..];
        assert arc != queue[0];
        if revised {
          ReviseKeepsArc(d, xi, xj, arc);
        }
      }
    }
  }

  /**
   * What holds before each turn of ac3's loop: the queue holds arcs; every
   * arc is queued or consistent; the domains only lost values, and none that
   * a solution uses; and nothing changed if every arc was consistent at the
   * start.
   */
  ghost predicate Ac3Invariant(d0: seq<seq<Bot>>, d: seq<seq<Bot>>, queue: seq<(int, int)>) {
    && |d| == NUM_SLOTS
    && (forall k | 0 <= k < |queue| :: IsArc(queue[k]))
    && (forall arc | IsArc(arc) :: arc in queue || ArcConsistent(d, arc.0, arc.1))
    && Narrower(d, d0) && KeepsSolutions(d0, d)
    && (AllArcsConsistent(d0) ==> d == d0)
  }

  /** The initial queue establishes the invariant. */
  lemma Ac3Start(d0: seq<seq<Bot>>, queue: seq<(int, int)>)
    requires |d0| == NUM_SLOTS && queue == InitialArcs(NUM_SLOTS - 1)
    ensures Ac3Invariant(d0, d0, queue)
  {
    InitialArcsAll(NUM_SLOTS - 1);
    forall i | 0 <= i < |d0| ensures multiset(d0[i]) <= multiset(d0[i]) {
    }
  }

  /** One turn of ac3's loop keeps the invariant. */
  lemma Ac3Iteration(d0: seq<seq<Bot>>, d: seq<seq<Bot>>, q: seq<(int, int)>, revised: bool)
    requires Ac3Invariant(d0, d, q) && q != []
    requires revised <==> exists v | v in d[q[0].0] :: !Supported(v, d[q[0].1])
    requires revised ==> Revised(d[q[0].0], d[q[0].1]) != []
    ensures var xi, xj := q[0].0, q[0].1;
            Ac3Invariant(d0, d[xi := Revised(d[xi], d[xj])],
                         q[1..] + (if revised then Requeued(xi, xj, NUM_SLOTS) else []))
  {
    var xi, xj := q[0].0, q[0].1;
    assert IsArc(q[0]);
    ReviseKeepsSolutions(d0, d, xi, xj);
    ReviseNarrower(d, d0, xi, xj);
    Ac3Step(d, q, revised);
    QueueHoldsArcs(q, revised);
    ConsistentUnchanged(d0, d, xi, xj, revised);
  }

  /** The queue after one turn of ac3's loop still holds only arcs. */
  lemma QueueHoldsArcs(q: seq<(int, int)>, revised: bool)
    requires q != [] && forall k | 0 <= k < |q| :: IsArc(q[k])
    ensures var xi, xj := q[0].0, q[0].1;
            var queue' := q[1..] + (if revised then Requeued(xi, xj, NUM_SLOTS) else []);
            forall k | 0 <= k < |queue'| :: IsArc(queue'[k])
  {
    var xi, xj := q[0].0, q[0].1;
    assert IsArc(q[0]);
    var queue' := q[1..] + (if revised then Requeued(xi, xj, NUM_SLOTS) else []);
    RequeuedArcs(xi, xj, NUM_SLOTS);
    forall k | 0 <= k < |queue'| ensures IsArc(queue'[k]) {
      if k < |q| - 1 {
        assert queue'[k] == q[k + 1];
      } else {
        assert queue'[k] in Requeued(xi, xj, NUM_SLOTS);
      }
    }
  }

  /** Revising an arc of domains that were consistent everywhere changes nothing. */
  lemma ConsistentUnchanged(d0: seq<seq<Bot>>, d: seq<seq<Bot>>, xi: int, xj: int, revised: bool)
    requires |d| == NUM_SLOTS && IsArc((xi, xj)) && (AllArcsConsistent(d0) ==> d == d0)
    requires revised <==> exists v | v in d[xi] :: !Supported(v, d[xj])
    ensures AllArcsConsistent(d0) ==> !revised && d[xi := Revised(d[xi], d[xj])] == d0
  {
    if !revised {
      RevisedAllSupported(d[xi], d[xj]);
    }
    ConsistentNotRevised(d, xi, xj);
    ArcOfAll(d0, (xi, xj));
  }

  /** A turn of ac3's loop shrinks the domains when it revises, and the queue otherwise. */
  lemma Ac3Progress(d: seq<seq<Bot>>, q: seq<(int, int)>, revised: bool)
    requires |d| == NUM_SLOTS && q != [] && IsArc(q[0])
    requires revised <==> exists v | v in d[q[0].0] :: !Supported(v, d[q[0].1])
    ensures var xi, xj := q[0].0, q[0].1;
            var d' := d[xi := Revised(d[xi], d[xj])];
            && (revised ==> Size(d') < Size(d))
            && (!revised ==> d' == d && |q[1..]| < |q|)
  {
    var xi, xj := q[0].0, q[0].1;
    assert IsArc(q[0]);
    SizeUpdate(d, xi, Revised(d[xi], d[xj]));
    if revised {
      var v :| v in d[xi] && !Supported(v, d[xj]);
      RevisedShorter(d[xi], d[xj], v);
    } else {
      RevisedAllSupported(d[xi], d[xj]);
    }
  }

  /** Replacing one domain changes the total size by the difference in length. */
  lemma SizeUpdate(d: seq<seq<Bot>>, i: int, s: seq<Bot>)
    requires |d| == NUM_SLOTS && 0 <= i < NUM_SLOTS
    ensures Size(d[i := s]) == Size(d) - |d[i]| + |s|
  {
  }

  /** When a revision empties a domain, ac3's failure postconditions hold. */
  lemma Ac3Failure(d0: seq<seq<Bot>>, d: seq<seq<Bot>>, q: seq<(int, int)>, xi: int, xj: int)
    requires Ac3Invariant(d0, d, q) && q != [] && q[0] == (xi, xj)
    requires exists v | v in d[xi] :: !Supported(v, d[xj])
    requires Revised(d[xi], d[xj]) == []
    ensures var d' := d[xi := Revised(d[xi], d[xj])];
            && d'[xi] == [] && d0[xi] != []
            && NoSolution(EmptyAssignment(), d0)
            && Narrower(d', d0) && KeepsSolutions(d0, d')
            && !AllArcsConsistent(d0)
  {
    assert IsArc(q[0]);
    var d' := d[xi := Revised(d[xi], d[xj])];
    ReviseKeepsSolutions(d0, d, xi, xj);
    ReviseNarrower(d, d0, xi, xj);
    var v :| v in d[xi] && !Supported(v, d[xj]);
    NarrowerNonEmpty(d, d0, xi);
    EmptyAfterAc3(d0, d', xi);
    ConsistentNotRevised(d, xi, xj);
    ArcOfAll(d0, (xi, xj));
  }

  /** AllArcsConsistent covers each arc. */
  lemma ArcOfAll(d: seq<seq<Bot>>, arc: (int, int))
    requires IsArc(arc)
    ensures AllArcsConsistent(d) ==> ArcConsistent(d, arc.0, arc.1)
  {
  }

  /**
   * The inner loop of ac3: after Xi was revised against Xj, every arc
   * (Xk, Xi) with Xk a neighbour of Xi other than Xj goes to the back of
   * the queue, in increasing order of Xk.
   */
  method RequeueArcsInto(queue: seq<(int, int)>, xi: int, xj: int) returns (queue': seq<(int, int)>)
    ensures queue' == queue + Requeued(xi, xj, NUM_SLOTS)
  {
    queue' := queue;
    for xk := 0 to NUM_SLOTS
      invariant queue' == queue + Requeued(xi, xj, xk)
    {
      if xk != xj && Abs(xk - xi) == 1 {
        queue' := queue' + [(xk, xi)];
      }
    }
  }

  /**
   * ArcConsistency.ac3: revises arcs taken from the front of a FIFO queue
   * until it is empty, failing as soon as a revision empties a domain, and
   * putting back the arcs into a revised slot. It removes only values no
   * solution uses; on success every arc is consistent, on failure there is no
   * solution; when every arc is consistent to begin with, nothing changes.
   */
  method Ac3(domains: array<seq<Bot>>) returns (consistent: bool)
    requires domains.Length == NUM_SLOTS
    modifies domains
    ensures consistent ==> AllArcsConsistent(domains[..])
    ensures !consistent ==> exists i | 0 <= i < NUM_SLOTS :: domains[i] == [] && old(domains[i]) != []
    ensures !consistent ==> NoSolution(EmptyAssignment(), old(domains[..]))
    ensures Narrower(domains[..], old(domains[..])) && KeepsSolutions(old(domains[..]), domains[..])
    ensures AllArcsConsistent(old(domains[..])) ==> consistent && domains[..] == old(domains[..])
  {
    ghost var d0 := domains[..];
    var queue: seq<(int, int)> := [];
    for i := 0 to NUM_SLOTS - 1
      invariant queue == InitialArcs(i)
    {
      queue := queue + [(i, i + 1), (i + 1, i)];
    }
    InitialArcsAll(NUM_SLOTS - 1);
    var revisionsCount := 0;
    Ac3Start(d0, queue);
    while queue != []
      invariant Ac3Invariant(d0, domains[..], queue)
      decreases Size(domains[..]), |queue|
    {
      ghost var d, q := domains[..], queue;
      var arc := queue[0];
      queue := queue[1..];
      var xi, xj := arc.0, arc.1;
      assert IsArc(q[0]);
      var revised := Revise(domains, xi, xj);
      if revised {
        revisionsCount := revisionsCount + 1;
        if domains[xi] == [] {
          Ac3Failure(d0, d, q, xi, xj);
          return false;
        }
        queue := RequeueArcsInto(queue, xi, xj);
      } else {
        assert queue == q[1..] + [];
      }
      Ac3Iteration(d0, d, q, revised);
      Ac3Progress(d, q, revised);
    }
    return true;
  }

  /** Every initial domain holds A and B, so every value has support everywhere. */
  lemma InitialDomainsArcConsistent()
    ensures AllArcsConsistent(INITIAL_DOMAINS)
  {
    InitialDomainsShape();
    forall arc | IsArc(arc) ensures ArcConsistent(INITIAL_DOMAINS, arc.0, arc.1) {
      var dj := INITIAL_DOMAINS[arc.1];
      forall m | 0 <= m < |INITIAL_DOMAINS[arc.0]| ensures Supported(INITIAL_DOMAINS[arc.0][m], dj) {
        TwoBotsSupport(INITIAL_DOMAINS[arc.0][m], dj);
      }
    }
  }

  /** A domain holding both A and B supports every bot. */
  lemma TwoBotsSupport(v: Bot, dj: seq<Bot>)
    requires A in dj && B in dj
    ensures Supported(v, dj)
  {
    var ka :| 0 <= ka < |dj| && dj[ka] == A;
    var kb :| 0 <= kb < |dj| && dj[kb] == B;
    assert dj[ka] != v || dj[kb] != v;
  }

  // ---------------------------------------------------------------------------
  // backtrackSimple and main

  /**
   * ArcConsistency.backtrackSimple: backtracking with MRV on fixed domains,
   * with no forward checking; the count[0] counter is passed in and out.
   * On success the assignment is a covering completion of the entry one
   * within the domains; on failure it is as on entry and, when the domain
   * sizes fit, no solution completes it.
   */
  method BacktrackSimple(assignment: array<Entry>, domains: array<seq<Bot>>, count: nat) returns (ok: bool, count': nat)
    requires assignment.Length == NUM_SLOTS && domains.Length == NUM_SLOTS
    modifies assignment
    decreases Holes(assignment[..])
    ensures ok ==> Found(old(assignment[..]), domains[..], assignment[..])
    ensures ok ==> count' >= count + Holes(old(assignment[..]))
    ensures !ok ==> assignment[..] == old(assignment[..]) && count' >= count
    ensures !ok && SizesFit(domains[..]) ==> NoSolution(old(assignment[..]), domains[..])
  {
    ghost var a0, d := assignment[..], domains[..];
    count' := count;
    var complete := AllAssigned(assignment);
    if complete {
      ok := CheckMinimumCoverage(assignment);
      HolesComplete(a0);
      if ok {
        assert Extends(a0, a0, d);
      } else {
        UncoveredNoSolution(a0, d);
      }
      return;
    }
    var slot := SelectMrv(assignment, domains);
    if slot == -1 {
      return false, count';
    }
    var values := domains[slot];
    for k := 0 to |values|
      invariant assignment[..] == a0 && count' >= count
      invariant SizesFit(d) ==> forall j | 0 <= j < k :: Excludes(a0, d, slot, values[j])
    {
      var bot := values[k];
      var consistent := IsConsistent(assignment, slot, bot);
      assert assignment[..] == a0;
      if consistent {
        count' := count' + 1;
        assignment[slot] := Assigned(bot);
        ghost var a1 := assignment[..];
        assert a1 == a0[slot := Assigned(bot)];
        FillHole(a0, slot, bot);
        var feasible := CanSatisfyCoverage(assignment, domains);
        if feasible {
          var found;
          found, count' := BacktrackSimple(assignment, domains, count');
          if found {
            PlacedFound(a0, d, slot, bot, d, assignment[..]);
            return true, count';
          }
        } else {
          InfeasibleNoSolution(a1, d);
        }
        assignment[slot] := Unassigned;
        assert assignment[..] == a1[slot := Unassigned] == a0;
        if SizesFit(d) {
          PlacedExcludes(a0, d, slot, bot);
        }
      } else {
        UnplaceableExcluded(a0, d, slot, bot);
      }
      ExcludedSoFar(a0, d, slot, values, k);
    }
    if SizesFit(d) {
      AllValuesExcluded(a0, d, slot, values);
    }
    return false, count';
  }

  /** Excluding values[k] after values[..k] excludes values[..k + 1]. */
  lemma ExcludedSoFar(a: seq<Entry>, d: seq<seq<Bot>>, slot: int, values: seq<Bot>, k: int)
    requires 0 <= slot < NUM_SLOTS && 0 <= k < |values|
    requires SizesFit(d) ==> Excludes(a, d, slot, values[k])
    requires SizesFit(d) ==> forall j | 0 <= j < k :: Excludes(a, d, slot, values[j])
    ensures SizesFit(d) ==> forall j | 0 <= j < k + 1 :: Excludes(a, d, slot, values[j])
  {
  }

  /**
   * ArcConsistency.main without input, timing and printing: AC-3 on the
   * initial domains finds every arc consistent and changes nothing, and
   * backtrackSimple then finds a solution.
   */
  method SolveWithAc3() returns (consistent: bool, domains: array<seq<Bot>>, success: bool,
                                 assignment: array<Entry>, count: nat)
    ensures consistent && domains[..] == INITIAL_DOMAINS
    ensures success && Solution(assignment[..])
  {
    domains := InitDomains();
    InitialDomainsArcConsistent();
    consistent := Ac3(domains);
    assignment := new Entry[NUM_SLOTS](_ => Unassigned);
    success, count := false, 0;
    if consistent {
      ghost var a0 := assignment[..];
      assert a0 == EmptyAssignment();
      success, count := BacktrackSimple(assignment, domains, 0);
      EmptyValid();
      DemoSolvesInitial();
      if success {
        FoundIsSolution(a0, INITIAL_DOMAINS, assignment[..]);
      }
    } else {
      assert false;
    }
  }
}
