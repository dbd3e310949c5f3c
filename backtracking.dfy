/**
 * Backtracking search with the MRV (minimum remaining values) heuristic and
 * forward checking for the bot-scheduling problem. The assignment array and
 * the per-slot domain lists are edited in place; a failed branch puts both
 * back.
 */
module BacktrackingSearch {
  import opened CspFramework

  const INT_MAX: int := 0x7fff_ffff

  /** Every domain is shorter than Integer.MAX_VALUE, as every Java list is. */
  predicate SizesFit(d: seq<seq<Bot>>) {
    forall i | 0 <= i < |d| :: |d[i]| < INT_MAX
  }

  /** Each domain of d holds the same values, with the same multiplicities, as the one of d'. */
  predicate SameValues(d: seq<seq<Bot>>, d': seq<seq<Bot>>) {
    |d| == |d'| && forall i | 0 <= i < |d| :: multiset(d[i]) == multiset(d'[i])
  }

  /** Each domain of d holds only values of the one of d'. */
  predicate Narrower(d: seq<seq<Bot>>, d': seq<seq<Bot>>) {
    |d| == |d'| && forall i | 0 <= i < |d| :: multiset(d[i]) <= multiset(d'[i])
  }

  predicate Adjacent(i: int, j: int) {
    i == j - 1 || i == j + 1
  }

  // ---------------------------------------------------------------------------
  // Search bookkeeping

  /** The number of unassigned slots: the measure that every recursive call lowers. */
  function Holes(a: seq<Entry>): nat {
    if a == [] then 0 else (if a[0] == Unassigned then 1 else 0) + Holes(a[1..])
  }

  /** An assignment has no holes exactly when it is complete. */
  lemma {:induction false} HolesComplete(a: seq<Entry>)
    ensures Holes(a) == 0 <==> Complete(a)
  {
    if a != [] {
      HolesComplete(a[1..]);
      if Complete(a[1..]) && a[0].Assigned? {
        forall i | 0 <= i < |a| ensures a[i].Assigned? {
          if i > 0 { assert a[i] == a[1..][i - 1]; }
        }
      }
      if Complete(a) {
        forall i | 0 <= i < |a| - 1 ensures a[1..][i].Assigned? {
          assert a[1..][i] == a[i + 1];
        }
      }
    }
  }

  /** Filling one hole removes exactly one hole. */
  lemma {:induction false} FillHole(a: seq<Entry>, i: int, b: Bot)
    requires 0 <= i < |a| && a[i] == Unassigned
    ensures Holes(a[i := Assigned(b)]) == Holes(a) - 1
  {
    if i == 0 {
      assert a[i := Assigned(b)][1..] == a[1..];
    } else {
      assert a[i := Assigned(b)][1..] == a[1..][i - 1 := Assigned(b)];
      FillHole(a[1..], i - 1, b);
    }
  }

  /**
   * The completeness test at the head of backtrack (and of backtrackSimple):
   * scans the assignment for a null entry.
   */
  method AllAssigned(assignment: array<Entry>) returns (complete: bool)
    ensures complete <==> Complete(assignment[..])
  {
    complete := true;
    var i := 0;
    while i < assignment.Length
      invariant 0 <= i <= assignment.Length
      invariant forall k | 0 <= k < i :: assignment[k].Assigned?
    {
      if assignment[i] == Unassigned {
        complete := false;
        break;
      }
      i := i + 1;
    }
  }

  // ---------------------------------------------------------------------------
  // selectMRV

  /**
   * slot is unassigned, its domain is no larger than that of any other
   * unassigned slot and strictly smaller than that of every unassigned slot
   * before it (the first minimum), and smaller than Integer.MAX_VALUE.
   */
  predicate MrvChoice(a: seq<Entry>, d: seq<seq<Bot>>, slot: int)
    requires |a| == NUM_SLOTS && |d| == NUM_SLOTS
  {
    && 0 <= slot < NUM_SLOTS && a[slot] == Unassigned && |d[slot]| < INT_MAX
    && (forall i | 0 <= i < NUM_SLOTS && a[i] == Unassigned :: |d[slot]| <= |d[i]|)
    && (forall i | 0 <= i < slot && a[i] == Unassigned :: |d[slot]| < |d[i]|)
  }

  /**
   * BacktrackingSearch.selectMRV: the first unassigned slot of least domain
   * size, or -1 when no unassigned slot has a domain smaller than the
   * starting minimum Integer.MAX_VALUE, which with Java-sized lists means
   * exactly when every slot is assigned.
   */
  method SelectMrv(assignment: array<Entry>, domains: array<seq<Bot>>) returns (slot: int)
    requires assignment.Length == NUM_SLOTS && domains.Length == NUM_SLOTS
    ensures slot == -1 ==> forall i | 0 <= i < NUM_SLOTS && assignment[i] == Unassigned :: |domains[i]| >= INT_MAX
    ensures slot != -1 ==> MrvChoice(assignment[..], domains[..], slot)
    ensures SizesFit(domains[..]) ==> (slot == -1 <==> Complete(assignment[..]))
  {
    var minSize := INT_MAX;
    slot := -1;
    for i := 0 to NUM_SLOTS
      invariant slot == -1 ==> minSize == INT_MAX
      invariant slot == -1 ==> forall k | 0 <= k < i && assignment[k] == Unassigned :: |domains[k]| >= INT_MAX
      invariant slot != -1 ==> 0 <= slot < i && assignment[slot] == Unassigned && minSize == |domains[slot]| < INT_MAX
      invariant slot != -1 ==> forall k | 0 <= k < i && assignment[k] == Unassigned :: minSize <= |domains[k]|
      invariant slot != -1 ==> forall k | 0 <= k < slot && assignment[k] == Unassigned :: minSize < |domains[k]|
    {
      if assignment[i] == Unassigned {
        var domSize := |domains[i]|;
        if domSize < minSize {
          minSize := domSize;
          slot := i;
        }
      }
    }
  }

  /** The MRV choice is determined by the assignment and the domain sizes. */
  lemma MrvUnique(a: seq<Entry>, d: seq<seq<Bot>>, s1: int, s2: int)
    requires |a| == NUM_SLOTS && |d| == NUM_SLOTS
    requires MrvChoice(a, d, s1) && MrvChoice(a, d, s2)
    ensures s1 == s2
  {
    assert |d[s1]| <= |d[s2]| && |d[s2]| <= |d[s1]|;
  }

  // ---------------------------------------------------------------------------
  // forwardCheck and undoForwardCheck

  /** Arrays.asList(BOTS).indexOf(bot). */
  function BotIndex(b: Bot): (k: int)
    ensures 0 <= k < |BOTS| && BOTS[k] == b
  {
    match b
    case A => 0
    case B => 1
    case C => 2
  }

  /** The outcome of forwardCheck: null after a domain wipe-out, else the list of removals. */
  datatype Pruning = Wipeout | Pruned(removed: seq<(int, int)>)

  /** Every removal names a slot and an index into BOTS. */
  predicate Logged(removed: seq<(int, int)>) {
    forall k | 0 <= k < |removed| :: 0 <= removed[k].0 < NUM_SLOTS && 0 <= removed[k].1 < |BOTS|
  }

  /** The bots the removals took from slot i, in the order they were logged. */
  function Restored(removed: seq<(int, int)>, i: int): seq<Bot>
    requires Logged(removed)
  {
    if removed == [] then []
    else
      var last := removed[|removed| - 1];
      Restored(removed[..|removed| - 1], i) + (if last.0 == i then [BOTS[last.1]] else [])
  }

  /**
   * d' is d with one occurrence of bot removed from some unassigned
   * neighbours of slot (a is the assignment with slot already filled);
   * every other domain is unchanged.
   */
  predicate Narrowed(d: seq<seq<Bot>>, a: seq<Entry>, slot: int, bot: Bot, d': seq<seq<Bot>>) {
    && |d| == NUM_SLOTS && |a| == NUM_SLOTS && |d'| == NUM_SLOTS
    && forall i | 0 <= i < NUM_SLOTS ::
         d'[i] == d[i] || (Adjacent(i, slot) && a[i] == Unassigned && d'[i] == RemoveFirst(d[i], bot))
  }

  lemma NarrowedIsNarrower(d: seq<seq<Bot>>, a: seq<Entry>, slot: int, bot: Bot, d': seq<seq<Bot>>)
    requires Narrowed(d, a, slot, bot, d')
    ensures Narrower(d', d)
    ensures SizesFit(d) ==> SizesFit(d')
  {
    forall i | 0 <= i < NUM_SLOTS ensures multiset(d'[i]) <= multiset(d[i]) && |d'[i]| <= |d[i]| {
    }
  }

  /**
   * BacktrackingSearch.forwardCheck: removes bot from the domain of the left,
   * then the right, neighbour of slot when that neighbour is unassigned and
   * holds bot, logging (neighbour, index of bot). It gives up (null) as soon
   * as a removal empties a domain, leaving earlier removals in place; the
   * removals it logs are exactly what it took out.
   */
  method ForwardCheck(assignment: array<Entry>, domains: array<seq<Bot>>, slot: int, bot: Bot)
    returns (result: Pruning)
    requires assignment.Length == NUM_SLOTS && domains.Length == NUM_SLOTS && 0 <= slot < NUM_SLOTS
    modifies domains
    ensures (result, domains[..]) == ForwardChecked(old(domains[..]), assignment[..], slot, bot)
  {
    ghost var d0, a := domains[..], assignment[..];
    var removed: seq<(int, int)> := [];
    var left := PruneNeighbour(assignment, domains, slot - 1, bot);
    ghost var d1 := domains[..];
    if left {
      removed := removed + [(slot - 1, BotIndex(bot))];
      if domains[slot - 1] == [] {
        assert ForwardChecked(d0, a, slot, bot) == (Wipeout, d1);
        return Wipeout;
      }
    }
    assert removed == PruneLog(d0, a, slot - 1, bot);
    var right := PruneNeighbour(assignment, domains, slot + 1, bot);
    ghost var d2 := domains[..];
    if right {
      removed := removed + [(slot + 1, BotIndex(bot))];
      if domains[slot + 1] == [] {
        assert ForwardChecked(d0, a, slot, bot) == (Wipeout, d2);
        return Wipeout;
      }
    }
    assert removed == PruneLog(d0, a, slot - 1, bot) + PruneLog(d1, a, slot + 1, bot);
    assert ForwardChecked(d0, a, slot, bot) == (Pruned(removed), d2);
    return Pruned(removed);
  }

  /**
   * One neighbour's part of forwardCheck: when neighbour n exists, is
   * unassigned and still allows bot, the first occurrence of bot leaves its
   * domain.
   */
  method PruneNeighbour(assignment: array<Entry>, domains: array<seq<Bot>>, n: int, bot: Bot) returns (pruned: bool)
    requires assignment.Length == NUM_SLOTS && domains.Length == NUM_SLOTS
    modifies domains
    ensures pruned == Prunes(old(domains[..]), assignment[..], n, bot)
    ensures domains[..] == PruneAt(old(domains[..]), assignment[..], n, bot)
  {
    pruned := false;
    if 0 <= n < NUM_SLOTS && assignment[n] == Unassigned {
      var dom := domains[n];
      if bot in dom {
        domains[n] := RemoveFirst(dom, bot);
        pruned := true;
      }
    }
  }

  /** Whether forward checking takes bot out of the domain of neighbour n. */
  predicate Prunes(d: seq<seq<Bot>>, a: seq<Entry>, n: int, bot: Bot)
    requires |d| == NUM_SLOTS && |a| == NUM_SLOTS
  {
    0 <= n < NUM_SLOTS && a[n] == Unassigned && bot in d[n]
  }

  /** Forward checking at neighbour n: one occurrence of bot leaves its domain when it prunes. */
  function PruneAt(d: seq<seq<Bot>>, a: seq<Entry>, n: int, bot: Bot): seq<seq<Bot>>
    requires |d| == NUM_SLOTS && |a| == NUM_SLOTS
  {
    if Prunes(d, a, n, bot) then d[n := RemoveFirst(d[n], bot)] else d
  }

  /**
   * What forwardCheck does to the domains d, given the assignment a with
   * slot already holding bot: the outcome and the domains afterwards.
   */
  function ForwardChecked(d: seq<seq<Bot>>, a: seq<Entry>, slot: int, bot: Bot): (Pruning, seq<seq<Bot>>)
    requires |d| == NUM_SLOTS && |a| == NUM_SLOTS && 0 <= slot < NUM_SLOTS
  {
    var d1 := PruneAt(d, a, slot - 1, bot);
    if Prunes(d, a, slot - 1, bot) && d1[slot - 1] == [] then (Wipeout, d1)
    else
      var d2 := PruneAt(d1, a, slot + 1, bot);
      if Prunes(d1, a, slot + 1, bot) && d2[slot + 1] == [] then (Wipeout, d2)
      else (Pruned(PruneLog(d, a, slot - 1, bot) + PruneLog(d1, a, slot + 1, bot)), d2)
  }

  /** What forward checking logs at neighbour n: the neighbour and the index of bot, when it prunes. */
  function PruneLog(d: seq<seq<Bot>>, a: seq<Entry>, n: int, bot: Bot): seq<(int, int)>
    requires |d| == NUM_SLOTS && |a| == NUM_SLOTS
  {
    if Prunes(d, a, n, bot) then [(n, BotIndex(bot))] else []
  }

  /** Pruning an untouched neighbour keeps the domains narrowed. */
  lemma PruneAtNarrowed(d0: seq<seq<Bot>>, d: seq<seq<Bot>>, a: seq<Entry>, slot: int, bot: Bot, n: int)
    requires Narrowed(d0, a, slot, bot, d) && Adjacent(n, slot)
    requires 0 <= n < NUM_SLOTS ==> d[n] == d0[n]
    ensures Narrowed(d0, a, slot, bot, PruneAt(d, a, n, bot))
  {
    var d' := PruneAt(d, a, n, bot);
    forall i | 0 <= i < NUM_SLOTS
      ensures d'[i] == d0[i] || (Adjacent(i, slot) && a[i] == Unassigned && d'[i] == RemoveFirst(d0[i], bot))
    {
      if i != n || !Prunes(d, a, n, bot) {
        assert d'[i] == d[i];
      }
    }
  }

  /** Forward checking removes bot at most once from each unassigned neighbour and touches nothing else. */
  lemma ForwardCheckNarrows(d: seq<seq<Bot>>, a: seq<Entry>, slot: int, bot: Bot, res: Pruning, d': seq<seq<Bot>>)
    requires |d| == NUM_SLOTS && |a| == NUM_SLOTS && 0 <= slot < NUM_SLOTS
    requires (res, d') == ForwardChecked(d, a, slot, bot)
    ensures Narrowed(d, a, slot, bot, d')
  {
    assert Narrowed(d, a, slot, bot, d);
    PruneAtNarrowed(d, d, a, slot, bot, slot - 1);
    var d1 := PruneAt(d, a, slot - 1, bot);
    PruneAtNarrowed(d, d1, a, slot, bot, slot + 1);
  }
  /** It reports a wipe-out only when a removal emptied an unassigned neighbour's domain. */
  lemma ForwardCheckWipeout(d: seq<seq<Bot>>, a: seq<Entry>, slot: int, bot: Bot, res: Pruning, d': seq<seq<Bot>>)
    requires |d| == NUM_SLOTS && |a| == NUM_SLOTS && 0 <= slot < NUM_SLOTS
    requires (res, d') == ForwardChecked(d, a, slot, bot)
    ensures res.Wipeout? ==>
              exists i | 0 <= i < NUM_SLOTS :: Adjacent(i, slot) && a[i] == Unassigned
                                                && bot in d[i] && d'[i] == []
  {
  }
  /** Without a wipe-out it empties no domain. */
  lemma ForwardCheckKeepsNonEmpty(d: seq<seq<Bot>>, a: seq<Entry>, slot: int, bot: Bot, res: Pruning, d': seq<seq<Bot>>)
    requires |d| == NUM_SLOTS && |a| == NUM_SLOTS && 0 <= slot < NUM_SLOTS
    requires (res, d') == ForwardChecked(d, a, slot, bot)
    ensures res.Pruned? ==> forall i | 0 <= i < NUM_SLOTS :: d'[i] == [] ==> d[i] == []
  {
  }

  /**
   * Without a wipe-out the log names exactly what forward checking removed:
   * putting the logged bots back restores every domain's values.
   */
  lemma ForwardCheckLogged(d: seq<seq<Bot>>, a: seq<Entry>, slot: int, bot: Bot, res: Pruning, d': seq<seq<Bot>>)
    requires |d| == NUM_SLOTS && |a| == NUM_SLOTS && 0 <= slot < NUM_SLOTS
    requires (res, d') == ForwardChecked(d, a, slot, bot)
    ensures res.Pruned? ==> Accounted(d, d', res.removed, slot, bot)
  {
    PruneBothAccounted(d, a, slot, bot);
  }

  /** Pruning the left, then the right, neighbour keeps the accounts. */
  lemma PruneBothAccounted(d: seq<seq<Bot>>, a: seq<Entry>, slot: int, bot: Bot)
    requires |d| == NUM_SLOTS && |a| == NUM_SLOTS && 0 <= slot < NUM_SLOTS
    ensures var d1 := PruneAt(d, a, slot - 1, bot);
            Accounted(d, PruneAt(d1, a, slot + 1, bot), PruneLog(d, a, slot - 1, bot) + PruneLog(d1, a, slot + 1, bot), slot, bot)
  {
    var d1 := PruneAt(d, a, slot - 1, bot);
    var log1 := PruneLog(d, a, slot - 1, bot);
    PruneLeftAccounted(d, a, slot, bot);
    PruneAtAccounted(d, d1, log1, a, slot, bot, slot + 1);
  }

  /** Pruning an untouched neighbour, and logging it, keeps the accounts. */
  lemma PruneAtAccounted(d0: seq<seq<Bot>>, d: seq<seq<Bot>>, removed: seq<(int, int)>, a: seq<Entry>,
                         slot: int, bot: Bot, n: int)
    requires Accounted(d0, d, removed, slot, bot) && |a| == NUM_SLOTS && Adjacent(n, slot)
    requires 0 <= n < NUM_SLOTS ==> d[n] == d0[n]
    requires forall k | 0 <= k < |removed| :: removed[k].0 != n
    ensures Accounted(d0, PruneAt(d, a, n, bot), removed + PruneLog(d, a, n, bot), slot, bot)
  {
    if Prunes(d, a, n, bot) {
      PruneStep(d0, d, slot, bot, n, removed);
    } else {
      assert removed + [] == removed;
    }
  }

  /** Before any removal the accounts are trivially balanced. */
  lemma AccountedStart(d: seq<seq<Bot>>, slot: int, bot: Bot)
    requires |d| == NUM_SLOTS
    ensures Accounted(d, d, [], slot, bot)
  {
  }

  /**
   * The removals account for the difference between d0 and d: putting them
   * back gives each domain its values from d0, and each names a neighbour
   * of slot and the index of bot.
   */
  predicate Accounted(d0: seq<seq<Bot>>, d: seq<seq<Bot>>, removed: seq<(int, int)>, slot: int, bot: Bot) {
    && |d0| == NUM_SLOTS && |d| == NUM_SLOTS && Logged(removed)
    && (forall i | 0 <= i < NUM_SLOTS :: multiset(d[i]) + multiset(Restored(removed, i)) == multiset(d0[i]))
    && Beside(removed, slot, bot)
  }

  /** Every logged removal took bot from a neighbour of slot. */
  predicate Beside(removed: seq<(int, int)>, slot: int, bot: Bot) {
    forall k | 0 <= k < |removed| :: Adjacent(removed[k].0, slot) && removed[k].1 == BotIndex(bot)
  }

  /** Removing bot from one untouched neighbour, and logging it, keeps the accounts. */
  lemma PruneStep(d0: seq<seq<Bot>>, d: seq<seq<Bot>>, slot: int, bot: Bot, n: int, removed: seq<(int, int)>)
    requires Accounted(d0, d, removed, slot, bot)
    requires 0 <= n < NUM_SLOTS && Adjacent(n, slot) && d[n] == d0[n] && bot in d[n]
    requires forall k | 0 <= k < |removed| :: removed[k].0 != n
    ensures Accounted(d0, d[n := RemoveFirst(d[n], bot)], removed + [(n, BotIndex(bot))], slot, bot)
  {
    var removed' := removed + [(n, BotIndex(bot))];
    var d' := d[n := RemoveFirst(d[n], bot)];
    LogStep(removed, slot, bot, n);
    forall i | 0 <= i < NUM_SLOTS
      ensures multiset(d'[i]) + multiset(Restored(removed', i)) == multiset(d0[i])
    {
      SlotAccounted(d0, d, removed, bot, n, i);
    }
  }

  /** Logging a removal of bot from a neighbour keeps the log well formed and beside slot. */
  lemma LogStep(removed: seq<(int, int)>, slot: int, bot: Bot, n: int)
    requires Logged(removed) && Beside(removed, slot, bot) && 0 <= n < NUM_SLOTS && Adjacent(n, slot)
    ensures Logged(removed + [(n, BotIndex(bot))]) && Beside(removed + [(n, BotIndex(bot))], slot, bot)
  {
  }

  /** After the removal from slot n, slot i still adds up to its starting domain. */
  lemma SlotAccounted(d0: seq<seq<Bot>>, d: seq<seq<Bot>>, removed: seq<(int, int)>, bot: Bot, n: int, i: int)
    requires |d0| == NUM_SLOTS && |d| == NUM_SLOTS && Logged(removed) && 0 <= i < NUM_SLOTS
    requires multiset(d[i]) + multiset(Restored(removed, i)) == multiset(d0[i])
    requires 0 <= n < NUM_SLOTS && d[n] == d0[n] && bot in d[n]
    requires forall k | 0 <= k < |removed| :: removed[k].0 != n
    ensures Logged(removed + [(n, BotIndex(bot))])
    ensures multiset(d[n := RemoveFirst(d[n], bot)][i]) + multiset(Restored(removed + [(n, BotIndex(bot))], i)) == multiset(d0[i])
  {
    RestoredStep(removed, bot, n, i);
    if i == n {
      assert multiset(RemoveFirst(d[n], bot)) + multiset{bot} == multiset(d0[i]);
    }
  }

  /** Logging a removal from a slot the log did not name yet gives that slot back exactly bot. */
  lemma RestoredStep(removed: seq<(int, int)>, bot: Bot, n: int, i: int)
    requires Logged(removed) && 0 <= n < NUM_SLOTS
    requires forall k | 0 <= k < |removed| :: removed[k].0 != n
    ensures Logged(removed + [(n, BotIndex(bot))])
    ensures Restored(removed + [(n, BotIndex(bot))], i) == if i == n then [bot] else Restored(removed, i)
  {
    var removed' := removed + [(n, BotIndex(bot))];
    assert removed'[..|removed'| - 1] == removed;
    if i == n {
      RestoredOther(removed, i);
    }
  }

  /** A slot no removal names gets nothing back. */
  lemma {:induction false} RestoredOther(removed: seq<(int, int)>, i: int)
    requires Logged(removed)
    ensures (forall k | 0 <= k < |removed| :: removed[k].0 != i) ==> Restored(removed, i) == []
  {
    if removed != [] && forall k | 0 <= k < |removed| :: removed[k].0 != i {
      RestoredOther(removed[..|removed| - 1], i);
    }
  }

  /**
   * BacktrackingSearch.undoForwardCheck: appends each logged bot back to the
   * end of its slot's domain.
   */
  method UndoForwardCheck(pruned: seq<(int, int)>, domains: array<seq<Bot>>)
    requires domains.Length == NUM_SLOTS && Logged(pruned)
    modifies domains
    ensures forall i | 0 <= i < NUM_SLOTS :: domains[i] == old(domains[i]) + Restored(pruned, i)
  {
    for k := 0 to |pruned|
      invariant forall i | 0 <= i < NUM_SLOTS :: domains[i] == old(domains[i]) + Restored(pruned[..k], i)
    {
      var p := pruned[k];
      assert pruned[..k + 1][..k] == pruned[..k];
      domains[p.0] := domains[p.0] + [BOTS[p.1]];
    }
    assert pruned[..|pruned|] == pruned;
  }

  /**
   * Undoing a forward check after the domains were brought back to the same
   * values as right after it restores the values from before it: each
   * domain then holds the same values as before, possibly in another order.
   */
  lemma UndoRestores(d0: seq<seq<Bot>>, d1: seq<seq<Bot>>, d2: seq<seq<Bot>>, d3: seq<seq<Bot>>,
                     removed: seq<(int, int)>)
    requires Logged(removed) && |d0| == |d1| == |d3| == NUM_SLOTS
    requires forall i | 0 <= i < NUM_SLOTS :: multiset(d1[i]) + multiset(Restored(removed, i)) == multiset(d0[i])
    requires SameValues(d2, d1)
    requires forall i | 0 <= i < NUM_SLOTS :: d3[i] == d2[i] + Restored(removed, i)
    ensures SameValues(d3, d0)
  {
    forall i | 0 <= i < NUM_SLOTS ensures multiset(d3[i]) == multiset(d0[i]) {
      assert multiset(d3[i]) == multiset(d2[i]) + multiset(Restored(removed, i));
    }
  }

  /** The wipe-out path of backtrack: copies the saved domains back into place. */
  method RestoreDomains(domains: array<seq<Bot>>, saved: seq<seq<Bot>>)
    requires |saved| == domains.Length
    modifies domains
    ensures domains[..] == saved
  {
    for i := 0 to domains.Length
      invariant domains[..i] == saved[..i]
    {
      domains[i] := saved[i];
    }
  }

  // ---------------------------------------------------------------------------
  // What a search call establishes

  /**
   * a completes a0 within d0, covers every bot, and keeps No Back-to-Back
   * and Maintenance Break when a0 met them.
   */
  predicate Found(a0: seq<Entry>, d0: seq<seq<Bot>>, a: seq<Entry>) {
    && Extends(a, a0, d0)
    && Covered(a)
    && (NoBackToBack(a0) && MaintenanceBreak(a0) ==> NoBackToBack(a) && MaintenanceBreak(a))
  }

  /** What a search finds from an assignment meeting both checks is a solution. */
  lemma FoundIsSolution(a0: seq<Entry>, d0: seq<seq<Bot>>, a: seq<Entry>)
    requires Found(a0, d0, a) && NoBackToBack(a0) && MaintenanceBreak(a0)
    ensures Solution(a)
  {
  }

  /** No solution completing a within d puts bot in slot. */
  ghost predicate Excludes(a: seq<Entry>, d: seq<seq<Bot>>, slot: int, bot: Bot)
    requires 0 <= slot < NUM_SLOTS
  {
    forall s | Extends(s, a, d) && Solution(s) :: s[slot] != Assigned(bot)
  }

  /** Completions within narrower domains are completions within the wider ones. */
  lemma ExtendsWiden(s: seq<Entry>, a: seq<Entry>, d: seq<seq<Bot>>, d': seq<seq<Bot>>)
    requires Extends(s, a, d) && Narrower(d, d')
    ensures Extends(s, a, d')
  {
    forall i | 0 <= i < NUM_SLOTS && a[i] == Unassigned ensures s[i].bot in d'[i] {
      assert s[i].bot in multiset(d[i]);
    }
  }

  /** Exclusions and absence of solutions carry over between domains holding the same values. */
  lemma ExcludesSameValues(a: seq<Entry>, d: seq<seq<Bot>>, d': seq<seq<Bot>>, slot: int, bot: Bot)
    requires SameValues(d, d') && 0 <= slot < NUM_SLOTS
    ensures Excludes(a, d, slot, bot) ==> Excludes(a, d', slot, bot)
    ensures SizesFit(d) ==> SizesFit(d')
  {
    if Excludes(a, d, slot, bot) {
      forall s | Extends(s, a, d') && Solution(s) ensures s[slot] != Assigned(bot) {
        ExtendsWiden(s, a, d', d);
      }
    }
    forall i | 0 <= i < |d| ensures |d[i]| == |d'[i]| {
      assert |multiset(d[i])| == |multiset(d'[i])|;
    }
  }

  /**
   * A failed try of values[k] leaves the values of the domains as on loop
   * entry, and adds values[k] to the values no solution puts in slot.
   */
  lemma TriedValueExcluded(a: seq<Entry>, d0: seq<seq<Bot>>, dk: seq<seq<Bot>>, d': seq<seq<Bot>>, slot: int,
                           values: seq<Bot>, k: int)
    requires SameValues(dk, d0) && SameValues(d', dk) && 0 <= slot < NUM_SLOTS && 0 <= k < |values|
    requires SizesFit(dk) ==> Excludes(a, dk, slot, values[k])
    requires SizesFit(d0) ==> forall j | 0 <= j < k :: Excludes(a, d0, slot, values[j])
    ensures SameValues(d', d0)
    ensures SizesFit(d0) ==> forall j | 0 <= j < k + 1 :: Excludes(a, d0, slot, values[j])
  {
    ExcludesSameValues(a, d0, dk, slot, values[k]);
    ExcludesSameValues(a, dk, d0, slot, values[k]);
    forall i | 0 <= i < |d'| ensures multiset(d'[i]) == multiset(d0[i]) {
    }
  }

  /** A placement isConsistent rejects is part of no solution. */
  lemma UnplaceableExcluded(a: seq<Entry>, d: seq<seq<Bot>>, slot: int, bot: Bot)
    requires |a| == NUM_SLOTS && 0 <= slot < NUM_SLOTS && !Placeable(a, slot, bot)
    ensures Excludes(a, d, slot, bot)
  {
    forall s: seq<Entry> | Extends(s, a, d) && Solution(s) ensures s[slot] != Assigned(bot) {
      if slot > 0 && a[slot - 1] == Assigned(bot) {
        assert s[slot - 1] == Assigned(bot) && !(s[slot - 1].Assigned? && s[slot - 1] == s[slot]);
      } else if slot < NUM_SLOTS - 1 && a[slot + 1] == Assigned(bot) {
        assert s[slot + 1] == Assigned(bot) && !(s[slot].Assigned? && s[slot] == s[slot + 1]);
      }
    }
  }

  /** With an unassigned slot whose domain is empty there is nothing to complete. */
  lemma EmptyDomainNoSolution(a: seq<Entry>, d: seq<seq<Bot>>, i: int)
    requires 0 <= i < |a| && i < |d| && a[i] == Unassigned && d[i] == []
    ensures NoSolution(a, d)
  {
  }

  /** When canSatisfyCoverage fails there is no solution. */
  lemma InfeasibleNoSolution(a: seq<Entry>, d: seq<seq<Bot>>)
    requires |a| == NUM_SLOTS && |d| == NUM_SLOTS && !CoverageReachable(a, d)
    ensures NoSolution(a, d)
  {
    forall s | Extends(s, a, d) ensures !Solution(s) {
      if Solution(s) {
        CoverageNecessary(s, a, d);
      }
    }
  }

  /** A complete assignment that misses a bot has no solution completing it. */
  lemma UncoveredNoSolution(a: seq<Entry>, d: seq<seq<Bot>>)
    requires Complete(a) && !Covered(a)
    ensures NoSolution(a, d)
  {
    forall s | Extends(s, a, d) ensures !Solution(s) {
      CompleteExtendsOnlyItself(s, a, d);
    }
  }

  /**
   * A solution completing an assignment that holds bot in slot also
   * completes it within the domains forward checking leaves: it differs from
   * bot in the neighbours, so it keeps its values there.
   */
  lemma SolutionSurvivesPruning(s: seq<Entry>, a: seq<Entry>, d: seq<seq<Bot>>, slot: int, bot: Bot, d': seq<seq<Bot>>)
    requires Extends(s, a, d) && NoBackToBack(s)
    requires 0 <= slot < NUM_SLOTS && a[slot] == Assigned(bot)
    requires Narrowed(d, a, slot, bot, d')
    ensures Extends(s, a, d')
  {
    forall i | 0 <= i < NUM_SLOTS && a[i] == Unassigned ensures s[i].bot in d'[i] {
      if d'[i] != d[i] {
        if i == slot - 1 {
          assert !(s[i].Assigned? && s[i] == s[i + 1]);
        } else {
          assert !(s[slot].Assigned? && s[slot] == s[slot + 1]);
        }
        RemoveFirstKeeps(d[i], bot, s[i].bot);
      }
    }
  }

  /** Forward checking loses no solution: if none survives the pruning, there was none. */
  lemma NarrowedNoSolution(a: seq<Entry>, d: seq<seq<Bot>>, slot: int, bot: Bot, d': seq<seq<Bot>>)
    requires 0 <= slot < NUM_SLOTS && |a| == NUM_SLOTS && a[slot] == Assigned(bot)
    requires Narrowed(d, a, slot, bot, d') && NoSolution(a, d')
    ensures NoSolution(a, d)
  {
    forall s | Extends(s, a, d) ensures !Solution(s) {
      if Solution(s) {
        SolutionSurvivesPruning(s, a, d, slot, bot, d');
      }
    }
  }

  /** If nothing completes the assignment with bot placed in slot, no solution puts bot there. */
  lemma PlacedExcludes(a: seq<Entry>, d: seq<seq<Bot>>, slot: int, bot: Bot)
    requires |a| == NUM_SLOTS && 0 <= slot < NUM_SLOTS && a[slot] == Unassigned
    requires NoSolution(a[slot := Assigned(bot)], d)
    ensures Excludes(a, d, slot, bot)
  {
    forall s | Extends(s, a, d) && Solution(s) ensures s[slot] != Assigned(bot) {
      PlacedExtends(s, a, d, slot, bot);
    }
  }

  /** A completion holding bot in slot completes the assignment with bot placed there. */
  lemma PlacedExtends(s: seq<Entry>, a: seq<Entry>, d: seq<seq<Bot>>, slot: int, bot: Bot)
    requires Extends(s, a, d) && 0 <= slot < NUM_SLOTS && a[slot] == Unassigned
    ensures s[slot] == Assigned(bot) ==> Extends(s, a[slot := Assigned(bot)], d)
  {
  }

  /** A solution of a unassigned slot's domain values: excluding every value leaves none. */
  lemma AllValuesExcluded(a: seq<Entry>, d: seq<seq<Bot>>, slot: int, values: seq<Bot>)
    requires |a| == NUM_SLOTS && |d| == NUM_SLOTS && 0 <= slot < NUM_SLOTS
    requires a[slot] == Unassigned && values == d[slot]
    requires forall k | 0 <= k < |values| :: Excludes(a, d, slot, values[k])
    ensures NoSolution(a, d)
  {
    forall s: seq<Entry> | Extends(s, a, d) ensures !Solution(s) {
      var k :| 0 <= k < |values| && values[k] == s[slot].bot;
      assert Excludes(a, d, slot, values[k]);
    }
  }

  /**
   * A completion found after placing an accepted bot, within domains
   * narrowed from d, is a completion of the assignment before the placement.
   */
  lemma PlacedFound(a: seq<Entry>, d: seq<seq<Bot>>, slot: int, bot: Bot, d': seq<seq<Bot>>, s: seq<Entry>)
    requires |a| == NUM_SLOTS && |d| == NUM_SLOTS && 0 <= slot < NUM_SLOTS
    requires a[slot] == Unassigned && bot in d[slot] && Placeable(a, slot, bot)
    requires Narrower(d', d) && Found(a[slot := Assigned(bot)], d', s)
    ensures Found(a, d, s)
  {
    ExtendsWiden(s, a[slot := Assigned(bot)], d', d);
    if NoBackToBack(a) && MaintenanceBreak(a) {
      PlacementKeepsValid(a, slot, bot);
    }
  }

  // ---------------------------------------------------------------------------
  // backtrack

  /**
   * BacktrackingSearch.backtrack with the running totalAssignments counter
   * passed in and out. On success the assignment is a covering completion of
   * the one on entry within the entry domains (a solution when the entry
   * assignment met the checks), and the counter grew by at least one per
   * slot filled. On failure the assignment is as on entry, each domain holds
   * the same values as on entry, and no solution completes the entry
   * assignment within the entry domains.
   */
  method Backtrack(assignment: array<Entry>, domains: array<seq<Bot>>, count: nat) returns (ok: bool, count': nat)
    requires assignment.Length == NUM_SLOTS && domains.Length == NUM_SLOTS
    modifies assignment, domains
    decreases Holes(assignment[..]), 3
    ensures ok ==> Found(old(assignment[..]), old(domains[..]), assignment[..])
    ensures ok ==> count' >= count + Holes(old(assignment[..]))
    ensures !ok ==> assignment[..] == old(assignment[..]) && SameValues(domains[..], old(domains[..]))
    ensures !ok ==> count' >= count
    ensures !ok && SizesFit(old(domains[..])) ==> NoSolution(old(assignment[..]), old(domains[..]))
  {
    ghost var a0, d0 := assignment[..], domains[..];
    count' := count;
    var complete := AllAssigned(assignment);
    if complete {
      ok := CheckMinimumCoverage(assignment);
      HolesComplete(a0);
      if ok {
        assert Extends(a0, a0, d0);
      } else {
        UncoveredNoSolution(a0, d0);
      }
      return;
    }
    var slot := SelectMrv(assignment, domains);
    if slot == -1 {
      return false, count';
    }
    var values := domains[slot];
    for k := 0 to |values|
      invariant assignment[..] == a0
      invariant SameValues(domains[..], d0)
      invariant count' >= count
      invariant SizesFit(d0) ==> forall j | 0 <= j < k :: Excludes(a0, d0, slot, values[j])
    {
      ghost var dk := domains[..];
      assert values[k] in multiset(domains[slot]);
      var found;
      found, count' := TryValue(assignment, domains, slot, values[k], count');
      if found {
        PlacedFound(a0, d0, slot, values[k], dk, assignment[..]);
        return true, count';
      }
      TriedValueExcluded(a0, d0, dk, domains[..], slot, values, k);
    }
    if SizesFit(d0) {
      AllValuesExcluded(a0, d0, slot, values);
    }
    return false, count';
  }

  /**
   * One pass of backtrack's value loop: isConsistent, then (counting the
   * try) the placement and the search below it; on failure the placement is
   * undone.
   */
  method TryValue(assignment: array<Entry>, domains: array<seq<Bot>>, slot: int, bot: Bot, count: nat)
    returns (found: bool, count': nat)
    requires assignment.Length == NUM_SLOTS && domains.Length == NUM_SLOTS
    requires 0 <= slot < NUM_SLOTS && assignment[slot] == Unassigned && bot in domains[slot]
    modifies assignment, domains
    decreases Holes(assignment[..]), 2
    ensures found ==> Found(old(assignment[..])[slot := Assigned(bot)], old(domains[..]), assignment[..])
    ensures found ==> Placeable(old(assignment[..]), slot, bot) && count' >= count + Holes(old(assignment[..]))
    ensures !found ==> assignment[..] == old(assignment[..]) && SameValues(domains[..], old(domains[..]))
    ensures !found ==> count' >= count
    ensures !found && SizesFit(old(domains[..])) ==> Excludes(old(assignment[..]), old(domains[..]), slot, bot)
  {
    ghost var a0, d0 := assignment[..], domains[..];
    count' := count;
    found := false;
    var consistent := IsConsistent(assignment, slot, bot);
    assert assignment[..] == a0;
    if !consistent {
      UnplaceableExcluded(a0, d0, slot, bot);
      return;
    }
    count' := count' + 1;
    assignment[slot] := Assigned(bot);
    ghost var a1 := assignment[..];
    assert a1 == a0[slot := Assigned(bot)];
    FillHole(a0, slot, bot);
    found, count' := SearchPlaced(assignment, domains, slot, bot, count');
    if !found {
      assignment[slot] := Unassigned;
      assert assignment[..] == a1[slot := Unassigned] == a0;
      if SizesFit(d0) {
        PlacedExcludes(a0, d0, slot, bot);
      }
    }
  }

  /**
   * The rest of the pass once bot sits in slot: forwardCheck, then on
   * success canSatisfyCoverage and the recursive backtrack, undoing the
   * pruning when they fail; after a wipe-out the saved domains come back.
   * On failure the domains hold their entry values again and no solution
   * completes the assignment within them.
   */
  method SearchPlaced(assignment: array<Entry>, domains: array<seq<Bot>>, slot: int, bot: Bot, count: nat)
    returns (found: bool, count': nat)
    requires assignment.Length == NUM_SLOTS && domains.Length == NUM_SLOTS
    requires 0 <= slot < NUM_SLOTS && assignment[slot] == Assigned(bot)
    modifies assignment, domains
    decreases Holes(assignment[..]) + 1, 1
    ensures found ==> Found(old(assignment[..]), old(domains[..]), assignment[..]) && count' >= count + Holes(old(assignment[..]))
    ensures !found ==> assignment[..] == old(assignment[..]) && SameValues(domains[..], old(domains[..])) && count' >= count
    ensures !found && SizesFit(old(domains[..])) ==> NoSolution(old(assignment[..]), old(domains[..]))
  {
    ghost var a1, d0 := assignment[..], domains[..];
    count' := count;
    found := false;
    var saved := domains[..];
    var result := ForwardCheck(assignment, domains, slot, bot);
    ghost var d1 := domains[..];
    ForwardCheckNarrows(d0, a1, slot, bot, result, d1);
    NarrowedIsNarrower(d0, a1, slot, bot, d1);
    if result.Pruned? {
      ForwardCheckLogged(d0, a1, slot, bot, result, d1);
      found, count' := SearchPruned(assignment, domains, result.removed, d0, count');
      if found {
        ExtendsWiden(assignment[..], a1, d1, d0);
        return;
      }
    } else {
      ForwardCheckWipeout(d0, a1, slot, bot, result, d1);
      ghost var i :| 0 <= i < NUM_SLOTS && Adjacent(i, slot) && a1[i] == Unassigned && bot in d0[i] && d1[i] == [];
      EmptyDomainNoSolution(a1, d1, i);
      RestoreDomains(domains, saved);
    }
    if SizesFit(d0) {
      NarrowedNoSolution(a1, d0, slot, bot, d1);
    }
  }

  /**
   * The rest of backtrack after a forward check that pruned: the coverage
   * test and the recursive search on the narrowed domains, then the undo of
   * the logged removals when they fail. d0 is the domains before the forward
   * check, which the log accounts for; on failure they hold those values again.
   */
  method SearchPruned(assignment: array<Entry>, domains: array<seq<Bot>>, removed: seq<(int, int)>,
                      ghost d0: seq<seq<Bot>>, count: nat)
    returns (found: bool, count': nat)
    requires assignment.Length == NUM_SLOTS && domains.Length == NUM_SLOTS && |d0| == NUM_SLOTS && Logged(removed)
    requires forall i | 0 <= i < NUM_SLOTS :: multiset(domains[i]) + multiset(Restored(removed, i)) == multiset(d0[i])
    modifies assignment, domains
    decreases Holes(assignment[..]) + 1, 0
    ensures found ==> Found(old(assignment[..]), old(domains[..]), assignment[..]) && count' >= count + Holes(old(assignment[..]))
    ensures !found ==> assignment[..] == old(assignment[..]) && SameValues(domains[..], d0) && count' >= count
    ensures !found && SizesFit(old(domains[..])) ==> NoSolution(old(assignment[..]), old(domains[..]))
  {
    ghost var d1 := domains[..];
    found, count' := false, count;
    var feasible := CanSatisfyCoverage(assignment, domains);
    if feasible {
      found, count' := Backtrack(assignment, domains, count');
      if found {
        return;
      }
    } else {
      InfeasibleNoSolution(assignment[..], d1);
    }
    ghost var d2 := domains[..];
    UndoForwardCheck(removed, domains);
    UndoRestores(d0, d1, d2, domains[..], removed);
  }

  /**
   * BacktrackingSearch.main without its printing: from the initial domains
   * and an empty assignment, backtrack succeeds with a solution.
   */
  method Schedule() returns (success: bool, assignment: array<Entry>, totalAssignments: nat)
    ensures success && Solution(assignment[..])
  {
    var domains := InitDomains();
    assignment := new Entry[NUM_SLOTS](_ => Unassigned);
    ghost var a0 := assignment[..];
    assert a0 == EmptyAssignment();
    success, totalAssignments := Backtrack(assignment, domains, 0);
    EmptyValid();
    DemoSolvesInitial();
    if success {
      FoundIsSolution(a0, INITIAL_DOMAINS, assignment[..]);
    }
  }

  /** The schedule {A, B, C, A} completes the empty assignment within the initial domains. */
  lemma DemoSolvesInitial()
    ensures !NoSolution(EmptyAssignment(), INITIAL_DOMAINS)
    ensures SizesFit(INITIAL_DOMAINS)
  {
    var s := [Assigned(A), Assigned(B), Assigned(C), Assigned(A)];
    DemoScheduleIsSolution();
    assert Extends(s, EmptyAssignment(), INITIAL_DOMAINS);
    InitialDomainsShape();
    forall i | 0 <= i < |INITIAL_DOMAINS| ensures |INITIAL_DOMAINS[i]| < INT_MAX {
      assert |INITIAL_DOMAINS[i]| <= |BOTS|;
    }
  }

  /** Pruning the left neighbour keeps the accounts. */
  lemma PruneLeftAccounted(d: seq<seq<Bot>>, a: seq<Entry>, slot: int, bot: Bot)
    requires |d| == NUM_SLOTS && |a| == NUM_SLOTS && 0 <= slot < NUM_SLOTS
    ensures Accounted(d, PruneAt(d, a, slot - 1, bot), PruneLog(d, a, slot - 1, bot), slot, bot)
  {
      var log1 := PruneLog(d, a, slot - 1, bot);
      AccountedStart(d, slot, bot);
      PruneAtAccounted(d, d, [], a, slot, bot, slot - 1);
      assert [] + log1 == log1;
  }
}
