/**
 * The security-bot scheduling problem shared by the CSP solvers: four shift
 * slots, three bots, and three constraints. No Back-to-Back: adjacent slots
 * hold different bots. Maintenance Break: bot C never works slot 4. Minimum
 * Coverage: every bot works at least once.
 */
module CspFramework {

  /** The bots "A", "B" and "C"; no other string ever enters a domain or an assignment. */
  datatype Bot = A | B | C

  /** One cell of the assignment array; Unassigned stands for Java's null. */
  datatype Entry = Unassigned | Assigned(bot: Bot)

  const BOTS: seq<Bot> := [A, B, C]
  const NUM_SLOTS: int := 4

  /** The domains initDomains builds: every bot for slots 1-3, every bot but C for slot 4. */
  const INITIAL_DOMAINS: seq<seq<Bot>> := [[A, B, C], [A, B, C], [A, B, C], [A, B]]

  // ---------------------------------------------------------------------------
  // The constraints, as predicates on the assignment's contents

  /** No two adjacent slots hold the same bot. */
  predicate NoBackToBack(a: seq<Entry>) {
    forall i | 0 <= i < |a| - 1 :: !(a[i].Assigned? && a[i] == a[i + 1])
  }

  /** Slot 4 (index 3) does not hold bot C. */
  predicate MaintenanceBreak(a: seq<Entry>)
    requires |a| > 3
  {
    a[3] == Unassigned || a[3].bot != C
  }

  /** Every bot occurs among the assigned entries. */
  predicate Covered(a: seq<Entry>) {
    forall b: Bot :: Assigned(b) in a
  }

  /** Every slot holds a bot. */
  predicate Complete(a: seq<Entry>) {
    forall i | 0 <= i < |a| :: a[i].Assigned?
  }

  /** A complete schedule meeting all three constraints. */
  predicate Solution(s: seq<Entry>) {
    |s| == NUM_SLOTS && Complete(s) && NoBackToBack(s) && MaintenanceBreak(s) && Covered(s)
  }

  /**
   * s completes the partial assignment a within the domains d: it keeps
   * every assigned entry and gives each unassigned slot a value of its domain.
   */
  predicate Extends(s: seq<Entry>, a: seq<Entry>, d: seq<seq<Bot>>) {
    && |s| == NUM_SLOTS && |a| == NUM_SLOTS && |d| == NUM_SLOTS
    && forall i | 0 <= i < NUM_SLOTS ::
         s[i].Assigned? && (if a[i].Assigned? then s[i] == a[i] else s[i].bot in d[i])
  }

  /** No completion of a within d is a solution. */
  ghost predicate NoSolution(a: seq<Entry>, d: seq<seq<Bot>>) {
    forall s | Extends(s, a, d) :: !Solution(s)
  }

  /** BOTS lists every bot. */
  lemma EveryBotListed()
    ensures forall b: Bot :: b in BOTS
  {
    forall b: Bot ensures b in BOTS {
      match b
      case A => assert BOTS[0] == b;
      case B => assert BOTS[1] == b;
      case C => assert BOTS[2] == b;
    }
  }

  // ---------------------------------------------------------------------------
  // initDomains

  /** List.remove(Object): drops the first occurrence of x, if there is one. */
  function RemoveFirst(s: seq<Bot>, x: Bot): (r: seq<Bot>)
    ensures x in s ==> multiset(r) + multiset{x} == multiset(s) && |r| == |s| - 1
    ensures x !in s ==> r == s
  {
    if s == [] then []
    else if s[0] == x then
      assert s == [s[0]] + s[1..];
      s[1..]
    else
      assert s == [s[0]] + s[1..];
      [s[0]] + RemoveFirst(s[1..], x)
  }

  /** A value other than x survives the removal of x. */
  lemma RemoveFirstKeeps(s: seq<Bot>, x: Bot, y: Bot)
    requires y in s && y != x
    ensures y in RemoveFirst(s, x)
  {
    if x in s {
      assert y in multiset(s);
    }
  }

  /**
   * CSPFramework.initDomains: one list of all bots per slot, with C removed
   * from the list of slot 4 (the unary Maintenance Break constraint).
   */
  method InitDomains() returns (domains: array<seq<Bot>>)
    ensures fresh(domains) && domains[..] == INITIAL_DOMAINS
  {
    domains := new seq<Bot>[NUM_SLOTS];
    for i := 0 to NUM_SLOTS
      invariant forall k | 0 <= k < i :: domains[k] == INITIAL_DOMAINS[k]
    {
      var domain := BOTS;
      if i == 3 {
        domain := RemoveFirst(domain, C);
        BotsWithoutC();
      }
      domains[i] := domain;
    }
  }

  /** Taking C out of the list of all bots leaves A and B, in order. */
  lemma BotsWithoutC()
    ensures RemoveFirst(BOTS, C) == [A, B]
  {
    assert BOTS[1..][1..] == [C];
  }

  /** Every initial domain holds at least two bots, and only slot 4 lacks C. */
  lemma InitialDomainsShape()
    ensures |INITIAL_DOMAINS| == NUM_SLOTS
    ensures forall i | 0 <= i < NUM_SLOTS :: A in INITIAL_DOMAINS[i] && B in INITIAL_DOMAINS[i]
    ensures forall i | 0 <= i < NUM_SLOTS :: C in INITIAL_DOMAINS[i] <==> i != 3
  {
  }

  // ---------------------------------------------------------------------------
  // The three checks

  /** CSPFramework.checkNoBackToBack: scans the adjacent pairs for two equal bots. */
  method CheckNoBackToBack(assignment: array<Entry>) returns (ok: bool)
    ensures ok <==> NoBackToBack(assignment[..])
  {
    var i := 0;
    while i < assignment.Length - 1
      invariant 0 <= i && (i == 0 || i <= assignment.Length - 1)
      invariant forall k | 0 <= k < i :: !(assignment[k].Assigned? && assignment[k] == assignment[k + 1])
    {
      if assignment[i] != Unassigned && assignment[i + 1] != Unassigned && assignment[i] == assignment[i + 1] {
        return false;
      }
      i := i + 1;
    }
    return true;
  }

  /** CSPFramework.checkMaintenanceBreak on a four-slot assignment. */
  function CheckMaintenanceBreak(assignment: seq<Entry>): (ok: bool)
    requires |assignment| == NUM_SLOTS
    ensures ok <==> forall i | 0 <= i < NUM_SLOTS && assignment[i] == Assigned(C) :: i != 3
  {
    MaintenanceBreak(assignment)
  }

  /**
   * CSPFramework.checkMinimumCoverage: collects the assigned bots in a set
   * and asks whether it contains every bot.
   */
  method CheckMinimumCoverage(assignment: array<Entry>) returns (ok: bool)
    ensures ok <==> Covered(assignment[..])
  {
    var used: set<Bot> := {};
    for i := 0 to assignment.Length
      invariant forall b :: b in used <==> Assigned(b) in assignment[..i]
    {
      if assignment[i] != Unassigned {
        used := used + {assignment[i].bot};
      }
      assert assignment[..i + 1] == assignment[..i] + [assignment[i]];
    }
    assert assignment[..assignment.Length] == assignment[..];
    ok := forall b | b in BOTS :: b in used;
    EveryBotListed();
  }

  // ---------------------------------------------------------------------------
  // isConsistent

  /** bot differs from each assigned neighbour of slot, and is not C in slot 4. */
  predicate Placeable(a: seq<Entry>, slot: int, bot: Bot)
    requires |a| == NUM_SLOTS && 0 <= slot < NUM_SLOTS
  {
    && (slot > 0 ==> a[slot - 1] != Assigned(bot))
    && (slot < NUM_SLOTS - 1 ==> a[slot + 1] != Assigned(bot))
    && !(slot == 3 && bot == C)
  }

  /**
   * CSPFramework.isConsistent: writes bot into slot, compares it with the
   * neighbours and the maintenance rule, and on every path writes null back.
   */
  method IsConsistent(assignment: array<Entry>, slot: int, bot: Bot) returns (ok: bool)
    requires assignment.Length == NUM_SLOTS && 0 <= slot < NUM_SLOTS
    modifies assignment
    ensures assignment[..] == old(assignment[..])[slot := Unassigned]
    ensures ok <==> Placeable(old(assignment[..]), slot, bot)
  {
    assignment[slot] := Assigned(bot);
    if slot > 0 && assignment[slot - 1] != Unassigned && assignment[slot - 1] == Assigned(bot) {
      assignment[slot] := Unassigned;
      return false;
    }
    if slot < NUM_SLOTS - 1 && assignment[slot + 1] != Unassigned && assignment[slot + 1] == Assigned(bot) {
      assignment[slot] := Unassigned;
      return false;
    }
    if slot == 3 && bot == C {
      assignment[slot] := Unassigned;
      return false;
    }
    assignment[slot] := Unassigned;
    return true;
  }

  /**
   * On an assignment that meets No Back-to-Back and Maintenance Break,
   * isConsistent accepts a placement exactly when the assignment with the
   * placement still meets both.
   */
  lemma PlacementKeepsValid(a: seq<Entry>, slot: int, bot: Bot)
    requires |a| == NUM_SLOTS && 0 <= slot < NUM_SLOTS
    requires NoBackToBack(a) && MaintenanceBreak(a)
    ensures Placeable(a, slot, bot) <==>
              NoBackToBack(a[slot := Assigned(bot)]) && MaintenanceBreak(a[slot := Assigned(bot)])
  {
    var a' := a[slot := Assigned(bot)];
    if Placeable(a, slot, bot) {
      forall i | 0 <= i < |a'| - 1 ensures !(a'[i].Assigned? && a'[i] == a'[i + 1]) {
        if i != slot && i + 1 != slot {
          assert a'[i] == a[i] && a'[i + 1] == a[i + 1];
        }
      }
    } else if slot > 0 && a[slot - 1] == Assigned(bot) {
      assert a'[slot - 1] == a'[slot];
    } else if slot < NUM_SLOTS - 1 && a[slot + 1] == Assigned(bot) {
      assert a'[slot] == a'[slot + 1];
    }
  }

  /** The entries of a after placing each (slot, bot) of steps in order. */
  function PlaceAll(a: seq<Entry>, steps: seq<(int, Bot)>): (r: seq<Entry>)
    requires forall k | 0 <= k < |steps| :: 0 <= steps[k].0 < |a|
    ensures |r| == |a|
    decreases |steps|
  {
    if steps == [] then a
    else PlaceAll(a[steps[0].0 := Assigned(steps[0].1)], steps[1..])
  }

  /** Each placement of steps was accepted by isConsistent at the moment it was made. */
  predicate AcceptedInOrder(a: seq<Entry>, steps: seq<(int, Bot)>)
    requires |a| == NUM_SLOTS
    decreases |steps|
  {
    steps == [] ||
      (0 <= steps[0].0 < NUM_SLOTS && Placeable(a, steps[0].0, steps[0].1)
       && AcceptedInOrder(a[steps[0].0 := Assigned(steps[0].1)], steps[1..]))
  }

  /**
   * An assignment built, from one meeting both checks, only by placements
   * isConsistent accepted meets No Back-to-Back and Maintenance Break.
   */
  lemma {:induction false} AcceptedPlacementsValid(a: seq<Entry>, steps: seq<(int, Bot)>)
    requires |a| == NUM_SLOTS && NoBackToBack(a) && MaintenanceBreak(a)
    requires AcceptedInOrder(a, steps)
    ensures forall k | 0 <= k < |steps| :: 0 <= steps[k].0 < NUM_SLOTS
    ensures NoBackToBack(PlaceAll(a, steps)) && MaintenanceBreak(PlaceAll(a, steps))
    decreases |steps|
  {
    if steps != [] {
      var a' := a[steps[0].0 := Assigned(steps[0].1)];
      PlacementKeepsValid(a, steps[0].0, steps[0].1);
      AcceptedPlacementsValid(a', steps[1..]);
      assert forall k | 1 <= k < |steps| :: steps[k] == steps[1..][k - 1];
    }
  }

  /** The empty assignment meets No Back-to-Back and Maintenance Break. */
  lemma EmptyValid()
    ensures NoBackToBack(EmptyAssignment()) && MaintenanceBreak(EmptyAssignment())
  {
  }

  function EmptyAssignment(): (a: seq<Entry>)
    ensures |a| == NUM_SLOTS && forall i | 0 <= i < NUM_SLOTS :: a[i] == Unassigned
  {
    [Unassigned, Unassigned, Unassigned, Unassigned]
  }

  /** The schedule {A, B, C, A} meets all three constraints. */
  lemma DemoScheduleIsSolution()
    ensures Solution([Assigned(A), Assigned(B), Assigned(C), Assigned(A)])
  {
    var s := [Assigned(A), Assigned(B), Assigned(C), Assigned(A)];
    forall b: Bot ensures Assigned(b) in s {
      if b == A { assert s[0] == Assigned(b); }
      else if b == B { assert s[1] == Assigned(b); }
      else { assert s[2] == Assigned(b); }
    }
  }

  // ---------------------------------------------------------------------------
  // canSatisfyCoverage

  /** Every bot is assigned somewhere or is still in the domain of some unassigned slot. */
  predicate CoverageReachable(a: seq<Entry>, d: seq<seq<Bot>>)
    requires |a| == NUM_SLOTS && |d| == NUM_SLOTS
  {
    forall b: Bot :: Assigned(b) in a || exists i | 0 <= i < NUM_SLOTS :: a[i] == Unassigned && b in d[i]
  }

  /**
   * CSPFramework.canSatisfyCoverage: collects the assigned bots, then looks
   * for an unassigned slot able to take each missing one. It reads both
   * arrays and writes neither. (It also counts the unassigned slots, a count
   * it never reads; the model leaves it out.)
   */
  method CanSatisfyCoverage(assignment: array<Entry>, domains: array<seq<Bot>>) returns (ok: bool)
    requires assignment.Length == NUM_SLOTS && domains.Length == NUM_SLOTS
    ensures ok <==> CoverageReachable(assignment[..], domains[..])
  {
    var taken: set<Bot> := {};
    for i := 0 to NUM_SLOTS
      invariant forall b :: b in taken <==> Assigned(b) in assignment[..i]
    {
      if assignment[i] != Unassigned {
        taken := taken + {assignment[i].bot};
      }
      assert assignment[..i + 1] == assignment[..i] + [assignment[i]];
    }
    assert assignment[..NUM_SLOTS] == assignment[..];
    for k := 0 to |BOTS|
      invariant forall b | b in BOTS[..k] ::
                  Assigned(b) in assignment[..] || exists i | 0 <= i < NUM_SLOTS :: assignment[i] == Unassigned && b in domains[i]
    {
      var bot := BOTS[k];
      if bot !in taken {
        var canPlace := false;
        var i := 0;
        while i < NUM_SLOTS
          invariant 0 <= i <= NUM_SLOTS
          invariant forall j | 0 <= j < i :: !(assignment[j] == Unassigned && bot in domains[j])
        {
          if assignment[i] == Unassigned && bot in domains[i] {
            canPlace := true;
            break;
          }
          i := i + 1;
        }
        if !canPlace {
          return false;
        }
      }
      assert BOTS[..k + 1] == BOTS[..k] + [bot];
    }
    assert BOTS[..3] == BOTS;
    EveryBotListed();
    return true;
  }

  /**
   * The coverage test never discards a solution: if a solution completes a
   * within d, canSatisfyCoverage holds of a and d.
   */
  lemma CoverageNecessary(s: seq<Entry>, a: seq<Entry>, d: seq<seq<Bot>>)
    requires Extends(s, a, d) && Covered(s)
    ensures CoverageReachable(a, d)
  {
    forall b: Bot ensures Assigned(b) in a || exists i | 0 <= i < NUM_SLOTS :: a[i] == Unassigned && b in d[i] {
      var i :| 0 <= i < |s| && s[i] == Assigned(b);
      if a[i] == Unassigned {
        assert b in d[i];
      } else {
        assert a[i] == s[i];
      }
    }
  }

  /** The only completion of a complete assignment is the assignment itself. */
  lemma CompleteExtendsOnlyItself(s: seq<Entry>, a: seq<Entry>, d: seq<seq<Bot>>)
    requires Extends(s, a, d) && Complete(a)
    ensures s == a
  {
    assert forall i | 0 <= i < NUM_SLOTS :: s[i] == a[i];
  }
}
