/**
 * The state space of the 8-puzzle is finite: every configuration is one of
 * the nine-letter words over the alphabet 0..8. The searches use this finite
 * universe as their termination measure (each one marks states as seen and
 * never un-marks them).
 */
module ConfigSpace {
  import opened PuzzleState

  /** All words of length n over the tile alphabet 0..8. */
  ghost function Words(n: nat): (ws: set<seq<int>>)
    ensures forall w :: w in ws ==> |w| == n
  {
    if n == 0 then {[]}
    else set w, d | w in Words(n - 1) && 0 <= d < 9 :: w + [d]
  }

  lemma {:induction false} InWords(w: seq<int>)
    requires forall i :: 0 <= i < |w| ==> 0 <= w[i] < 9
    ensures w in Words(|w|)
  {
    if w != [] {
      var p, d := w[..|w| - 1], w[|w| - 1];
      InWords(p);
      assert w == p + [d];
    }
  }

  /** Every configuration of the puzzle. */
  ghost function AllConfigs(): set<Config> {
    set w: Config | w in Words(9)
  }

  lemma InAllConfigs(c: Config)
    ensures c in AllConfigs()
  {
    InWords(c);
  }

  /** AllConfigs holds every configuration. */
  lemma Complete()
    ensures forall c: Config :: c in AllConfigs()
  {
    forall c: Config ensures c in AllConfigs() {
      InAllConfigs(c);
    }
  }

  /**
   * A finite set holding every configuration. Loops measure their progress
   * by the part of it they have not yet seen.
   */
  lemma Universe() returns (u: set<Config>)
    ensures forall c: Config :: c in u
  {
    u := AllConfigs();
    forall c: Config ensures c in u {
      InAllConfigs(c);
    }
  }

  /** 9 to the power n. */
  function Pow9(n: nat): nat {
    if n == 0 then 1 else 9 * Pow9(n - 1)
  }

  /** The words of ws, each extended by the letter d. */
  ghost function Extended(ws: set<seq<int>>, d: int): set<seq<int>> {
    set w | w in ws :: w + [d]
  }

  /** The words of ws, each extended by each letter below k. */
  ghost function Spread(ws: set<seq<int>>, k: nat): set<seq<int>> {
    set w, d | w in ws && 0 <= d < k :: w + [d]
  }

  lemma {:induction false} ExtendedSize(ws: set<seq<int>>, d: int)
    ensures |Extended(ws, d)| <= |ws|
    decreases |ws|
  {
    if ws != {} {
      var x :| x in ws;
      ExtendedSize(ws - {x}, d);
      assert Extended(ws, d) == Extended(ws - {x}, d) + {x + [d]};
    }
  }

  lemma SpreadStep(ws: set<seq<int>>, k: nat)
    ensures Spread(ws, k + 1) == Spread(ws, k) + Extended(ws, k)
  {
    forall v | v in Spread(ws, k + 1) ensures v in Spread(ws, k) + Extended(ws, k) {
      var w, d :| w in ws && 0 <= d < k + 1 && v == w + [d];
      if d < k {
        assert v in Spread(ws, k);
      } else {
        assert v in Extended(ws, k);
      }
    }
  }

  lemma {:induction false} SpreadSize(ws: set<seq<int>>, k: nat)
    ensures |Spread(ws, k)| <= k * |ws|
  {
    if k > 0 {
      SpreadSize(ws, k - 1);
      ExtendedSize(ws, k - 1);
      SpreadStep(ws, k - 1);
      var a, b := Spread(ws, k - 1), Extended(ws, k - 1);
      assert |a + b| <= |a| + |b|;
      assert (k - 1) * |ws| + |ws| == k * |ws|;
    }
  }

  /** There are at most 9^n words of length n. */
  lemma {:induction false} WordsSize(n: nat)
    ensures |Words(n)| <= Pow9(n)
  {
    if n > 0 {
      WordsSize(n - 1);
      SpreadSize(Words(n - 1), 9);
      assert Words(n) == Spread(Words(n - 1), 9);
    }
  }

  /** An upper bound on the number of configurations: 9^9, the number of nine-letter words over 0..8. */
  const WORDS: nat := 387420489

  /** There are at most WORDS configurations: every count over them fits a Java int. */
  lemma UniverseSize(u: set<Config>)
    ensures |u| <= WORDS
  {
    var ws: set<seq<int>> := Words(9);
    var us: set<seq<int>> := u;
    forall c | c in us ensures c in ws {
      InAllConfigs(c);
    }
    assert ws == us + (ws - us);
    WordsSize(9);
  }

  /** A set of configurations is no larger than the universe. */
  lemma Within(s: set<Config>, u: set<Config>)
    requires forall c: Config :: c in u
    ensures |s| <= |u|
  {
    assert u == s + (u - s);
    assert s !! (u - s);
  }

  /** A map keyed by configurations has at most as many entries as the universe. */
  lemma KeysWithin<T>(m: map<Config, T>, u: set<Config>)
    requires forall c: Config :: c in u
    ensures |m| <= |u|
  {
    Within(m.Keys, u);
  }
}
