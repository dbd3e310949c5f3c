/**
 * The frontier operations shared by the searches: filtering the neighbours
 * not yet visited, and taking an entry of least priority off a queue
 * (java.util.PriorityQueue.poll, which returns some entry of least key).
 */
module Frontier {
  import opened PuzzleState

  /** The states of ns not yet visited, in order (the ones the expansion loop pushes). */
  function Unvisited(ns: seq<Config>, visited: set<Config>): seq<Config> {
    if ns == [] then []
    else Unvisited(ns[..|ns| - 1], visited)
         + (if ns[|ns| - 1] in visited then [] else [ns[|ns| - 1]])
  }

  /** Unvisited keeps exactly the members of ns outside visited, and no more of them. */
  lemma {:induction false} UnvisitedMembers(ns: seq<Config>, visited: set<Config>)
    ensures |Unvisited(ns, visited)| <= |ns|
    ensures forall k :: k in Unvisited(ns, visited) <==> k in ns && k !in visited
  {
    if ns != [] {
      var init, last := ns[..|ns| - 1], ns[|ns| - 1];
      UnvisitedMembers(init, visited);
      assert ns == init + [last];
    }
  }

  /** Filtering one more state of ns appends it exactly when it is unvisited. */
  lemma UnvisitedNext(ns: seq<Config>, i: int, visited: set<Config>)
    requires 0 <= i < |ns|
    ensures Unvisited(ns[..i + 1], visited)
            == Unvisited(ns[..i], visited) + (if ns[i] in visited then [] else [ns[i]])
    ensures ns[i] in visited ==> Unvisited(ns[..i + 1], visited) == Unvisited(ns[..i], visited)
    ensures ns[i] !in visited ==> Unvisited(ns[..i + 1], visited) == Unvisited(ns[..i], visited) + [ns[i]]
  {
    assert ns[..i + 1][..i] == ns[..i];
    assert Unvisited(ns[..i], visited) + [] == Unvisited(ns[..i], visited);
  }

  /** Index i holds an entry of least key. */
  predicate LeastAt(keys: seq<int>, i: int) {
    0 <= i < |keys| && forall j | 0 <= j < |keys| :: keys[i] <= keys[j]
  }

  /** A non-empty queue has an entry of least key. */
  lemma {:induction false} LeastExists(keys: seq<int>)
    requires keys != []
    ensures exists i :: LeastAt(keys, i)
  {
    if |keys| == 1 {
      assert LeastAt(keys, 0);
    } else {
      var rest := keys[..|keys| - 1];
      LeastExists(rest);
      var i :| LeastAt(rest, i);
      if keys[|keys| - 1] < rest[i] {
        assert LeastAt(keys, |keys| - 1);
      } else {
        assert LeastAt(keys, i);
      }
    }
  }

  /** s without its entry at index i. */
  function RemoveAt<T>(s: seq<T>, i: int): (r: seq<T>)
    requires 0 <= i < |s|
    ensures |r| == |s| - 1
    ensures forall j | 0 <= j < i :: r[j] == s[j]
    ensures forall j | i <= j < |r| :: r[j] == s[j + 1]
  {
    s[..i] + s[i + 1..]
  }

  /** Removing the entry at i keeps every other value in the sequence. */
  lemma RemoveAtKeeps<T>(s: seq<T>, i: int, k: T)
    requires 0 <= i < |s| && k in s && k != s[i]
    ensures k in RemoveAt(s, i)
  {
    var j :| 0 <= j < |s| && s[j] == k;
    if j < i {
      assert RemoveAt(s, i)[j] == k;
    } else {
      assert RemoveAt(s, i)[j - 1] == k;
    }
  }
}
