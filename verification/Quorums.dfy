/** The quorum of the BFT consensus. */
module Quorums {
  datatype ConsensusType = Rbft | Solo | SoloDev | Other

  function Faulty(n: int): int {
    if n < 1 then 0 else (n - 1) / 3
  }

  function GetQuorum(consensus: ConsensusType, n: int): int
    requires n >= 0
  {
    if consensus.Rbft? then (n + Faulty(n) + 2) / 2 else 0
  }

  ghost function Nodes(lo: int, hi: int): (s: set<int>)
    requires lo <= hi
    ensures |s| == hi - lo && forall x :: x in s <==> lo <= x < hi
    decreases hi - lo
  {
    if lo == hi then {} else Nodes(lo, hi - 1) + {hi - 1}
  }

  lemma SubsetSize(a: set<int>, b: set<int>)
    requires a <= b
    ensures |a| <= |b|
  {
    assert b == a + (b - a);
  }

  /** Sets of nodes overlap by at least what their sizes exceed the total. */
  lemma Overlap(nodes: set<int>, a: set<int>, b: set<int>)
    requires a <= nodes && b <= nodes
    ensures |a * b| >= |a| + |b| - |nodes|
  {
    assert |a + b| == |a| + |b| - |a * b|;
    SubsetSize(a + b, nodes);
  }

  /** f is the largest number of faulty nodes that a third of the others outnumber. */
  lemma FaultyIsLargest(n: int)
    requires n >= 1
    ensures Faulty(n) >= 0 && 3 * Faulty(n) + 1 <= n < 3 * (Faulty(n) + 1) + 1
  {
  }

  /** Any two quorums share more than f nodes, and n - f nodes are enough for one, for every f with
      3f + 1 <= n. */
  lemma QuorumsIntersect(n: int, f: nat, a: set<int>, b: set<int>)
    requires 3 * f + 1 <= n && a <= Nodes(0, n) && b <= Nodes(0, n)
    requires |a| >= GetQuorum(Rbft, n) && |b| >= GetQuorum(Rbft, n)
    ensures |a * b| >= f + 1
    ensures 1 <= GetQuorum(Rbft, n) <= n - f
  {
    FaultyIsLargest(n);
    Overlap(Nodes(0, n), a, b);
  }

  /** Whichever nodes are faulty, if fewer than a third, two quorums share a correct one. */
  lemma SharedCorrectNode(n: int, a: set<int>, b: set<int>, faulty: set<int>)
    requires 3 * |faulty| + 1 <= n && a <= Nodes(0, n) && b <= Nodes(0, n)
    requires |a| >= GetQuorum(Rbft, n) && |b| >= GetQuorum(Rbft, n)
    ensures exists x :: x in a && x in b && x !in faulty
  {
    QuorumsIntersect(n, |faulty|, a, b);
    if a * b <= faulty {
      SubsetSize(a * b, faulty);
    }
    assert !(a * b <= faulty);
    var x :| x in a * b && x !in faulty;
  }

  /** The quorum is the least size that works: from it on, and only from it on, the nodes any two sets of
      that size share are too many to be all faulty. */
  lemma QuorumIsLeast(n: int, q: int)
    requires n >= 1 && 0 <= q <= n
    ensures q >= GetQuorum(Rbft, n) <==>
            forall a: set<int>, b: set<int> :: a <= Nodes(0, n) && b <= Nodes(0, n) && |a| >= q && |b| >= q ==>
                3 * |a * b| + 1 > n
  {
    FaultyIsLargest(n);
    if q >= GetQuorum(Rbft, n) {
      forall a: set<int>, b: set<int> | a <= Nodes(0, n) && b <= Nodes(0, n) && |a| >= q && |b| >= q
        ensures 3 * |a * b| + 1 > n
      {
        QuorumsIntersect(n, Faulty(n), a, b);
      }
    } else {
      var a, b := Nodes(0, q), Nodes(n - q, n);
      if n - q <= q {
        assert a * b == Nodes(n - q, q);
      } else {
        assert a * b == {};
      }
      assert |a * b| <= Faulty(n);
      assert a <= Nodes(0, n) && b <= Nodes(0, n) && |a| >= q && |b| >= q;
    }
  }

  /** Four nodes tolerate one faulty with quorums of three, seven tolerate two with five. */
  lemma SmallQuorums()
    ensures GetQuorum(Rbft, 0) == 1 == GetQuorum(Rbft, 1) && GetQuorum(Rbft, 4) == 3 && GetQuorum(Rbft, 7) == 5
    ensures forall c: ConsensusType, n: nat :: !c.Rbft? ==> GetQuorum(c, n) == 0
  {
  }
}
