/** Turning the list of communities a detection library returns into a node -> community id
    dictionary (block_processor/na_snap_cnm.py, block_processor/na_fast_greedy.py): the
    communities are numbered consecutively from a base id in list order, and every member is
    assigned the number of its community. */
module Communities {

  /** m with every member of members assigned id (later assignments of a key win, though they
      all write the same id). */
  function Tag<N(==,!new)>(m: map<N, int>, members: seq<N>, id: int): (r: map<N, int>)
    ensures forall x :: x in r <==> x in m || x in members
    ensures forall x :: x in r ==> r[x] == if x in members then id else m[x]
  {
    if members == [] then m
    else
      var init := members[..|members| - 1];
      assert forall x :: x in members <==> x in init || x == members[|members| - 1];
      Tag(m, init, id)[members[|members| - 1] := id]
  }

  /** The dictionary after the communities have been visited in order, the first getting base. */
  function Numbered<N(==,!new)>(comms: seq<seq<N>>, base: int): map<N, int> {
    if comms == [] then map[]
    else Tag(Numbered(comms[..|comms| - 1], base), comms[|comms| - 1], base + |comms| - 1)
  }

  /** Whether n belongs to some community. */
  predicate Member<N(==,!new)>(comms: seq<seq<N>>, n: N) {
    exists i :: 0 <= i < |comms| && n in comms[i]
  }

  /** The position of the last community that n belongs to. */
  function LastContaining<N(==,!new)>(comms: seq<seq<N>>, n: N): (i: nat)
    requires Member(comms, n)
    ensures i < |comms| && n in comms[i]
    ensures forall j :: i < j < |comms| ==> n !in comms[j]
  {
    var last := |comms| - 1;
    if n in comms[last] then last
    else
      var init := comms[..last];
      assert Member(init, n) by {
        var i :| 0 <= i < |comms| && n in comms[i];
        assert i != last && init[i] == comms[i];
      }
      var i := LastContaining(init, n);
      assert forall j :: 0 <= j < last ==> init[j] == comms[j];
      i
  }

  /** The dictionary's keys are exactly the members of the communities, and each member gets the
      id of the last community it belongs to, base plus that community's position. */
  lemma {:induction false} NumberedSpec<N(!new)>(comms: seq<seq<N>>, base: int)
    ensures forall n :: n in Numbered(comms, base) <==> Member(comms, n)
    ensures forall n :: n in Numbered(comms, base) ==> Numbered(comms, base)[n] == base + LastContaining(comms, n)
  {
    if comms != [] {
      NumberedSpec(comms[..|comms| - 1], base);
      NumberedStep(comms, base);
    }
  }

  /** Membership splits into the earlier communities and the last one. */
  lemma MemberSnoc<N(!new)>(comms: seq<seq<N>>, n: N)
    requires comms != []
    ensures Member(comms, n) <==> Member(comms[..|comms| - 1], n) || n in comms[|comms| - 1]
  {
    var last := |comms| - 1;
    var init := comms[..last];
    if Member(comms, n) && n !in comms[last] {
      var i :| 0 <= i < |comms| && n in comms[i];
      assert init[i] == comms[i];
    }
    if Member(init, n) {
      var i :| 0 <= i < |init| && n in init[i];
      assert comms[i] == init[i];
    }
  }

  lemma NumberedStep<N(!new)>(comms: seq<seq<N>>, base: int)
    requires comms != []
    requires var init := comms[..|comms| - 1];
             && (forall n :: n in Numbered(init, base) <==> Member(init, n))
             && (forall n :: n in Numbered(init, base) ==> Numbered(init, base)[n] == base + LastContaining(init, n))
    ensures forall n :: n in Numbered(comms, base) <==> Member(comms, n)
    ensures forall n :: n in Numbered(comms, base) ==> Numbered(comms, base)[n] == base + LastContaining(comms, n)
  {
    var last := |comms| - 1;
    var init := comms[..last];
    forall n ensures n in Numbered(comms, base) <==> Member(comms, n) {
      MemberSnoc(comms, n);
    }
    forall n | n in Numbered(comms, base)
      ensures Numbered(comms, base)[n] == base + LastContaining(comms, n)
    {
      MemberSnoc(comms, n);
      if n !in comms[last] {
        var i := LastContaining(init, n);
        assert comms[i] == init[i];
        assert forall j :: i < j < last ==> comms[j] == init[j];
        LastContainingUnique(comms, n, i);
      } else {
        LastContainingUnique(comms, n, last);
      }
    }
  }

  /** The last community containing n is the one position with n and no later n. */
  lemma LastContainingUnique<N(!new)>(comms: seq<seq<N>>, n: N, i: nat)
    requires i < |comms| && n in comms[i]
    requires forall j :: i < j < |comms| ==> n !in comms[j]
    ensures LastContaining(comms, n) == i
  {
  }

  /** Every id lies in [base, base + number of communities). */
  lemma NumberedRange<N(!new)>(comms: seq<seq<N>>, base: int)
    ensures forall n :: n in Numbered(comms, base) ==> base <= Numbered(comms, base)[n] < base + |comms|
  {
    NumberedSpec(comms, base);
  }

  /** An empty community adds no key but uses up an id: the community after it is numbered as if
      the empty one were a real community. */
  lemma EmptyCommunity<N(!new)>(comms: seq<seq<N>>, next: seq<N>, base: int)
    ensures Numbered(comms + [[]], base) == Numbered(comms, base)
    ensures Numbered(comms + [[]] + [next], base) == Tag(Numbered(comms, base), next, base + |comms| + 1)
  {
    assert (comms + [[]])[..|comms|] == comms;
    assert (comms + [[]] + [next])[..|comms| + 1] == comms + [[]];
  }

  /** Only the member sets matter, not the order members are listed in: modelling the
      libraries' frozensets and vectors as sequences is sound. */
  lemma {:induction false} MemberOrderIrrelevant<N(!new)>(comms: seq<seq<N>>, other: seq<seq<N>>, base: int)
    requires |comms| == |other|
    requires forall i :: 0 <= i < |comms| ==> (forall x :: x in comms[i] <==> x in other[i])
    ensures Numbered(comms, base) == Numbered(other, base)
  {
    if comms != [] {
      var last := |comms| - 1;
      MemberOrderIrrelevant(comms[..last], other[..last], base);
    }
  }

  /** The number of distinct ids is at most the number of communities, and can be smaller: a
      community whose members all reappear in later communities leaves its id unused. */
  lemma DistinctIds<N(!new)>(comms: seq<seq<N>>, base: int)
    ensures |Numbered(comms, base).Values| <= |comms|
  {
    NumberedRange(comms, base);
    WithinRangeCard(Numbered(comms, base).Values, base, |comms|);
  }

  lemma {:induction false} WithinRangeCard(s: set<int>, lo: int, n: nat)
    requires forall x :: x in s ==> lo <= x < lo + n
    ensures |s| <= n
  {
    if n > 0 {
      var top := lo + n - 1;
      WithinRangeCard(s - {top}, lo, n - 1);
      if top in s {
        assert s == (s - {top}) + {top};
      } else {
        assert s == s - {top};
      }
    } else {
      assert forall x :: x !in s;
      assert s == {};
    }
  }

  lemma SharedNodeLosesId()
    ensures Numbered([[7], [7]], 0) == map[7 := 1]
    ensures |Numbered([[7], [7]], 0).Values| < |[[7], [7]]|
  {
    var first: seq<seq<int>> := [[7]];
    assert [[7], [7]][..1] == first;
    assert first[..0] == [];
    assert Numbered(first, 0) == Tag(map[], [7], 0) == map[7 := 0];
    assert Numbered([[7], [7]], 0) == Tag(map[7 := 0], [7], 1) == map[7 := 1];
    var m := map[7 := 1];
    assert m[7] == 1 && 1 in m.Values;
    assert m.Values == {1};
  }

  /** The nested loop of cnm_find_communities and of fast greedy's command_center: an id counter
      from base, and for each community every member set to the counter. */
  method NumberCommunities<N(==,!new)>(comms: seq<seq<N>>, base: int) returns (ids: map<N, int>)
    ensures ids == Numbered(comms, base)
  {
    ids := map[];
    var id := base;
    for k := 0 to |comms|
      invariant id == base + k
      invariant ids == Numbered(comms[..k], base)
    {
      var community := comms[k];
      var before := ids;
      for j := 0 to |community|
        invariant ids == Tag(before, community[..j], id)
      {
        assert community[..j + 1][..j] == community[..j];
        ids := ids[community[j] := id];
      }
      assert community[..|community|] == community;
      assert comms[..k + 1][..k] == comms[..k];
      id := id + 1;
    }
    assert comms[..|comms|] == comms;
  }

  /** cnm_find_communities after the library has run: the number of communities, the dictionary
      numbered from 0, and the modularity. The library's community vector and modularity are
      parameters. */
  method CnmFindCommunities<N(==,!new)>(vector: seq<seq<N>>, modularity: real)
    returns (total: nat, communities: map<N, int>, q: real)
    ensures total == |vector| && q == modularity
    ensures communities == Numbered(vector, 0)
    ensures forall n :: n in communities <==> Member(vector, n)
    ensures forall n :: n in communities ==> communities[n] == LastContaining(vector, n)
    ensures forall n :: n in communities ==> 0 <= communities[n] < total
  {
    total := |vector|;
    communities := NumberCommunities(vector, 0);
    q := modularity;
    NumberedSpec(vector, 0);
  }

  /** Fast greedy's command_center after the library has run: the dictionary numbered from 1, and
      the count it reports, the length of the list. */
  method FastGreedyCommunities<N(==,!new)>(list: seq<seq<N>>) returns (communities: map<N, int>, reported: nat)
    ensures reported == |list|
    ensures communities == Numbered(list, 1)
    ensures forall n :: n in communities <==> Member(list, n)
    ensures forall n :: n in communities ==> communities[n] == 1 + LastContaining(list, n)
    ensures forall n :: n in communities ==> 1 <= communities[n] <= |list|
  {
    communities := NumberCommunities(list, 1);
    reported := |list|;
    NumberedSpec(list, 1);
  }
}
