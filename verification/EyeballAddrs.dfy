/** Address lists, as the racers of a connect walk them (connect.c). A position at the end of the list stands
    for NULL. */
module EyeballAddrs {
  const AF_INET := 2
  const AF_INET6 := 10

  // One entry of the resolver's list; the address itself does not matter here.
  datatype Addr = Addr(family: int, address: string)

  /** The first entry of a family from `i` on. */
  function NextFrom(list: seq<Addr>, i: nat, family: int): (j: nat)
    requires i <= |list|
    ensures i <= j <= |list| && (j < |list| ==> list[j].family == family)
    ensures forall k :: i <= k < j ==> list[k].family != family
    decreases |list| - i
  {
    if i == |list| || list[i].family == family then i else NextFrom(list, i + 1, family)
  }

  /** All the entries of a family from `i` on, in list order. */
  function Matches(list: seq<Addr>, i: nat, family: int): seq<nat>
    requires i <= |list|
    decreases |list| - i
  {
    var j := NextFrom(list, i, family);
    if j == |list| then [] else [j] + Matches(list, j + 1, family)
  }

  /** `addr_first_match`. */
  method FirstMatch(list: seq<Addr>, family: int) returns (addr: nat)
    ensures addr == NextFrom(list, 0, family)
  {
    addr := 0;
    while addr < |list|
      invariant addr <= |list| && NextFrom(list, addr, family) == NextFrom(list, 0, family)
    {
      if list[addr].family == family {
        return;
      }
      addr := addr + 1;
    }
  }

  /** `addr_next_match`. */
  method NextMatch(list: seq<Addr>, at: nat, family: int) returns (addr: nat)
    requires at < |list|
    ensures addr == NextFrom(list, at + 1, family)
  {
    addr := at;
    while addr + 1 < |list|
      invariant addr < |list| && NextFrom(list, addr + 1, family) == NextFrom(list, at + 1, family)
    {
      addr := addr + 1;
      if list[addr].family == family {
        return;
      }
    }
    return |list|;
  }

  /** The walk has every entry of the family, once, and in list order. */
  lemma {:induction false} MatchesAreAll(list: seq<Addr>, i: nat, family: int)
    requires i <= |list|
    ensures forall j :: j in Matches(list, i, family) <==> i <= j < |list| && list[j].family == family
    ensures forall a, b ::
      0 <= a < b < |Matches(list, i, family)| ==> Matches(list, i, family)[a] < Matches(list, i, family)[b]
    decreases |list| - i
  {
    var j := NextFrom(list, i, family);
    if j < |list| {
      MatchesAreAll(list, j + 1, family);
      var rest := Matches(list, j + 1, family);
      assert forall b :: 0 <= b < |rest| ==> rest[b] in rest;
    }
  }

  lemma MatchesFromNext(list: seq<Addr>, i: nat, family: int)
    requires i <= |list|
    ensures Matches(list, NextFrom(list, i, family), family) == Matches(list, i, family)
  {
    var j := NextFrom(list, i, family);
    assert NextFrom(list, j, family) == j;
  }

  /** So many passes over the same walk. */
  function Passes(walk: seq<nat>, n: nat): seq<nat> {
    if n == 0 then [] else Passes(walk, n - 1) + walk
  }
}
