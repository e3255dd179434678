/** Looking a validator up, ranking it by power and its share of the total. */
module Validators {
  import opened Machine
  import opened Options
  import opened Permutations

  datatype Validator = Validator(address: string, votingPower: int64)

  /** Equality up to case; `lower` is the platform's `toLowerCase`. */
  predicate Matches(lower: string -> string, v: Validator, address: string) {
    lower(v.address) == lower(address)
  }

  /** The index of the first match, or the length of the list. */
  function FirstMatch(lower: string -> string, vs: seq<Validator>, address: string): (k: nat)
    ensures k <= |vs|
    ensures forall j :: 0 <= j < k ==> !Matches(lower, vs[j], address)
    ensures k < |vs| ==> Matches(lower, vs[k], address)
  {
    if vs == [] then 0
    else if Matches(lower, vs[0], address) then 0
    else 1 + FirstMatch(lower, vs[1..], address)
  }

  function Found(lower: string -> string, vs: seq<Validator>, address: Option<string>): Option<Validator> {
    if address.None? then None
    else
      var k := FirstMatch(lower, vs, address.value);
      if k < |vs| then Some(vs[k]) else None
  }

  method Find(lower: string -> string, validators: seq<Validator>, address: Option<string>)
    returns (r: Option<Validator>)
    ensures r == Found(lower, validators, address)
  {
    if address.None? {
      return None;
    }
    for i := 0 to |validators|
      invariant FirstMatch(lower, validators, address.value) == i + FirstMatch(lower, validators[i..], address.value)
    {
      if Matches(lower, validators[i], address.value) {
        return Some(validators[i]);
      }
      assert validators[i..][1..] == validators[i + 1..];
    }
    return None;
  }

  /** Any outcome of the platform's sort, which need not be stable. */
  predicate IsDescendingSort(sorted: seq<Validator>, vs: seq<Validator>) {
    && multiset(sorted) == multiset(vs)
    && forall i, j :: 0 <= i < j < |sorted| ==> sorted[i].votingPower >= sorted[j].votingPower
  }

  function RankIn(lower: string -> string, sorted: seq<Validator>, address: Option<string>): Option<nat> {
    if address.None? || sorted == [] then None
    else
      var index := FirstMatch(lower, sorted, address.value);
      if index < |sorted| then Some(index + 1) else None
  }

  lemma SameMembers(sorted: seq<Validator>, vs: seq<Validator>, v: Validator)
    requires multiset(sorted) == multiset(vs)
    ensures v in sorted <==> v in vs
  {
    assert v in multiset(sorted) <==> v in multiset(vs);
  }

  /** The found validator is the first whose address is the same up to case. */
  lemma FoundIff(lower: string -> string, vs: seq<Validator>, address: string, v: Validator)
    ensures Found(lower, vs, None) == None
    ensures Found(lower, vs, Some(address)) == Some(v)
       <==> exists k :: 0 <= k < |vs| && vs[k] == v && FirstUpToCase(lower, vs, address, k)
  {
    var k := FirstMatch(lower, vs, address);
    if k < |vs| {
      assert FirstUpToCase(lower, vs, address, k);
    }
  }

  predicate FirstUpToCase(lower: string -> string, vs: seq<Validator>, address: string, k: nat)
    requires k < |vs|
  {
    && lower(vs[k].address) == lower(address)
    && forall j :: 0 <= j < k ==> lower(vs[j].address) != lower(address)
  }

  /** The rank is the place, counted from one, of the first such entry of the sorted list. */
  lemma RankIff(lower: string -> string, sorted: seq<Validator>, address: string, rank: nat)
    ensures RankIn(lower, sorted, None) == None
    ensures RankIn(lower, sorted, Some(address)) == Some(rank)
       <==> 1 <= rank <= |sorted| && FirstUpToCase(lower, sorted, address, rank - 1)
  {
    var k := FirstMatch(lower, sorted, address);
    if 1 <= rank <= |sorted| && FirstUpToCase(lower, sorted, address, rank - 1) {
      assert Matches(lower, sorted[rank - 1], address);
      assert k <= rank - 1;
    }
  }

  /** Ranks and found validators depend on the address up to case, and two ranked addresses share a
      rank only if they are the same up to case. */
  lemma OneRankPerAddress(lower: string -> string, vs: seq<Validator>, a: string, b: string)
    ensures lower(a) == lower(b)
        ==> Found(lower, vs, Some(a)) == Found(lower, vs, Some(b))
            && RankIn(lower, vs, Some(a)) == RankIn(lower, vs, Some(b))
    ensures RankIn(lower, vs, Some(a)).Some? && RankIn(lower, vs, Some(a)) == RankIn(lower, vs, Some(b))
        ==> lower(a) == lower(b)
  {
    var j, k := FirstMatch(lower, vs, a), FirstMatch(lower, vs, b);
    if j < |vs| && lower(a) == lower(b) {
      assert Matches(lower, vs[j], b);
    }
    if k < |vs| && lower(a) == lower(b) {
      assert Matches(lower, vs[k], a);
    }
  }

  /** A validator has a rank exactly when it is found. */
  lemma RankedIffFound(lower: string -> string, vs: seq<Validator>, sorted: seq<Validator>, address: Option<string>)
    requires IsDescendingSort(sorted, vs)
    ensures RankIn(lower, sorted, address).Some? <==> Found(lower, vs, address).Some?
  {
    if address.Some? {
      var i, k := FirstMatch(lower, sorted, address.value), FirstMatch(lower, vs, address.value);
      if i < |sorted| {
        SameMembers(sorted, vs, sorted[i]);
      }
      if k < |vs| {
        SameMembers(sorted, vs, vs[k]);
      }
    }
  }

  // ---------- counting ----------

  /** How many validators have at least the given power. */
  function AtLeast(vs: seq<Validator>, power: int): nat {
    if vs == [] then 0 else (if vs[0].votingPower >= power then 1 else 0) + AtLeast(vs[1..], power)
  }

  /** How many have more. */
  function Stronger(vs: seq<Validator>, power: int): nat {
    AtLeast(vs, power + 1)
  }

  lemma {:induction false} AtLeastRemove(vs: seq<Validator>, k: nat, power: int)
    requires k < |vs|
    ensures AtLeast(vs, power) == (if vs[k].votingPower >= power then 1 else 0) + AtLeast(vs[..k] + vs[k + 1..], power)
  {
    if k == 0 {
      assert vs[..0] + vs[1..] == vs[1..];
    } else {
      AtLeastRemove(vs[1..], k - 1, power);
      var rest := vs[..k] + vs[k + 1..];
      assert rest[0] == vs[0] && rest[1..] == vs[1..][..k - 1] + vs[1..][k..];
    }
  }

  lemma {:induction false} AtLeastIsOrderFree(us: seq<Validator>, vs: seq<Validator>, power: int)
    requires multiset(us) == multiset(vs)
    ensures AtLeast(us, power) == AtLeast(vs, power)
    decreases us
  {
    if us == [] {
      EmptyMatch(us, vs);
    } else {
      var k := MatchFirst(us, vs);
      AtLeastRemove(vs, k, power);
      AtLeastIsOrderFree(us[1..], vs[..k] + vs[k + 1..], power);
    }
  }

  lemma {:induction false} AtLeastBounds(vs: seq<Validator>, power: int, k: nat)
    requires k <= |vs|
    ensures (forall j :: 0 <= j < k ==> vs[j].votingPower >= power) ==> AtLeast(vs, power) >= k
    ensures (forall j :: k <= j < |vs| ==> vs[j].votingPower < power) ==> AtLeast(vs, power) <= k
  {
    if vs != [] {
      var tail := vs[1..];
      assert forall j :: 0 <= j < |tail| ==> tail[j] == vs[j + 1];
      AtLeastBounds(tail, power, if k == 0 then 0 else k - 1);
      assert forall j :: k <= j < |vs| && j > 0 ==> vs[j] == tail[j - 1];
    }
  }

  lemma {:induction false} AtLeastAntitone(vs: seq<Validator>, low: int, high: int)
    requires low <= high
    ensures AtLeast(vs, high) <= AtLeast(vs, low)
  {
    if vs != [] {
      AtLeastAntitone(vs[1..], low, high);
    }
  }

  /** `power` is the strongest among the validators that match. */
  predicate StrongestMatch(lower: string -> string, vs: seq<Validator>, address: string, power: int) {
    && (exists k :: 0 <= k < |vs| && Matches(lower, vs[k], address) && vs[k].votingPower == power)
    && forall k :: 0 <= k < |vs| && Matches(lower, vs[k], address) ==> vs[k].votingPower <= power
  }

  /** The first match of a descending sort is a strongest match of the list. */
  lemma FirstOfSortIsStrongest(lower: string -> string, vs: seq<Validator>, sorted: seq<Validator>, address: string)
    requires IsDescendingSort(sorted, vs) && FirstMatch(lower, sorted, address) < |sorted|
    ensures StrongestMatch(lower, vs, address, sorted[FirstMatch(lower, sorted, address)].votingPower)
  {
    var index := FirstMatch(lower, sorted, address);
    SameMembers(sorted, vs, sorted[index]);
    forall k | 0 <= k < |vs| && Matches(lower, vs[k], address)
      ensures vs[k].votingPower <= sorted[index].votingPower
    {
      SameMembers(sorted, vs, vs[k]);
      var j :| 0 <= j < |sorted| && sorted[j] == vs[k];
      assert j >= index;
    }
  }

  /** For any descending sort, the rank lies above the number of strictly stronger validators and not
      above the number of those at least as strong, measured against the strongest match. */
  lemma RankBounds(lower: string -> string, vs: seq<Validator>, sorted: seq<Validator>, address: string, rank: nat)
    requires IsDescendingSort(sorted, vs) && RankIn(lower, sorted, Some(address)) == Some(rank)
    ensures lower(sorted[rank - 1].address) == lower(address)
    ensures var power := sorted[rank - 1].votingPower;
      && StrongestMatch(lower, vs, address, power)
      && Stronger(vs, power) < rank <= AtLeast(vs, power)
  {
    hide AtLeast;
    var power: int := sorted[rank - 1].votingPower;
    FirstOfSortIsStrongest(lower, vs, sorted, address);
    AtLeastBounds(sorted, power, rank);
    AtLeastBounds(sorted, power + 1, rank - 1);
    AtLeastIsOrderFree(sorted, vs, power);
    AtLeastIsOrderFree(sorted, vs, power + 1);
  }

  /** The rank fits the power of the validator that `find` returns exactly when that validator is a
      strongest match: with one entry per address always, with duplicates only if the first is as
      strong as the others. */
  lemma RankFitsFoundIff(lower: string -> string, vs: seq<Validator>, sorted: seq<Validator>, address: string, rank: nat)
    requires IsDescendingSort(sorted, vs) && RankIn(lower, sorted, Some(address)) == Some(rank)
    ensures Found(lower, vs, Some(address)).Some?
    ensures var power := Found(lower, vs, Some(address)).value.votingPower;
      Stronger(vs, power) < rank <= AtLeast(vs, power) <==> StrongestMatch(lower, vs, address, power)
  {
    RankedIffFound(lower, vs, sorted, Some(address));
    RankBounds(lower, vs, sorted, address, rank);
    var top, power := sorted[rank - 1].votingPower, Found(lower, vs, Some(address)).value.votingPower;
    if power < top {
      AtLeastAntitone(vs, power + 1, top);
    }
  }

  predicate DistinctAddresses(lower: string -> string, vs: seq<Validator>) {
    forall i, j :: 0 <= i < j < |vs| ==> lower(vs[i].address) != lower(vs[j].address)
  }

  lemma DistinctIsStrongest(lower: string -> string, vs: seq<Validator>, address: string)
    requires DistinctAddresses(lower, vs) && Found(lower, vs, Some(address)).Some?
    ensures StrongestMatch(lower, vs, address, Found(lower, vs, Some(address)).value.votingPower)
  {
    var k := FirstMatch(lower, vs, address);
    forall j | 0 <= j < |vs| && Matches(lower, vs[j], address)
      ensures j == k
    {
      assert j >= k;
    }
  }

  // ---------- shares ----------

  /** The fold over voting powers, in the platform's 64-bit integers. */
  function TotalPower(vs: seq<Validator>): int64 {
    if vs == [] then 0 else Add64(TotalPower(vs[..|vs| - 1]), vs[|vs| - 1].votingPower)
  }

  function TrueTotal(vs: seq<Validator>): int {
    if vs == [] then 0 else TrueTotal(vs[..|vs| - 1]) + vs[|vs| - 1].votingPower
  }

  function PowerPercent(power: Option<int>, total: int): Option<real> {
    if power.None? || total == 0 then None
    else Some(power.value as real / total as real * 100.0)
  }

  predicate NonNegative(vs: seq<Validator>) {
    forall v :: v in vs ==> v.votingPower >= 0
  }

  lemma {:induction false} TotalWraps(vs: seq<Validator>) returns (turns: int)
    ensures TotalPower(vs) == TrueTotal(vs) + turns * TWO_64
  {
    if vs == [] {
      turns := 0;
    } else {
      var before := TotalWraps(vs[..|vs| - 1]);
      var sum := TotalPower(vs[..|vs| - 1]) + vs[|vs| - 1].votingPower;
      turns := if sum >= TWO_63 then before - 1 else if sum < -TWO_63 then before + 1 else before;
    }
  }

  /** The fold is the true total exactly when the true total fits in 64 bits, whatever the partial sums do. */
  lemma TotalIsTrueIff(vs: seq<Validator>)
    ensures TotalPower(vs) == TrueTotal(vs) <==> -TWO_63 <= TrueTotal(vs) < TWO_63
  {
    var turns := TotalWraps(vs);
  }

  function SumOfShares(vs: seq<Validator>, total: int): real
    requires total != 0
  {
    if vs == [] then 0.0
    else SumOfShares(vs[..|vs| - 1], total) + PowerPercent(Some(vs[|vs| - 1].votingPower), total).value
  }

  lemma {:induction false} SharesAddUp(vs: seq<Validator>, total: int)
    requires total != 0
    ensures SumOfShares(vs, total) == TrueTotal(vs) as real / total as real * 100.0
  {
    if vs != [] {
      SharesAddUp(vs[..|vs| - 1], total);
      var a, b, t := TrueTotal(vs[..|vs| - 1]) as real, vs[|vs| - 1].votingPower as real, total as real;
      assert (a + b) / t == a / t + b / t;
    }
  }

  /** Shares add up to 100 exactly when the total power fits in 64 bits. */
  lemma SharesAreWholeIff(vs: seq<Validator>)
    requires TotalPower(vs) != 0
    ensures SumOfShares(vs, TotalPower(vs)) == 100.0 <==> -TWO_63 <= TrueTotal(vs) < TWO_63
  {
    SharesAddUp(vs, TotalPower(vs));
    TotalIsTrueIff(vs);
    WholeIff(TrueTotal(vs), TotalPower(vs));
  }

  lemma WholeIff(p: int, t: int)
    requires t != 0
    ensures p as real / t as real == 1.0 <==> p == t
  {
    assert p as real / t as real * t as real == p as real;
  }

  lemma {:induction false} PartOfTotal(vs: seq<Validator>, k: nat)
    requires NonNegative(vs)
    ensures TrueTotal(vs) >= 0
    ensures k < |vs| ==> 0 <= vs[k].votingPower <= TrueTotal(vs)
    decreases |vs|
  {
    if vs != [] {
      assert vs[|vs| - 1] in vs;
      assert forall v :: v in vs[..|vs| - 1] ==> v in vs;
      PartOfTotal(vs[..|vs| - 1], k);
    }
  }

  /** The power the page shows: of the found validator, or else the one the node reports. */
  function ShownPower(lower: string -> string, vs: seq<Validator>, address: Option<string>, reported: Option<int>)
    : Option<int>
  {
    var found := Found(lower, vs, address);
    if found.Some? then Some(found.value.votingPower) else reported
  }

  /** On any set, totals that wrapped included: a share is shown exactly when there is a power and a
      non-zero total, and it lies between 0 and 100 exactly when the power lies between 0 and the total. */
  lemma ShownShareInRangeIff(
    lower: string -> string, vs: seq<Validator>, address: Option<string>, reported: Option<int>)
    ensures var power, total := ShownPower(lower, vs, address, reported), TotalPower(vs);
      var share := PowerPercent(power, total);
      && (share.Some? <==> power.Some? && total != 0)
      && (share.Some? ==>
           (0.0 <= share.value <= 100.0 <==> 0 <= power.value <= total || total <= power.value <= 0))
  {
    var power := ShownPower(lower, vs, address, reported);
    if power.Some? && TotalPower(vs) != 0 {
      PercentInRange(power.value, TotalPower(vs));
    }
  }

  lemma PercentInRange(p: int, t: int)
    requires t != 0
    ensures 0.0 <= p as real / t as real * 100.0 <= 100.0 <==> 0 <= p <= t || t <= p <= 0
  {
    if t > 0 {
      Ratio(p, t);
    } else {
      Ratio(-p, -t);
      NegatedRatio(p as real, t as real);
    }
  }

  lemma NegatedRatio(p: real, t: real)
    requires t != 0.0
    ensures p / t == -p / -t
  {
    var q := p / t;
    assert q * t == p;
    assert q * -t == -p;
  }

  lemma ShownPowerIs(lower: string -> string, vs: seq<Validator>, address: string, reported: Option<int>, k: nat)
    ensures k < |vs| && DistinctAddresses(lower, vs) && lower(vs[k].address) == lower(address)
        ==> ShownPower(lower, vs, Some(address), reported) == Some(vs[k].votingPower)
    ensures (forall v :: v in vs ==> lower(v.address) != lower(address))
        ==> ShownPower(lower, vs, Some(address), reported) == reported
  {
    var first := FirstMatch(lower, vs, address);
    if k < |vs| && DistinctAddresses(lower, vs) && lower(vs[k].address) == lower(address) {
      assert Matches(lower, vs[k], address);
      assert first == k;
    }
    if first < |vs| {
      assert vs[first] in vs;
    }
  }

  /** With one entry per address, the share shown for an entry's address is that entry's own power over
      the total, in percent; without an entry it is the reported power's. */
  lemma OwnShare(lower: string -> string, vs: seq<Validator>, address: string, reported: Option<int>, k: nat)
    requires TotalPower(vs) != 0
    ensures k < |vs| && DistinctAddresses(lower, vs) && lower(vs[k].address) == lower(address)
        ==> PowerPercent(ShownPower(lower, vs, Some(address), reported), TotalPower(vs))
            == Some(vs[k].votingPower as real / TotalPower(vs) as real * 100.0)
    ensures (forall v :: v in vs ==> lower(v.address) != lower(address)) && reported.Some?
        ==> PowerPercent(ShownPower(lower, vs, Some(address), reported), TotalPower(vs))
            == Some(reported.value as real / TotalPower(vs) as real * 100.0)
  {
    hide ShownPower, TotalPower, DistinctAddresses;
    ShownPowerIs(lower, vs, address, reported, k);
  }

  /** A found validator's share is in range if no power is negative and the total fits in 64 bits. */
  lemma FoundShareInRange(
    lower: string -> string, vs: seq<Validator>, address: Option<string>, reported: Option<int>)
    requires NonNegative(vs) && 0 < TrueTotal(vs) <= MAX_INT64
    requires Found(lower, vs, address).Some?
    ensures var share := PowerPercent(ShownPower(lower, vs, address, reported), TotalPower(vs));
      share.Some? && 0.0 <= share.value <= 100.0
  {
    PartOfTotal(vs, FirstMatch(lower, vs, address.value));
    TotalIsTrueIff(vs);
    ShownShareInRangeIff(lower, vs, address, reported);
  }

  lemma Ratio(p: int, t: int)
    requires 0 < t
    ensures 0.0 <= p as real / t as real <= 1.0 <==> 0 <= p <= t
  {
    var q, r := p as real / t as real, t as real;
    assert q * r == p as real;
    if q < 0.0 {
      assert q * r < 0.0;
    } else if q > 1.0 {
      assert q * r > 1.0 * r;
    } else {
      assert 0.0 <= q * r <= 1.0 * r;
    }
  }

  // ---------- inputs on which rank and shares go wrong ----------

  /** Two entries for one address: the rank is that of the stronger, the power that of the first. */
  lemma DuplicateMisranks(lower: string -> string)
    ensures var vs, sorted := [Validator("A", 1), Validator("A", 2)], [Validator("A", 2), Validator("A", 1)];
      && IsDescendingSort(sorted, vs)
      && RankIn(lower, sorted, Some("A")) == Some(1)
      && Found(lower, vs, Some("A")) == Some(Validator("A", 1))
      && Stronger(vs, 1) == 1 && AtLeast(vs, 1) == 2
  {
    var a, b := Validator("A", 1), Validator("A", 2);
    assert [a, b][1..] == [b] && [b][1..] == [];
    assert Stronger([b], 1) == 1 && AtLeast([b], 1) == 1;
    assert multiset([b, a]) == multiset{a, b} == multiset([a, b]);
  }

  /** Two powers of 2^62 wrap to a total of -2^63, and the shares add up to -100. */
  lemma OverflowingShares()
    ensures var vs := [Validator("A", 0x4000_0000_0000_0000), Validator("B", 0x4000_0000_0000_0000)];
      TrueTotal(vs) == TWO_63 && TotalPower(vs) == -TWO_63 && SumOfShares(vs, -TWO_63) == -100.0
  {
    var a, b := Validator("A", 0x4000_0000_0000_0000), Validator("B", 0x4000_0000_0000_0000);
    assert [a, b][..1] == [a] && [a][..0] == [];
    assert TotalPower([a]) == 0x4000_0000_0000_0000 && TrueTotal([a]) == 0x4000_0000_0000_0000;
    SharesAddUp([a, b], -TWO_63);
  }

  /** A node outside the set that reports twice the total is shown a share of 200. */
  lemma OutsiderShare(lower: string -> string, address: string)
    requires lower(address) != lower("A")
    ensures var vs := [Validator("A", 1)];
      PowerPercent(ShownPower(lower, vs, Some(address), Some(2)), TotalPower(vs)) == Some(200.0)
  {
    var vs := [Validator("A", 1)];
    assert vs[1..] == [] && vs[..0] == [];
    assert TotalPower(vs) == 1;
  }
}
