/**
 The statistics of the about page (`AboutComponent`), computed over the snapshot
 of the user store it last received. The subscription that delivers the snapshot
 is not modelled: every statistic takes the snapshot as its argument.
 */
module About {
  import opened Filtering
  import opened DataService

  /** `getTotalUsers`. */
  function TotalUsers(users: Store): (r: nat)
    ensures r == 0 <==> users == []
  {
    |users|
  }

  /** The total is also the sum of the per-role counts: every user holds exactly one role. */
  lemma {:induction false} TotalIsSumOfRoleCounts(users: Store)
    ensures TotalUsers(users) == SumCounts(CountByRole(users))
  {
  }

  predicate IsInactive(u: User) {
    !u.isActive
  }

  /** `getActiveUsers` of the about page: the number of active users. */
  function ActiveCount(users: Store): (r: nat)
    ensures r <= TotalUsers(users)
    ensures r == 0 <==> forall i :: 0 <= i < |users| ==> !users[i].isActive
  {
    FilterEmpty(users, IsActive);
    |Filter(users, IsActive)|
  }

  /** `getInactiveUsers`: the number of inactive users. */
  function InactiveCount(users: Store): (r: nat)
    ensures r <= TotalUsers(users)
    ensures r == 0 <==> forall i :: 0 <= i < |users| ==> users[i].isActive
  {
    FilterEmpty(users, IsInactive);
    |Filter(users, IsInactive)|
  }

  /** Every user is either active or inactive, never both. */
  lemma {:induction false} ActiveInactivePartition(users: Store)
    ensures ActiveCount(users) + InactiveCount(users) == TotalUsers(users)
    ensures ActiveCount(users) == TotalUsers(users) <==> forall i :: 0 <= i < |users| ==> users[i].isActive
  {
    FilterPartition(users, IsActive, IsInactive);
  }

  lemma {:induction false} RoleSetSize(users: Store)
    ensures |RoleSet(users)| <= |users|
    ensures |users| > 0 ==> |RoleSet(users)| > 0
  {
    if |users| > 0 {
      RoleSetSnoc(users);
      RoleSetSize(users[..|users| - 1]);
    }
  }

  /** `getRoleCount`: the number of distinct roles, as the size of a `Set` of roles. */
  function RoleCount(users: Store): (r: nat)
    ensures r <= TotalUsers(users)
    ensures r == 0 <==> TotalUsers(users) == 0
  {
    RoleSetSize(users);
    |RoleSet(users)|
  }

  /** A list of entries with distinct names has as many entries as names. */
  lemma {:induction false} DistinctNamesCardinality(entries: seq<RoleEntry>)
    requires DistinctNames(entries)
    ensures |NameSet(entries)| == |entries|
  {
    if |entries| > 0 {
      assert entries == [entries[0]] + entries[1..];
      NameSetCons(entries[0], entries[1..]);
      DistinctNamesCardinality(entries[1..]);
      assert entries[0].name !in NameSet(entries[1..]);
    }
  }

  /** `getRoles`: the entries of `getUserCountByRole`, one per distinct role. */
  function Roles(users: Store): (r: seq<RoleEntry>)
    ensures |r| == RoleCount(users)
    ensures DistinctNames(r) && NameSet(r) == RoleSet(users)
    ensures forall i :: 0 <= i < |r| ==> r[i].count == RoleOccurrences(users, r[i].name)
    ensures SumCounts(r) == TotalUsers(users)
  {
    var r := CountByRole(users);
    DistinctNamesCardinality(r);
    r
  }

  /**
   `getActivePercentage`: `Math.round(active / total * 100)`, 0 for an empty snapshot.
   The result is the integer nearest to 100 * active / total, halves rounding up.
   */
  function ActivePercentage(users: Store): (r: nat)
    ensures |users| == 0 ==> r == 0
    ensures r <= 100
    ensures |users| > 0 ==>
      2 * |users| * r <= 200 * ActiveCount(users) + |users| < 2 * |users| * (r + 1)
  {
    if |users| == 0 then 0
    else
      var t := |users|;
      var a := ActiveCount(users);
      RoundedPercent(a, t);
      (200 * a + t) / (2 * t)
  }

  /** Rounding 100 * a / t half up stays within 0..100 and is the nearest integer. */
  lemma RoundedPercent(a: nat, t: nat)
    requires 0 < t && a <= t
    ensures var r := (200 * a + t) / (2 * t);
      && 0 <= r <= 100
      && 2 * t * r <= 200 * a + t < 2 * t * (r + 1)
  {
    var x := 200 * a + t;
    var d := 2 * t;
    var r := x / d;
    DivisionBounds(x, d);
    assert x < d * 101;
    MulStrictCancel(d, r, 101);
  }

  /** Euclidean division brackets the dividend. */
  lemma DivisionBounds(x: nat, d: nat)
    requires d > 0
    ensures d * (x / d) <= x < d * (x / d + 1)
  {
  }

  /** Dividing both sides of `d * a < d * b` by a positive `d`. */
  lemma MulStrictCancel(d: nat, a: int, b: int)
    requires d > 0 && d * a < d * b
    ensures a < b
  {
  }

  /** Everyone active gives 100 percent; nobody active gives 0 percent. */
  lemma {:induction false} ActivePercentageExtremes(users: Store)
    ensures (forall i :: 0 <= i < |users| ==> users[i].isActive) && |users| > 0 ==> ActivePercentage(users) == 100
    ensures (forall i :: 0 <= i < |users| ==> !users[i].isActive) ==> ActivePercentage(users) == 0
  {
    ActiveInactivePartition(users);
    if |users| > 0 {
      RoundedPercent(ActiveCount(users), |users|);
      ExtremePercents(|users|);
    }
  }

  lemma ExtremePercents(t: nat)
    requires t > 0
    ensures (200 * t + t) / (2 * t) == 100
    ensures (200 * 0 + t) / (2 * t) == 0
  {
    var d := 2 * t;
    DivisionBounds(201 * t, d);
    assert d * 100 <= 201 * t < d * 101;
    MulStrictCancel(d, (201 * t) / d, 101);
    MulStrictCancel(d, 99, (201 * t) / d);
    DivisionBounds(t, d);
    MulStrictCancel(d, t / d, 1);
  }

  /** Entry `k` has the largest count, and every earlier entry a strictly smaller one. */
  ghost predicate EarliestMaximum(roles: seq<RoleEntry>, k: int) {
    && 0 <= k < |roles|
    && (forall j :: 0 <= j < |roles| ==> roles[j].count <= roles[k].count)
    && (forall j :: 0 <= j < k ==> roles[j].count < roles[k].count)
  }

  /** The `reduce` of `getMostCommonRole`, from entry `i` on, with `best` the winner so far. */
  function MostCommonFrom(roles: seq<RoleEntry>, best: nat, i: nat): (k: nat)
    requires best < |roles| && best <= i <= |roles|
    requires forall j :: 0 <= j < i ==> roles[j].count <= roles[best].count
    requires forall j :: 0 <= j < best ==> roles[j].count < roles[best].count
    ensures EarliestMaximum(roles, k)
    decreases |roles| - i
  {
    if i == |roles| then best
    else if roles[i].count > roles[best].count then MostCommonFrom(roles, i, i + 1)
    else MostCommonFrom(roles, best, i + 1)
  }

  /** `getMostCommonRole`: "N/A" when there are no roles, else the first role with the largest count. */
  function MostCommonRole(users: Store): (r: string)
    ensures |users| == 0 ==> r == "N/A"
    ensures |users| > 0 ==> exists k :: EarliestMaximum(Roles(users), k) && r == Roles(users)[k].name
  {
    var roles := Roles(users);
    if |roles| == 0 then "N/A"
    else roles[MostCommonFrom(roles, 0, 0)].name
  }

  /**
   In terms of the store: the most common role is held by at least as many users as any
   other role, and among the roles tied with it, it is the one that appears first.
   */
  lemma {:induction false} MostCommonRoleIsModal(users: Store)
    requires |users| > 0
    ensures var r := MostCommonRole(users);
      && r in RoleSet(users)
      && (forall role :: role in RoleSet(users) ==> RoleOccurrences(users, role) <= RoleOccurrences(users, r))
      && (forall role, k ::
            (&& role in RoleSet(users)
             && role != r
             && RoleOccurrences(users, role) == RoleOccurrences(users, r)
             && 0 <= k < |users|
             && users[k].role == role)
            ==> r in RoleSet(users[..k]))
  {
    var r := MostCommonRole(users);
    var roles := Roles(users);
    var m :| EarliestMaximum(roles, m) && r == roles[m].name;
    assert r in NameSet(roles);
    CountByRoleInFirstAppearanceOrder(users);
    forall role | role in RoleSet(users)
      ensures RoleOccurrences(users, role) <= RoleOccurrences(users, r)
    {
      var j :| 0 <= j < |roles| && roles[j].name == role;
    }
    forall role, k | role in RoleSet(users) && role != r && RoleOccurrences(users, role) == RoleOccurrences(users, r)
        && 0 <= k < |users| && users[k].role == role
      ensures r in RoleSet(users[..k])
    {
      var j :| 0 <= j < |roles| && roles[j].name == role;
      assert roles[j].count == roles[m].count;
      assert m < j;
    }
  }
}
