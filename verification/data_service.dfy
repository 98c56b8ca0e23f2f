/**
 The in-memory user store of the application (`DataService`). The store is a
 sequence of users in insertion order; every mutation returns the new sequence
 together with what the service method returns to its caller. Publishing the
 new snapshot to subscribers is not modelled.
 */
module DataService {
  import opened Wrappers
  import opened Filtering
  import opened Text

  /** A user record. */
  datatype User = User(id: int, name: string, email: string, role: string, isActive: bool)

  /** The argument of `addUser`: a user without an id. */
  datatype NewUser = NewUser(name: string, email: string, role: string, isActive: bool)

  /** A `Partial<User>`: each field is either given or absent. */
  datatype UserPatch = UserPatch(
    id: Option<int>,
    name: Option<string>,
    email: Option<string>,
    role: Option<string>,
    isActive: Option<bool>)

  type Store = seq<User>

  ghost predicate HasId(users: Store, id: int) {
    exists i :: 0 <= i < |users| && users[i].id == id
  }

  /** `i` is the first position of the store holding a user with this id. */
  ghost predicate IsFirstMatch(users: Store, id: int, i: int) {
    && 0 <= i < |users|
    && users[i].id == id
    && forall j :: 0 <= j < i ==> users[j].id != id
  }

  ghost predicate UniqueIds(users: Store) {
    forall i, j :: 0 <= i < j < |users| ==> users[i].id != users[j].id
  }

  // ---------------------------------------------------------------------------
  // Lookup

  /** `findIndex(user => user.id === id)`, with `None` for -1. */
  function FindIndex(users: Store, id: int): (r: Option<nat>)
    ensures r.None? <==> !HasId(users, id)
    ensures r.Some? ==> IsFirstMatch(users, id, r.value)
  {
    if |users| == 0 then None
    else if users[0].id == id then Some(0)
    else
      match FindIndex(users[1..], id)
      case None =>
        assert forall j :: 1 <= j < |users| ==> users[j] == users[1..][j - 1];
        None
      case Some(i) => Some(i + 1)
  }

  /** `getUserById`: the first user with this id, if any. */
  function GetUserById(users: Store, id: int): (r: Option<User>)
    ensures r.None? <==> forall i :: 0 <= i < |users| ==> users[i].id != id
    ensures r.Some? ==> exists i :: IsFirstMatch(users, id, i) && r.value == users[i]
  {
    match FindIndex(users, id)
    case None => None
    case Some(i) => Some(users[i])
  }

  /** With unique ids, looking up the id of a stored user yields exactly that user. */
  lemma {:induction false} GetUserByIdUnique(users: Store, i: int)
    requires UniqueIds(users)
    requires 0 <= i < |users|
    ensures GetUserById(users, users[i].id) == Some(users[i])
  {
    var r := FindIndex(users, users[i].id);
    assert r.Some?;
    assert r.value == i;
  }

  // ---------------------------------------------------------------------------
  // Queries

  predicate IsActive(u: User) {
    u.isActive
  }

  /** `getActiveUsers`: the active users, in store order. */
  function ActiveUsers(users: Store): (r: Store)
    ensures forall u :: multiset(r)[u] == if u.isActive then multiset(users)[u] else 0
  {
    Filter(users, IsActive)
  }

  predicate RoleMatches(u: User, role: string) {
    Lower(u.role) == Lower(role)
  }

  /** `getUsersByRole`: the users whose role equals `role` ignoring case, in store order. */
  function UsersByRole(users: Store, role: string): (r: Store)
    ensures forall u :: multiset(r)[u] == if Lower(u.role) == Lower(role) then multiset(users)[u] else 0
  {
    Filter(users, u => RoleMatches(u, role))
  }

  /** Two spellings of a role that differ only in case select the same users. */
  lemma {:induction false} UsersByRoleIgnoresCase(users: Store, role: string, role': string)
    requires Lower(role) == Lower(role')
    ensures UsersByRole(users, role) == UsersByRole(users, role')
  {
    FilterCongruent(users, u => RoleMatches(u, role), u => RoleMatches(u, role'));
  }

  /** Lowercasing the role argument first does not change which users are selected. */
  lemma {:induction false} UsersByRoleLowered(users: Store, role: string)
    ensures UsersByRole(users, Lower(role)) == UsersByRole(users, role)
  {
    LowerIdempotent(role);
    UsersByRoleIgnoresCase(users, Lower(role), role);
  }

  predicate MatchesTerm(u: User, term: string) {
    Includes(Lower(u.name), Lower(term)) || Includes(Lower(u.email), Lower(term))
  }

  /** The lowercased term occurs somewhere in the lowercased name or email. */
  ghost predicate Mentions(u: User, term: string) {
    || (exists k :: OccursAt(Lower(u.name), Lower(term), k))
    || (exists k :: OccursAt(Lower(u.email), Lower(term), k))
  }

  /** `searchUsers`: the users whose lowercased name or email contains the lowercased term. */
  function SearchUsers(users: Store, term: string): (r: Store)
    ensures forall u :: multiset(r)[u] == if Mentions(u, term) then multiset(users)[u] else 0
  {
    Filter(users, u => MatchesTerm(u, term))
  }

  /** Searching for the empty term returns the whole store. */
  lemma {:induction false} SearchEmptyTermReturnsAll(users: Store)
    ensures SearchUsers(users, "") == users
  {
    forall i | 0 <= i < |users|
      ensures MatchesTerm(users[i], "")
    {
      IncludesEmpty(Lower(users[i].name));
    }
    FilterAll(users, u => MatchesTerm(u, ""));
  }

  /** `getActiveUsers` keeps store order: the answer for a concatenation is the concatenation of the answers. */
  lemma {:induction false} ActiveUsersInStoreOrder(a: Store, b: Store)
    ensures ActiveUsers(a + b) == ActiveUsers(a) + ActiveUsers(b)
  {
    FilterConcat(a, b, IsActive);
  }

  /** `getUsersByRole` keeps store order. */
  lemma {:induction false} UsersByRoleInStoreOrder(a: Store, b: Store, role: string)
    ensures UsersByRole(a + b, role) == UsersByRole(a, role) + UsersByRole(b, role)
  {
    FilterConcat(a, b, u => RoleMatches(u, role));
  }

  /** `searchUsers` keeps store order. */
  lemma {:induction false} SearchUsersInStoreOrder(a: Store, b: Store, term: string)
    ensures SearchUsers(a + b, term) == SearchUsers(a, term) + SearchUsers(b, term)
  {
    FilterConcat(a, b, u => MatchesTerm(u, term));
  }

  // ---------------------------------------------------------------------------
  // Adding a user

  /** `Math.max` over the ids of a non-empty store. */
  function MaxId(users: Store): (m: int)
    requires |users| > 0
    ensures forall i :: 0 <= i < |users| ==> users[i].id <= m
    ensures exists i :: 0 <= i < |users| && users[i].id == m
  {
    if |users| == 1 then users[0].id
    else
      var rest := MaxId(users[1..]);
      assert forall i :: 1 <= i < |users| ==> users[i] == users[1..][i - 1];
      if users[0].id > rest then users[0].id else rest
  }

  /** `addUser`: gives the new user the id one past the largest id and appends it. */
  function AddUser(users: Store, u: NewUser): (r: (Store, User))
    requires |users| > 0
    ensures r.0 == users + [r.1]
    ensures r.1.name == u.name && r.1.email == u.email && r.1.role == u.role && r.1.isActive == u.isActive
    ensures forall i :: 0 <= i < |users| ==> users[i].id < r.1.id
    ensures exists i :: 0 <= i < |users| && users[i].id == r.1.id - 1
  {
    var added := User(MaxId(users) + 1, u.name, u.email, u.role, u.isActive);
    (users + [added], added)
  }

  /** Adding a user keeps the ids of the store unique. */
  lemma {:induction false} AddUserKeepsIdsUnique(users: Store, u: NewUser)
    requires |users| > 0
    requires UniqueIds(users)
    ensures UniqueIds(AddUser(users, u).0)
  {
    var (users', added) := AddUser(users, u);
    forall i, j | 0 <= i < j < |users'|
      ensures users'[i].id != users'[j].id
    {
      if j == |users| {
        assert users'[i] == users[i];
      } else {
        assert users'[i] == users[i] && users'[j] == users[j];
      }
    }
  }

  // ---------------------------------------------------------------------------
  // Updating, deleting and toggling

  /** Every field the patch carries already holds that value in `u`. */
  predicate AgreesWith(patch: UserPatch, u: User) {
    (patch.id.None? || patch.id.value == u.id) &&
    (patch.name.None? || patch.name.value == u.name) &&
    (patch.email.None? || patch.email.value == u.email) &&
    (patch.role.None? || patch.role.value == u.role) &&
    (patch.isActive.None? || patch.isActive.value == u.isActive)
  }

  /**
   The object spread `{ ...u, ...patch }`: the fields present in the patch win, and
   every other field keeps the user's value.
   */
  function Merge(u: User, patch: UserPatch): (r: User)
    ensures AgreesWith(patch, r)
    ensures patch.id.None? ==> r.id == u.id
    ensures patch.name.None? ==> r.name == u.name
    ensures patch.email.None? ==> r.email == u.email
    ensures patch.role.None? ==> r.role == u.role
    ensures patch.isActive.None? ==> r.isActive == u.isActive
    ensures r == u <==> AgreesWith(patch, u)
  {
    User(
      patch.id.GetOr(u.id),
      patch.name.GetOr(u.name),
      patch.email.GetOr(u.email),
      patch.role.GetOr(u.role),
      patch.isActive.GetOr(u.isActive))
  }

  /** Spreading the same patch a second time changes nothing. */
  lemma {:induction false} MergeIdempotent(u: User, patch: UserPatch)
    ensures Merge(Merge(u, patch), patch) == Merge(u, patch)
  {
  }

  /** `updateUser`: merges the patch into the first user with this id and returns the merged user. */
  function UpdateUser(users: Store, id: int, patch: UserPatch): (r: (Store, Option<User>))
    ensures match FindIndex(users, id)
      case None => r.0 == users && r.1 == None
      case Some(i) => r.0 == users[i := Merge(users[i], patch)] && r.1 == Some(Merge(users[i], patch))
  {
    if |users| == 0 then (users, None)
    else if users[0].id == id then
      var merged := Merge(users[0], patch);
      ([merged] + users[1..], Some(merged))
    else
      var (rest, updated) := UpdateUser(users[1..], id, patch);
      ([users[0]] + rest, updated)
  }

  /** Applying the same patch twice is applying it once, unless the patch moves the user to another id. */
  lemma {:induction false} UpdateUserIdempotent(users: Store, id: int, patch: UserPatch)
    requires patch.id.None? || patch.id == Some(id)
    ensures UpdateUser(UpdateUser(users, id, patch).0, id, patch) == UpdateUser(users, id, patch)
  {
    match FindIndex(users, id)
    case None =>
    case Some(i) =>
      var merged := Merge(users[i], patch);
      var users' := users[i := merged];
      assert UpdateUser(users, id, patch) == (users', Some(merged));
      assert merged.id == id;
      assert IsFirstMatch(users', id, i);
      FirstMatchUnique(users', id, i, FindIndex(users', id).value);
      assert Merge(merged, patch) == merged;
      assert users'[i := Merge(users'[i], patch)] == users';
  }

  /** Splicing position `i` out of the tail is splicing position `i + 1` out of the whole. */
  lemma {:induction false} SpliceBehindHead(users: Store, i: nat)
    ensures i + 1 < |users| ==>
      [users[0]] + (users[1..][..i] + users[1..][i + 1..]) == users[..i + 1] + users[i + 2..]
  {
    if i + 1 < |users| {
      assert [users[0]] + users[1..][..i] == users[..i + 1];
      assert users[1..][i + 1..] == users[i + 2..];
    }
  }

  /** `deleteUser`: splices out the first user with this id and reports whether there was one. */
  function DeleteUser(users: Store, id: int): (r: (Store, bool))
    ensures r.1 <==> HasId(users, id)
    ensures match FindIndex(users, id)
      case None => r.0 == users
      case Some(i) => r.0 == users[..i] + users[i + 1..]
  {
    if |users| == 0 then (users, false)
    else if users[0].id == id then (users[1..], true)
    else
      var (rest, found) := DeleteUser(users[1..], id);
      SpliceBehindHead(users, FindIndex(users[1..], id).GetOr(0));
      ([users[0]] + rest, found)
  }

  /**
   With unique ids, deleting an id removes it from the store (a later lookup finds nothing),
   shrinks the store by one exactly when the id was present, and keeps ids unique.
   */
  lemma {:induction false} DeleteUserRemovesId(users: Store, id: int)
    requires UniqueIds(users)
    ensures var (users', found) := DeleteUser(users, id);
      && GetUserById(users', id) == None
      && UniqueIds(users')
      && |users'| == if found then |users| - 1 else |users|
  {
    var (users', found) := DeleteUser(users, id);
    match FindIndex(users, id)
    case None =>
      assert users' == users;
    case Some(i) =>
      assert users' == users[..i] + users[i + 1..];
      assert |users'| == |users| - 1;
      forall j | 0 <= j < |users'|
        ensures users'[j] == users[if j < i then j else j + 1]
      {
      }
      forall j | 0 <= j < |users'|
        ensures users'[j].id != id
      {
        if j >= i {
          assert users[i].id != users[j + 1].id;
        }
      }
      forall a, b | 0 <= a < b < |users'|
        ensures users'[a].id != users'[b].id
      {
        assert users'[a] == users[if a < i then a else a + 1];
        assert users'[b] == users[if b < i then b else b + 1];
      }
      assert !HasId(users', id);
      assert FindIndex(users', id) == None;
  }

  /** The patch `{ isActive: b }`. */
  function ActivePatch(b: bool): UserPatch {
    UserPatch(None, None, None, None, Some(b))
  }

  /** `toggleUserStatus`: looks the user up and updates it with its negated active flag. */
  function ToggleUserStatus(users: Store, id: int): (r: Store)
    ensures match FindIndex(users, id)
      case None => r == users
      case Some(i) => r == users[i := users[i].(isActive := !users[i].isActive)]
  {
    match GetUserById(users, id)
    case None => users
    case Some(u) => UpdateUser(users, id, ActivePatch(!u.isActive)).0
  }

  /** Toggling the same id twice restores the store. */
  lemma {:induction false} ToggleTwiceRestores(users: Store, id: int)
    ensures ToggleUserStatus(ToggleUserStatus(users, id), id) == users
  {
    match FindIndex(users, id)
    case None =>
    case Some(i) =>
      var users' := ToggleUserStatus(users, id);
      assert IsFirstMatch(users', id, i);
      FirstMatchUnique(users', id, i, FindIndex(users', id).value);
  }

  lemma {:induction false} FirstMatchUnique(users: Store, id: int, i: int, j: int)
    requires IsFirstMatch(users, id, i) && IsFirstMatch(users, id, j)
    ensures i == j
  {
  }

  // ---------------------------------------------------------------------------
  // Counting users by role

  /** One entry of the object built by `getUserCountByRole`: a role and how many users hold it. */
  datatype RoleEntry = RoleEntry(name: string, count: nat)

  /** The number of users whose role is exactly `role` (case-sensitive). */
  function RoleOccurrences(users: Store, role: string): nat {
    if |users| == 0 then 0
    else RoleOccurrences(users[..|users| - 1], role) + (if users[|users| - 1].role == role then 1 else 0)
  }

  /** The distinct roles present in the store. */
  function RoleSet(users: Store): set<string> {
    set i | 0 <= i < |users| :: users[i].role
  }

  function NameSet(entries: seq<RoleEntry>): set<string> {
    set i | 0 <= i < |entries| :: entries[i].name
  }

  predicate DistinctNames(entries: seq<RoleEntry>) {
    forall i, j :: 0 <= i < j < |entries| ==> entries[i].name != entries[j].name
  }

  function SumCounts(entries: seq<RoleEntry>): nat {
    if |entries| == 0 then 0 else entries[0].count + SumCounts(entries[1..])
  }

  lemma {:induction false} NameSetCons(x: RoleEntry, rest: seq<RoleEntry>)
    ensures NameSet([x] + rest) == {x.name} + NameSet(rest)
  {
    var s := [x] + rest;
    forall n | n in NameSet(s)
      ensures n in {x.name} + NameSet(rest)
    {
      var i :| 0 <= i < |s| && s[i].name == n;
      if i > 0 {
        assert rest[i - 1].name == n;
      }
    }
    forall n | n in NameSet(rest)
      ensures n in NameSet(s)
    {
      var i :| 0 <= i < |rest| && rest[i].name == n;
      assert s[i + 1].name == n;
    }
    assert s[0].name == x.name;
  }

  lemma {:induction false} DistinctNamesCons(x: RoleEntry, rest: seq<RoleEntry>)
    ensures DistinctNames([x] + rest) <==> x.name !in NameSet(rest) && DistinctNames(rest)
  {
    var s := [x] + rest;
    NameSetCons(x, rest);
    if DistinctNames(s) {
      forall i, j | 0 <= i < j < |rest|
        ensures rest[i].name != rest[j].name
      {
        assert s[i + 1] == rest[i] && s[j + 1] == rest[j];
      }
      forall k | 0 <= k < |rest|
        ensures rest[k].name != x.name
      {
        assert s[0] == x && s[k + 1] == rest[k];
      }
    }
    if x.name !in NameSet(rest) && DistinctNames(rest) {
      forall i, j | 0 <= i < j < |s|
        ensures s[i].name != s[j].name
      {
        if i == 0 {
          assert s[j] == rest[j - 1];
          assert rest[j - 1].name in NameSet(rest);
        } else {
          assert s[i] == rest[i - 1] && s[j] == rest[j - 1];
        }
      }
    }
  }

  lemma {:induction false} RoleSetSnoc(users: Store)
    requires |users| > 0
    ensures RoleSet(users) == RoleSet(users[..|users| - 1]) + {users[|users| - 1].role}
  {
    var prefix := users[..|users| - 1];
    forall n | n in RoleSet(users)
      ensures n in RoleSet(prefix) + {users[|users| - 1].role}
    {
      var i :| 0 <= i < |users| && users[i].role == n;
      if i < |prefix| {
        assert prefix[i].role == n;
      }
    }
    forall n | n in RoleSet(prefix)
      ensures n in RoleSet(users)
    {
      var i :| 0 <= i < |prefix| && prefix[i].role == n;
      assert users[i].role == n;
    }
    assert users[|users| - 1].role in RoleSet(users);
  }

  /** A role nobody holds occurs zero times. */
  lemma {:induction false} OccurrencesOutsideRoleSet(users: Store, role: string)
    requires role !in RoleSet(users)
    ensures RoleOccurrences(users, role) == 0
  {
    if |users| > 0 {
      RoleSetSnoc(users);
      OccurrencesOutsideRoleSet(users[..|users| - 1], role);
    }
  }

  /** One step of the `reduce`: `acc[role] = (acc[role] || 0) + 1`, new keys going last. */
  function Tally(acc: seq<RoleEntry>, role: string): (r: seq<RoleEntry>)
    requires DistinctNames(acc)
    ensures DistinctNames(r)
    ensures NameSet(r) == NameSet(acc) + {role}
    ensures |r| == if role in NameSet(acc) then |acc| else |acc| + 1
    ensures forall i :: 0 <= i < |acc| ==>
              r[i] == if acc[i].name == role then acc[i].(count := acc[i].count + 1) else acc[i]
    ensures role !in NameSet(acc) ==> r[|acc|] == RoleEntry(role, 1)
  {
    if |acc| == 0 then
      NameSetCons(RoleEntry(role, 1), []);
      [RoleEntry(role, 1)]
    else
      assert acc == [acc[0]] + acc[1..];
      NameSetCons(acc[0], acc[1..]);
      DistinctNamesCons(acc[0], acc[1..]);
      if acc[0].name == role then
        var r := [acc[0].(count := acc[0].count + 1)] + acc[1..];
        NameSetCons(r[0], acc[1..]);
        DistinctNamesCons(r[0], acc[1..]);
        r
      else
        var rest := Tally(acc[1..], role);
        var r := [acc[0]] + rest;
        NameSetCons(acc[0], rest);
        DistinctNamesCons(acc[0], rest);
        r
  }

  /** Each tally step adds exactly one to the total of the counts. */
  lemma {:induction false} TallySum(acc: seq<RoleEntry>, role: string)
    requires DistinctNames(acc)
    ensures SumCounts(Tally(acc, role)) == SumCounts(acc) + 1
  {
    if |acc| > 0 && acc[0].name != role {
      TallySum(acc[1..], role);
      assert Tally(acc, role)[1..] == Tally(acc[1..], role);
    } else if |acc| > 0 {
      assert Tally(acc, role)[1..] == acc[1..];
    }
  }

  /** `getUserCountByRole`: the `reduce` over the store, as the object's entries in insertion order. */
  function CountByRole(users: Store): (r: seq<RoleEntry>)
    ensures DistinctNames(r)
    ensures NameSet(r) == RoleSet(users)
    ensures forall i :: 0 <= i < |r| ==> r[i].count == RoleOccurrences(users, r[i].name) && r[i].count >= 1
    ensures SumCounts(r) == |users|
  {
    if |users| == 0 then []
    else
      var prefix := users[..|users| - 1];
      var role := users[|users| - 1].role;
      var acc := CountByRole(prefix);
      var r := Tally(acc, role);
      RoleSetSnoc(users);
      CountByRoleStep(users, role, acc, r);
      TallySum(acc, role);
      r
  }

  /** The counts after tallying the last user's role are the occurrences in the whole store. */
  lemma {:induction false} CountByRoleStep(users: Store, role: string, acc: seq<RoleEntry>, r: seq<RoleEntry>)
    requires |users| > 0 && role == users[|users| - 1].role
    requires DistinctNames(acc) && NameSet(acc) == RoleSet(users[..|users| - 1])
    requires forall i :: 0 <= i < |acc| ==> acc[i].count == RoleOccurrences(users[..|users| - 1], acc[i].name)
    requires forall i :: 0 <= i < |acc| ==> acc[i].count >= 1
    requires r == Tally(acc, role)
    ensures forall i :: 0 <= i < |r| ==> r[i].count == RoleOccurrences(users, r[i].name) && r[i].count >= 1
  {
    var prefix := users[..|users| - 1];
    forall i | 0 <= i < |r|
      ensures r[i].count == RoleOccurrences(users, r[i].name) && r[i].count >= 1
    {
      assert RoleOccurrences(users, r[i].name)
        == RoleOccurrences(prefix, r[i].name) + (if role == r[i].name then 1 else 0);
      if i < |acc| {
        assert r[i].name == acc[i].name;
        assert acc[i].name in NameSet(acc);
      } else {
        assert r[i].name == role && role !in NameSet(acc);
        OccurrencesOutsideRoleSet(prefix, role);
      }
    }
  }

  /**
   The entries come in order of first appearance: whenever a user holds the role of a
   later entry, the role of every earlier entry already occurs before that user.
   */
  ghost predicate InFirstAppearanceOrder(entries: seq<RoleEntry>, users: Store) {
    forall i, j, k :: 0 <= i < j < |entries| && 0 <= k < |users| && users[k].role == entries[j].name ==>
      entries[i].name in RoleSet(users[..k])
  }

  lemma {:induction false} TallyKeepsFirstAppearanceOrder(prefix: Store, u: User, acc: seq<RoleEntry>)
    requires DistinctNames(acc) && NameSet(acc) == RoleSet(prefix)
    requires InFirstAppearanceOrder(acc, prefix)
    ensures InFirstAppearanceOrder(Tally(acc, u.role), prefix + [u])
  {
    var users := prefix + [u];
    var r := Tally(acc, u.role);
    var n := |users|;
    assert users[..n - 1] == prefix;
    RoleSetSnoc(users);
    forall i, j, k | 0 <= i < j < |r| && 0 <= k < n && users[k].role == r[j].name
      ensures r[i].name in RoleSet(users[..k])
    {
      assert r[i].name == acc[i].name;
      assert acc[i].name in NameSet(acc);
      if k < n - 1 {
        assert prefix[k] == users[k];
        assert users[k].role in RoleSet(prefix);
        assert j < |acc|;
        assert r[j].name == acc[j].name;
        assert prefix[..k] == users[..k];
      } else {
        assert users[..k] == prefix;
      }
    }
  }

  /** `getUserCountByRole` lists the roles in order of first appearance in the store. */
  lemma {:induction false} CountByRoleInFirstAppearanceOrder(users: Store)
    ensures InFirstAppearanceOrder(CountByRole(users), users)
  {
    if |users| > 0 {
      var prefix := users[..|users| - 1];
      var role := users[|users| - 1].role;
      CountByRoleInFirstAppearanceOrder(prefix);
      assert users == prefix + [users[|users| - 1]];
      TallyKeepsFirstAppearanceOrder(prefix, users[|users| - 1], CountByRole(prefix));
    }
  }
}
