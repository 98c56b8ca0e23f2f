# User store and about-page statistics, in Dafny

This project models the logic of a small Angular application that keeps five user
records in memory. It covers two pieces:

- **`DataService`** (`data.service.ts`). This is the user store: lookup by id, the
  active filter, the case-insensitive role filter, the name/email search, `addUser`,
  `updateUser`, `deleteUser`, `toggleUserStatus` and the count of users per role.
- **`AboutComponent`** (`about.component.ts`). These are the statistics the about page
  derives from a snapshot of the store: total, active and inactive counts, the number
  of distinct roles, the role distribution, the active percentage and the most common
  role.

The store is an immutable `seq<User>` (module `DataService`). Each mutating service
method becomes a pure function. It returns the new sequence together with what the
TypeScript method returns: the new user, the merged user or `None` (for `undefined`),
or the found flag. `findIndex`'s `-1` is `None`. `Partial<User>` is `UserPatch`, a
record of optional fields. The object spread `{ ...user, ...updates }` is `Merge`, in
which a field present in the patch wins. That includes `id`, as in the source.

The object built by `getUserCountByRole` is modelled as its list of entries in key
insertion order (`seq<RoleEntry>`). `getRoles` is that same list, because
`Object.entries` followed by the identity `map` gives it back unchanged. Each
statistic of the about page takes the snapshot as an argument (module `About`).
Helper modules:

- `Filtering`: the order-preserving `Array.prototype.filter`.
- `Text`: ASCII `toLowerCase` and `String.prototype.includes`.
- `Wrappers`: `Option`.
- `Seed`: the five seeded records and the figures the application shows for them.

Each operation is described by a property proved for every store:

- A lookup is described by the first position that matches (`IsFirstMatch`).
- Every filter is described by element multiplicities and by how it acts on
  concatenation. Two complementary filters split the store between them.
- Adding a user keeps ids unique.
- Updating twice with the same patch is the same as updating once.
- Deleting with unique ids makes the id unfindable.
- Toggling twice restores the store.
- The role counts are distinct, equal the occurrences, sum to the store size and
  follow first appearance.
- Active plus inactive is the total.
- The percentage is the nearest integer to 100·active/total.
- The most common role is a mode, and on a tie it is the one that appears first.

The service does not enforce unique ids on update. A patch carrying an `id` can
duplicate an existing id. So `UpdateUserIdempotent` requires that the patch leaves the
id alone. `DeleteUserRemovesId` assumes unique ids, because `deleteUser` removes only
the first match.

## Model

| member | source | states |
|---|---|---|
| `DataService.FindIndex` | Agent/src/app/services/data.service.ts:83 | `findIndex` by id gives the first position whose user has that id. It gives `None` (the source's -1) exactly when no user has the id. |
| `DataService.GetUserById` | Agent/src/app/services/data.service.ts:42-44 | Returns `None` exactly when no stored user has the id. Otherwise it returns the user at the first position holding that id. |
| `DataService.GetUserByIdUnique` | Agent/src/app/services/data.service.ts:42-44 | When ids are unique, looking up the id of any stored user returns exactly that user. |
| `DataService.ActiveUsers` | Agent/src/app/services/data.service.ts:50-52 | Every user occurs in the result as often as in the store if active, and not at all if inactive. |
| `DataService.ActiveUsersInStoreOrder` | Agent/src/app/services/data.service.ts:50-52 | The active filter keeps store order: filtering `a + b` gives the filtered `a` followed by the filtered `b`. |
| `DataService.UsersByRole` | Agent/src/app/services/data.service.ts:59-61 | The result holds exactly the users whose lowercased role equals the lowercased argument, with their multiplicities. |
| `DataService.UsersByRoleIgnoresCase` | Agent/src/app/services/data.service.ts:59-61 | Two role arguments that agree after lowercasing select the same users in the same order. |
| `DataService.UsersByRoleLowered` | Agent/src/app/services/data.service.ts:59-61 | Lowercasing the role argument beforehand selects the same users in the same order. |
| `DataService.UsersByRoleInStoreOrder` | Agent/src/app/services/data.service.ts:59-61 | The role filter keeps store order across concatenation. |
| `DataService.SearchUsers` | Agent/src/app/services/data.service.ts:123-129 | The result holds exactly the users whose lowercased name or lowercased email contains the lowercased term as a contiguous substring, with their multiplicities. |
| `DataService.SearchEmptyTermReturnsAll` | Agent/src/app/services/data.service.ts:123-129 | Searching for the empty term returns the whole store unchanged. |
| `DataService.SearchUsersInStoreOrder` | Agent/src/app/services/data.service.ts:123-129 | The search keeps store order across concatenation. |
| `DataService.MaxId` | Agent/src/app/services/data.service.ts:69 | `Math.max` over the ids of a non-empty store is an upper bound of every id and is itself the id of some user. |
| `DataService.AddUser` | Agent/src/app/services/data.service.ts:68-74 | The new store is the old one with the new user appended. The new user keeps the given name, email, role and flag. Its id is greater than every existing id and is exactly one more than some existing id. |
| `DataService.AddUserKeepsIdsUnique` | Agent/src/app/services/data.service.ts:68-74 | If the ids were unique before `addUser`, they are unique after it. |
| `DataService.Merge` | Agent/src/app/services/data.service.ts:85 | The spread `{ ...user, ...updates }`: every field the patch carries holds the patch's value in the result, and every field it does not carry keeps the user's value. The result equals the user exactly when every field the patch carries already agrees with it. |
| `DataService.MergeIdempotent` | Agent/src/app/services/data.service.ts:85 | Spreading the same patch a second time changes nothing. |
| `DataService.UpdateUser` | Agent/src/app/services/data.service.ts:82-90 | With no match, the store is unchanged and the result is `None`. Otherwise only the first matching position is replaced, by the field-wise merge in which the patch wins, and that merged user is returned. The length and every other position are unchanged. |
| `DataService.UpdateUserIdempotent` | Agent/src/app/services/data.service.ts:82-90 | Applying the same patch twice equals applying it once, when the patch does not move the user to another id. |
| `DataService.DeleteUser` | Agent/src/app/services/data.service.ts:97-105 | Reports `true` exactly when some user has the id. On `true` it splices out exactly the first match, and the others keep their order. On `false` the store is unchanged. |
| `DataService.DeleteUserRemovesId` | Agent/src/app/services/data.service.ts:97-105 | When ids are unique, a lookup of the deleted id then returns `None`. Ids stay unique, and the length drops by one exactly when the id was found. |
| `DataService.ToggleUserStatus` | Agent/src/app/services/data.service.ts:111-116 | Negates `isActive` of the first user with the id and changes nothing else: not that user's other fields, and no other user. If the id is absent, nothing changes. |
| `DataService.ToggleTwiceRestores` | Agent/src/app/services/data.service.ts:111-116 | Toggling the same id twice gives back the original store. |
| `DataService.Tally` | Agent/src/app/services/data.service.ts:137 | One reduce step increments the entry for the role if there is one, or else appends it with count 1. The names stay distinct and no other entry changes. |
| `DataService.TallySum` | Agent/src/app/services/data.service.ts:136-139 | Each reduce step adds exactly one to the sum of the counts. |
| `DataService.CountByRole` | Agent/src/app/services/data.service.ts:135-140 | The keys are exactly the distinct roles present, with no duplicates. Each count equals the number of users holding that exact (case-sensitive) role and is at least 1. The counts sum to the number of users. |
| `DataService.CountByRoleInFirstAppearanceOrder` | Agent/src/app/services/data.service.ts:135-140 | The keys come in order of first appearance. Wherever a later key's role occurs in the store, every earlier key's role has already occurred before that position. |
| `Filtering.Filter` | Agent/src/app/services/data.service.ts:51 | `Array.prototype.filter` keeps each element that satisfies the predicate, as often as it occurs, and drops the others. |
| `Filtering.FilterPartition` | Agent/src/app/components/about/about.component.ts:184-194 | Two complementary filters together account for every element exactly once: the multisets of their results add up to the multiset of the input, and so do the lengths. |
| `Text.Lower` | Agent/src/app/services/data.service.ts:60 | `toLowerCase` keeps the length, lowercases each ASCII capital in place and leaves no capital letter in the result. |
| `Text.Includes` | Agent/src/app/services/data.service.ts:126-127 | `includes` holds exactly when the term occurs at some position of the string. |
| `About.TotalUsers` | Agent/src/app/components/about/about.component.ts:176-178 | The total is 0 exactly when the snapshot is empty. |
| `About.TotalIsSumOfRoleCounts` | Agent/src/app/components/about/about.component.ts:176-178 | The total equals the sum of the per-role counts of `getUserCountByRole`. |
| `About.ActiveCount` | Agent/src/app/components/about/about.component.ts:184-186 | The number of active users is at most the total. It is 0 exactly when no user is active. |
| `About.InactiveCount` | Agent/src/app/components/about/about.component.ts:192-194 | The number of inactive users is at most the total. It is 0 exactly when every user is active. |
| `About.ActiveInactivePartition` | Agent/src/app/components/about/about.component.ts:176-194 | Active plus inactive equals `getTotalUsers` (the snapshot's length). The active count equals the total exactly when every user is active. |
| `About.RoleCount` | Agent/src/app/components/about/about.component.ts:200-203 | The number of distinct roles is at most the total. It is 0 exactly when the snapshot is empty. |
| `About.Roles` | Agent/src/app/components/about/about.component.ts:209-215 | There is one entry per distinct role, so the length equals `getRoleCount`. Names are distinct, each count is that role's number of users, and the counts sum to the total. |
| `About.ActivePercentage` | Agent/src/app/components/about/about.component.ts:221-224 | Returns 0 for an empty snapshot and always lies in 0..100. Otherwise it is the integer nearest to 100·active/total, halves rounding up as `Math.round` does on the exact ratio. |
| `About.ActivePercentageExtremes` | Agent/src/app/components/about/about.component.ts:221-224 | Everyone active gives 100. Nobody active gives 0. |
| `About.MostCommonFrom` | Agent/src/app/components/about/about.component.ts:234-236 | The reduce with strict `>` ends on an entry whose count is at least every count, with every earlier entry's count strictly smaller. |
| `About.MostCommonRole` | Agent/src/app/components/about/about.component.ts:230-237 | Returns "N/A" for an empty snapshot. Otherwise it returns the name of the earliest entry with the largest count. |
| `About.MostCommonRoleIsModal` | Agent/src/app/components/about/about.component.ts:230-237 | On a non-empty snapshot the result is a present role. No role is held by more users. Of the roles tied with it, the result is the one that appears first in the store. |
| `Seed.SeedAddGetsIdSix` | Agent/src/app/services/data.service.ts:16-22 | Adding a user to the five seeded records gives it id 6. |
| `Seed.SeedActiveFigures` | Agent/src/app/services/data.service.ts:16-22 | The seeded store has 5 users, 4 active and 1 inactive, and an active percentage of 80. |
| `Seed.SeedRoleFigures` | Agent/src/app/services/data.service.ts:16-22 | The seeded store has 5 distinct roles, each held once, listed in seeding order. The most common role is "Admin". |

## Left out

- The reactive publication is not modelled: `BehaviorSubject`, `users$`, `getUsers` and the `next` calls after each mutation. Neither is the `subscribe` in `loadUserData`. They only hand the current array to subscribers, and the model passes the snapshot explicitly.
- Aliasing between the published array and the store's own array is not modelled. Each statistic takes the snapshot it is computed on. `getRoles` reads the service's array, and the model gives it the same snapshot.
- The home page and the application shell are not part of this model. They hold UI state, a `setTimeout` delay and routing. The home page's percentage is unrounded floating-point division.
- Lowercasing covers ASCII letters only. Unicode `toLowerCase` is not modelled.
- `About.ActivePercentage`: it rounds the exact rational 100·active/total. It does not model the floating-point product `active / total * 100`. The two differ whenever the exact value sits on a half but the double falls just below it. With 23 active users out of 40, the double is `57.49999999999999`, so `Math.round` gives 57, but the model gives 58. The ratios 29/200 (14 against 15) and 57/200 (28 against 29) behave the same way.
- `DataService.AddUser`: requires a non-empty store. On an empty store, `Math.max()` with no arguments is `-Infinity`, and `-Infinity + 1` is again `-Infinity`. So the first user added to an empty store gets id `-Infinity`, and so does every user added after it, so ids stop being unique.
- Ids are unbounded integers. JavaScript numbers that are not integers, or that exceed 2^53, are not modelled.
- `DataService.CountByRole`: keys are kept in order of first appearance. JavaScript orders integer-like keys (a role named "42") numerically before the others. Keys that clash with `Object.prototype` members (a role named "__proto__") are not modelled either.
- `DataService.UpdateUser`: a patch field explicitly set to `undefined` is treated as absent. The spread would copy `undefined` into the record.
- `About.MostCommonRole`: its contract states only that an empty snapshot gives "N/A", not the converse. A role that is literally named "N/A" is returned as that same string.
- `Seed.SeedActiveFigures`: it states the number of active users of the seed, not the list itself.
