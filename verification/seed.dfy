/**
 The five records the store starts with, and the concrete figures the application
 shows for them.
 */
module Seed {
  import opened Filtering
  import opened DataService
  import About

  const John := User(1, "John Doe", "john@example.com", "Admin", true)
  const Jane := User(2, "Jane Smith", "jane@example.com", "User", true)
  const Bob := User(3, "Bob Johnson", "bob@example.com", "Manager", false)
  const Alice := User(4, "Alice Williams", "alice@example.com", "Developer", true)
  const Charlie := User(5, "Charlie Brown", "charlie@example.com", "Designer", true)

  function SeedUsers(): Store {
    [John, Jane, Bob, Alice, Charlie]
  }

  /** Adding a user to the seeded store gives it id 6. */
  lemma {:induction false} SeedAddGetsIdSix()
    ensures AddUser(SeedUsers(), NewUser("X", "x@x.com", "User", true)).1.id == 6
  {
  }

  lemma SeedActive1()
    ensures Filter([Charlie], IsActive) == [Charlie]
  {
    FilterCons(Charlie, [], IsActive);
    assert [Charlie] + [] == [Charlie];
  }

  lemma SeedActive2()
    ensures Filter([Alice, Charlie], IsActive) == [Alice, Charlie]
  {
    SeedActive1();
    FilterCons(Alice, [Charlie], IsActive);
    assert [Alice] + [Charlie] == [Alice, Charlie];
  }

  lemma SeedActive3()
    ensures Filter([Bob, Alice, Charlie], IsActive) == [Alice, Charlie]
  {
    SeedActive2();
    FilterCons(Bob, [Alice, Charlie], IsActive);
    assert [Bob] + [Alice, Charlie] == [Bob, Alice, Charlie];
  }

  lemma SeedActive4()
    ensures Filter([Jane, Bob, Alice, Charlie], IsActive) == [Jane, Alice, Charlie]
  {
    SeedActive3();
    FilterCons(Jane, [Bob, Alice, Charlie], IsActive);
    assert [Jane] + [Bob, Alice, Charlie] == [Jane, Bob, Alice, Charlie];
  }

  lemma SeedActive5()
    ensures Filter([John] + [Jane, Bob, Alice, Charlie], IsActive) == [John] + [Jane, Alice, Charlie]
  {
    SeedActive4();
    FilterCons(John, [Jane, Bob, Alice, Charlie], IsActive);
  }

  lemma SeedActiveList()
    ensures |Filter([John, Jane, Bob, Alice, Charlie], IsActive)| == 4
  {
    SeedActive5();
    assert [John] + [Jane, Bob, Alice, Charlie] == [John, Jane, Bob, Alice, Charlie];
  }

  lemma SeedActiveCount()
    ensures About.ActiveCount(SeedUsers()) == 4 && |SeedUsers()| == 5
  {
    SeedActiveList();
    assert SeedUsers() == [John, Jane, Bob, Alice, Charlie];
  }

  lemma EightyPercent(a: nat, t: nat)
    requires a == 4 && t == 5
    ensures (200 * a + t) / (2 * t) == 80
  {
  }

  /** The seeded store has five users, four of them active, which the about page shows as 80 percent. */
  lemma {:induction false} SeedActiveFigures()
    ensures About.TotalUsers(SeedUsers()) == 5
    ensures |ActiveUsers(SeedUsers())| == 4
    ensures About.ActiveCount(SeedUsers()) == 4
    ensures About.InactiveCount(SeedUsers()) == 1
    ensures About.ActivePercentage(SeedUsers()) == 80
  {
    SeedActiveCount();
    About.ActiveInactivePartition(SeedUsers());
    EightyPercent(About.ActiveCount(SeedUsers()), |SeedUsers()|);
  }

  const AdminEntry := RoleEntry("Admin", 1)
  const UserEntry := RoleEntry("User", 1)
  const ManagerEntry := RoleEntry("Manager", 1)
  const DeveloperEntry := RoleEntry("Developer", 1)
  const DesignerEntry := RoleEntry("Designer", 1)

  lemma SeedTally1()
    ensures Tally([], "Admin") == [AdminEntry]
  {
  }

  lemma SeedTally2()
    ensures Tally([AdminEntry], "User") == [AdminEntry, UserEntry]
  {
    assert [AdminEntry][1..] == [];
  }

  lemma SeedTally3()
    ensures Tally([AdminEntry, UserEntry], "Manager") == [AdminEntry, UserEntry, ManagerEntry]
  {
    assert [AdminEntry, UserEntry][1..] == [UserEntry];
    assert [UserEntry][1..] == [];
  }

  lemma SeedTally4()
    ensures Tally([AdminEntry, UserEntry, ManagerEntry], "Developer")
      == [AdminEntry, UserEntry, ManagerEntry, DeveloperEntry]
  {
    assert [AdminEntry, UserEntry, ManagerEntry][1..] == [UserEntry, ManagerEntry];
    assert [UserEntry, ManagerEntry][1..] == [ManagerEntry];
    assert [ManagerEntry][1..] == [];
  }

  lemma SeedTally5()
    ensures Tally([AdminEntry, UserEntry, ManagerEntry, DeveloperEntry], "Designer")
      == [AdminEntry, UserEntry, ManagerEntry, DeveloperEntry, DesignerEntry]
  {
    assert [AdminEntry, UserEntry, ManagerEntry, DeveloperEntry][1..] == [UserEntry, ManagerEntry, DeveloperEntry];
    assert [UserEntry, ManagerEntry, DeveloperEntry][1..] == [ManagerEntry, DeveloperEntry];
    assert [ManagerEntry, DeveloperEntry][1..] == [DeveloperEntry];
    assert [DeveloperEntry][1..] == [];
  }

  lemma SeedCountByRole()
    ensures CountByRole(SeedUsers()) == [AdminEntry, UserEntry, ManagerEntry, DeveloperEntry, DesignerEntry]
  {
    SeedTally1();
    SeedTally2();
    SeedTally3();
    SeedTally4();
    SeedTally5();
    var s := SeedUsers();
    assert s[..4] == [John, Jane, Bob, Alice];
    assert s[..4][..3] == [John, Jane, Bob];
    assert s[..4][..3][..2] == [John, Jane];
    assert s[..4][..3][..2][..1] == [John];
    assert s[..4][..3][..2][..1][..0] == [];
    assert CountByRole([John]) == [AdminEntry];
    assert CountByRole([John, Jane]) == [AdminEntry, UserEntry];
    assert CountByRole([John, Jane, Bob]) == [AdminEntry, UserEntry, ManagerEntry];
    assert CountByRole([John, Jane, Bob, Alice]) == [AdminEntry, UserEntry, ManagerEntry, DeveloperEntry];
  }

  /** Each of the five seeded roles is held by exactly one user, so the first, "Admin", is the most common. */
  lemma {:induction false} SeedRoleFigures()
    ensures About.Roles(SeedUsers()) == [AdminEntry, UserEntry, ManagerEntry, DeveloperEntry, DesignerEntry]
    ensures About.RoleCount(SeedUsers()) == 5
    ensures About.MostCommonRole(SeedUsers()) == "Admin"
  {
    SeedCountByRole();
    var roles := About.Roles(SeedUsers());
    assert About.MostCommonFrom(roles, 0, 0) == 0;
  }
}
