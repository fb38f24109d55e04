/**
  Whether a system role keeps an active holder. Suspending, deleting and removing a role each count
  holders in another way before they go ahead, and only the first count is the right one.
 */
module IdentityRoles {
  import opened Identity
  import opened IdentityTheorems
  import opened Text
  import opened Wrappers

  // ----- What the counts mean -----

  /** No system role of the user would be left without a holder that is not deleted. */
  predicate OthersRemain(s: Store, userId: Id, now: int) {
    forall role :: role in SystemRoles(s, userId, now) ==> UndeletedHolders(s, role, now) != {userId}
  }

  lemma LastUndeletedHolderIff(s: Store, userId: Id, now: int)
    requires userId in s.users && !IsDeleted(s.users[userId])
    ensures IsLastUndeletedHolder(s, userId, now) <==> !OthersRemain(s, userId, now)
  {
    forall role | role in SystemRoles(s, userId, now)
      ensures |UndeletedHolders(s, role, now)| <= 1 <==> UndeletedHolders(s, role, now) == {userId}
    {
      HoldsItsRole(s, userId, role, now);
      OneElement(UndeletedHolders(s, role, now), userId);
    }
  }

  lemma HolderOfSystemRole(s: Store, userId: Id, role: Id, now: int)
    requires userId in Assignees(s, role, now) && IsSystemRole(s, role)
    ensures role in SystemRoles(s, userId, now)
  {
    assert Assignment(userId, role) in s.assignments;
  }

  // ----- One step -----

  /** A suspension or ban never takes a system role's last active holder. */
  lemma StatusChangeKeepsAHolder(
    s: Store, userId: Id, next: ManagedStatus, until: Option<int>, now: int, role: Id)
    requires IsSystemRole(s, role) && ActiveHolders(s, role, now) != {}
    requires StatusChanged(s, userId, next, until, now).Ok?
    ensures ActiveHolders(StatusChanged(s, userId, next, until, now).value, role, now) != {}
  {
    var t := StatusChanged(s, userId, next, until, now).value;
    StatusChangeWrites(s, userId, next, until, now);
    var holder :| holder in ActiveHolders(s, role, now);
    if holder == userId && next != Active {
      HolderOfSystemRole(s, userId, role, now);
      LastActiveHolderIff(s, userId, now);
      var other :| other in ActiveHolders(s, role, now) && other != userId;
      assert other in ActiveHolders(t, role, now);
    } else {
      assert holder in ActiveHolders(t, role, now);
    }
  }

  /** After a deletion that takes effect exactly the deleted user is no holder any more. */
  lemma DeletionRemovesHolder(s: Store, actor: Id, userId: Id, now: int, role: Id)
    requires DeleteUser(s, actor, userId, now).Ok? && !IsDeleted(s.users[userId])
    ensures ActiveHolders(DeleteUser(s, actor, userId, now).value, role, now) == ActiveHolders(s, role, now) - {userId}
  {
    hide RevokeActive, IsLastUndeletedHolder;
    var t := DeleteUser(s, actor, userId, now).value;
    assert t.users == s.users[userId := t.users[userId]] && t.assignments == s.assignments;
    hide DeleteUser;
    assert Assignees(t, role, now) == Assignees(s, role, now);
  }

  /** A deletion takes it exactly if holders who are not deleted, active or not, remain for each of the user's roles. */
  lemma DeletionStrandsIff(s: Store, actor: Id, userId: Id, now: int, role: Id)
    requires IsSystemRole(s, role) && ActiveHolders(s, role, now) != {}
    ensures ActiveHolders(Next(s, DeleteUserStep(actor, userId, now)), role, now) == {}
       <==> actor != userId && ActiveHolders(s, role, now) == {userId} && OthersRemain(s, userId, now)
  {
    hide RevokeActive, IsLastUndeletedHolder, OthersRemain;
    HoldersAreActive(s, role, now);
    hide ActiveHolders;
    if userId in s.users && !IsDeleted(s.users[userId]) {
      LastUndeletedHolderIff(s, userId, now);
      if DeleteUser(s, actor, userId, now).Ok? {
        DeletionRemovesHolder(s, actor, userId, now, role);
      }
    }
  }

  lemma HoldersAreActive(s: Store, role: Id, now: int)
    ensures forall u :: u in ActiveHolders(s, role, now) ==>
              u in s.users && IsActive(s.users[u]) && u in Assignees(s, role, now)
  {
  }

  /** After a removal exactly the one user is not assigned exactly the one role any more. */
  lemma RemovalRemovesHolder(s: Store, actor: Id, userId: Id, roleId: Id, now: int, role: Id)
    requires RemoveRole(s, actor, userId, roleId, now).Ok?
    ensures ActiveHolders(RemoveRole(s, actor, userId, roleId, now).value, role, now)
         == ActiveHolders(s, role, now) - if role == roleId then {userId} else {}
  {
    var t := RemoveRole(s, actor, userId, roleId, now).value;
    forall u | u in Assignees(s, role, now) && (u != userId || role != roleId) ensures u in Assignees(t, role, now) {
      assert Assignment(u, role) in t.assignments;
    }
  }

  /** Removing the role takes it exactly if anybody else, even somebody deleted, is assigned the role. */
  lemma RemovalStrandsIff(s: Store, actor: Id, userId: Id, roleId: Id, now: int, role: Id)
    requires IsSystemRole(s, role) && ActiveHolders(s, role, now) != {}
    ensures ActiveHolders(Next(s, RemoveRoleStep(actor, userId, roleId, now)), role, now) == {}
       <==> && roleId == role && actor != userId && ActiveHolders(s, role, now) == {userId}
            && Assignees(s, role, now) != {userId}
  {
    HoldersAreActive(s, role, now);
    if RemoveRole(s, actor, userId, roleId, now).Ok? {
      RemovalRemovesHolder(s, actor, userId, roleId, now, role);
    }
    if ActiveHolders(s, role, now) == {userId} {
      assert userId in ActiveHolders(s, role, now);
      assert Assignment(userId, role) in s.assignments;
      OneElement(Assignees(s, role, now), userId);
    }
    hide ActiveHolders, Assignees;
  }

  /** The steps that take a system role's last active holder, by what can be looked up before them. */
  predicate Strands(s: Store, step: Step, role: Id) {
    match step
    case DeleteUserStep(actor, userId, now) =>
      actor != userId && ActiveHolders(s, role, now) == {userId} && OthersRemain(s, userId, now)
    case RemoveRoleStep(actor, userId, roleId, now) =>
      && roleId == role && actor != userId && ActiveHolders(s, role, now) == {userId}
      && Assignees(s, role, now) != {userId}
    case _ => false
  }

  /** Steps that compare expiries do so at the given time. */
  predicate ClockIs(step: Step, now: int) {
    match step
    case ChangeStatusStep(_, _, _, _, _, at) => at == now
    case DeleteUserStep(_, _, at) => at == now
    case AssignRoleStep(_, _, _, at) => at == now
    case RemoveRoleStep(_, _, _, at) => at == now
    case _ => true
  }

  /** Whoever holds the role still does, and is as active as before. */
  predicate KeepsHolders(s: Store, t: Store, role: Id, now: int) {
    ActiveHolders(s, role, now) <= ActiveHolders(t, role, now)
  }

  lemma AssignmentKeepsHolders(s: Store, step: Step, role: Id, now: int)
    requires step.AssignRoleStep? || step.BootstrapStep?
    requires ClockIs(step, now)
    ensures KeepsHolders(s, Next(s, step), role, now)
  {
    var t := Next(s, step);
    forall u | u in ActiveHolders(s, role, now) ensures u in ActiveHolders(t, role, now) {
      assert Assignment(u, role) in t.assignments;
      assert u in Assignees(t, role, now);
    }
  }

  predicate ChangesHolders(step: Step) {
    || step.ChangeStatusStep? || step.DeleteUserStep? || step.RemoveRoleStep? || step.AssignRoleStep?
    || step.BootstrapStep?
  }

  /** No other step ends anybody's activity or an assignment. */
  lemma OtherStepsKeepHolders(s: Store, step: Step, role: Id, now: int)
    requires !ChangesHolders(step)
    ensures KeepsHolders(s, Next(s, step), role, now)
  {
    hide Next;
    OtherStepsWriteNoAssignments(s, step);
    OtherStepsKeepActivity(s, step);
    assert Assignees(Next(s, step), role, now) == Assignees(s, role, now);
  }

  predicate WritesUsers(step: Step) {
    || step.RegisterStep? || step.ConsumeVerificationStep? || step.FinishChangeStep? || step.ConsumeResetStep?
    || step.RecoverSuspensionStep?
  }

  /** Whoever is active still is. */
  predicate KeepsActivity(s: Store, t: Store) {
    forall u :: u in s.users && IsActive(s.users[u]) ==> u in t.users && IsActive(t.users[u])
  }

  lemma OtherStepsKeepActivity(s: Store, step: Step)
    requires !ChangesHolders(step)
    ensures KeepsActivity(s, Next(s, step))
  {
    hide Next;
    if WritesUsers(step) {
      UserWritesKeepActivity(s, step);
    } else if IsAdministration(step) {
      AdministrationKeepsActivity(s, step);
    } else {
      OtherStepsWriteNoUsers(s, step);
    }
  }

  lemma UserWritesKeepActivity(s: Store, step: Step)
    requires WritesUsers(step)
    ensures KeepsActivity(s, Next(s, step))
  {
    hide ConsumeAll, RevokeActive, Acceptable, IssueVerification, BeginSession, FinishSession, BeginChange, IssueReset,
         ChangeStatus, AdminVerifyEmail, DeleteUser, RestoreUser, AdminRevokeSessions, Bootstrap, AssignRole,
           RemoveRole;
  }

  lemma AdministrationKeepsActivity(s: Store, step: Step)
    requires step.AdminVerifyEmailStep? || step.RestoreUserStep? || step.AdminRevokeSessionsStep?
    ensures KeepsActivity(s, Next(s, step))
  {
    hide Register, IssueVerification, ConsumeVerification, BeginSession, FinishSession, BeginChange, FinishChange,
         IssueReset, ConsumeReset, ChangeStatus, DeleteUser, Bootstrap, AssignRole, RemoveRole, RevokeActive, RemoveAll;
  }

  lemma OtherStepsWriteNoUsers(s: Store, step: Step)
    requires !ChangesHolders(step) && !WritesUsers(step) && !IsAdministration(step)
    ensures Next(s, step).users == s.users
  {
    hide ConsumeAll, RevokeActive, Acceptable, Assignees;
  }

  /**
    Exactly which steps leave a system role without an active holder, at the time of the step: some
    deletions and some removals, and nothing else.
   */
  lemma StepStrandsIff(s: Store, step: Step, role: Id, now: int)
    requires IsSystemRole(s, role) && ActiveHolders(s, role, now) != {} && ClockIs(step, now)
    ensures IsSystemRole(Next(s, step), role)
    ensures ActiveHolders(Next(s, step), role, now) == {} <==> Strands(s, step, role)
  {
    hide Next, Outcome, ActiveHolders, Assignees, OthersRemain, IsSystemRole;
    RolesStay(s, step, role);
    match step {
      case DeleteUserStep(actor, userId, _) => DeletionStrandsIff(s, actor, userId, now, role);
      case RemoveRoleStep(actor, userId, roleId, _) => RemovalStrandsIff(s, actor, userId, roleId, now, role);
      case ChangeStatusStep(_, _, _, _, _, _) => StatusStepKeepsAHolder(s, step, role, now);
      case AssignRoleStep(_, _, _, _) => AssignmentKeepsHolders(s, step, role, now);
      case BootstrapStep(_, _, _) => AssignmentKeepsHolders(s, step, role, now);
      case _ => OtherStepsKeepHolders(s, step, role, now);
    }
  }

  lemma StatusStepKeepsAHolder(s: Store, step: Step, role: Id, now: int)
    requires step.ChangeStatusStep? && step.now == now
    requires IsSystemRole(s, role) && ActiveHolders(s, role, now) != {}
    ensures ActiveHolders(Next(s, step), role, now) != {}
  {
    hide StatusChanged, StatusRequestError, ActiveHolders;
    if StatusChanged(s, step.userId, step.status, step.until, now).Ok? {
      StatusChangeKeepsAHolder(s, step.userId, step.status, step.until, now, role);
    }
  }

  predicate WritesAssignments(step: Step) {
    step.AssignRoleStep? || step.RemoveRoleStep? || step.BootstrapStep?
  }

  lemma OtherStepsWriteNoAssignments(s: Store, step: Step)
    requires !WritesAssignments(step)
    ensures Next(s, step).assignments == s.assignments
  {
    if IsAdministration(step) {
      hide Next;
      AdministrationWrites(s, step);
    } else {
      hide ConsumeAll, RevokeActive, Acceptable, ChangeStatus, AdminVerifyEmail, DeleteUser, RestoreUser,
           AdminRevokeSessions, AssignRole, RemoveRole, Bootstrap;
    }
  }

  lemma OtherStepsWriteNoRoles(s: Store, step: Step)
    requires !step.SeedRbacStep? && !step.AddRoleStep?
    ensures Next(s, step).roles == s.roles
  {
    if IsAdministration(step) {
      hide Next;
      AdministrationWrites(s, step);
    } else {
      hide ConsumeAll, RevokeActive, Acceptable, ChangeStatus, AdminVerifyEmail, DeleteUser, RestoreUser,
           AdminRevokeSessions, IsSystemRole, Assignees;
    }
  }

  /** Roles are only added. */
  lemma RolesStay(s: Store, step: Step, role: Id)
    requires IsSystemRole(s, role)
    ensures IsSystemRole(Next(s, step), role)
  {
    if step.SeedRbacStep? || step.AddRoleStep? {
      hide Register, IssueVerification, ConsumeVerification, BeginSession, FinishSession, BeginChange, FinishChange,
           IssueReset, ConsumeReset, ChangeStatus, AdminVerifyEmail, DeleteUser, RestoreUser, AdminRevokeSessions,
           Bootstrap, AssignRole, RemoveRole;
    } else {
      hide Next;
      OtherStepsWriteNoRoles(s, step);
    }
  }

  // ----- Runs -----

  /** Nobody holds the role for a limited time. */
  predicate Permanent(s: Store, role: Id) {
    forall a :: a in s.assignments && a.roleId == role ==> s.assignments[a].None?
  }

  predicate AssignsPermanently(step: Step, role: Id) {
    step.AssignRoleStep? && step.roleId == role ==> step.until.None?
  }

  lemma StepKeepsPermanent(s: Store, step: Step, role: Id)
    requires Permanent(s, role) && AssignsPermanently(step, role)
    ensures Permanent(Next(s, step), role)
  {
    if WritesAssignments(step) {
      hide Register, IssueVerification, ConsumeVerification, BeginSession, FinishSession, BeginChange, FinishChange,
           IssueReset, ConsumeReset, ChangeStatus, AdminVerifyEmail, DeleteUser, RestoreUser, AdminRevokeSessions,
           Assignees;
    } else {
      hide Next;
      OtherStepsWriteNoAssignments(s, step);
    }
  }

  lemma HoldersAtAnyTime(s: Store, role: Id, now: int, other: int)
    requires Permanent(s, role)
    ensures Assignees(s, role, now) == Assignees(s, role, other)
    ensures ActiveHolders(s, role, now) == ActiveHolders(s, role, other)
  {
  }

  function ClockOf(step: Step): (now: int)
    ensures ClockIs(step, now)
  {
    match step
    case ChangeStatusStep(_, _, _, _, _, at) => at
    case DeleteUserStep(_, _, at) => at
    case AssignRoleStep(_, _, _, at) => at
    case RemoveRoleStep(_, _, _, at) => at
    case _ => 0
  }

  /** The role has an active holder before each step of the run and after the last. */
  predicate AlwaysHeld(s: Store, steps: seq<Step>, role: Id, now: int)
    decreases |steps|
  {
    ActiveHolders(s, role, now) != {} && (steps != [] ==> AlwaysHeld(Next(s, steps[0]), steps[1..], role, now))
  }

  /** No step of the run takes the last active holder. */
  predicate NeverStranded(s: Store, steps: seq<Step>, role: Id)
    decreases |steps|
  {
    steps != [] ==> !Strands(s, steps[0], role) && NeverStranded(Next(s, steps[0]), steps[1..], role)
  }

  /**
    A system role that is only held permanently, and by somebody active, is so all along a run of
    any steps at any times if and only if no step of the run is a stranding deletion or removal.
   */
  lemma {:induction false} RoleStaysHeldIff(s: Store, steps: seq<Step>, role: Id, now: int)
    requires IsSystemRole(s, role) && Permanent(s, role) && ActiveHolders(s, role, now) != {}
    requires forall i :: 0 <= i < |steps| ==> AssignsPermanently(steps[i], role)
    ensures AlwaysHeld(s, steps, role, now) <==> NeverStranded(s, steps, role)
    decreases |steps|
  {
    hide Next, ActiveHolders, Strands, Permanent, IsSystemRole, AssignsPermanently;
    if steps != [] {
      var t := Next(s, steps[0]);
      var at := ClockOf(steps[0]);
      StepKeepsPermanent(s, steps[0], role);
      HoldersAtAnyTime(s, role, now, at);
      HoldersAtAnyTime(t, role, now, at);
      StepStrandsIff(s, steps[0], role, at);
      if ActiveHolders(t, role, now) != {} {
        RoleStaysHeldIff(t, steps[1..], role, now);
      }
    }
  }

  /** Assigning the role again sets when it ends, without any count: the last active holder can be given an end. */
  lemma ReassignedHolderExpires(s: Store, userId: Id, role: Id, end: int, now: int, later: int)
    requires ActiveHolders(s, role, now) == {userId} && later >= now
    requires AssignRole(s, userId, role, Some(end), now).Ok?
    ensures ActiveHolders(AssignRole(s, userId, role, Some(end), now).value, role, later) == {} <==> end <= later
  {
    var t := AssignRole(s, userId, role, Some(end), now).value;
    assert userId in ActiveHolders(s, role, now);
    assert forall u :: u in ActiveHolders(t, role, later) && u != userId ==> u in ActiveHolders(s, role, now);
    assert Assignment(userId, role) in t.assignments;
    if end > later {
      assert userId in Assignees(t, role, later);
      assert userId in ActiveHolders(t, role, later);
    }
  }

  // ----- A role lost -----

  /** Two users get the role; only the first has a verified address and is active. */
  const HELD_BY_TWO := [
    SeedRbacStep,
    RegisterStep("a", HASH, POLICY, "ta", 10),
    ConsumeVerificationStep("ta", 0),
    RegisterStep("b", HASH, POLICY, "tb", 10),
    AssignRoleStep("a", SUPER_ADMIN, None, 0),
    AssignRoleStep("b", SUPER_ADMIN, None, 0)]

  function OneUser(): Store {
    Store(map["a" := User(Active, None, None, 0, Some(0), HASH)], map[], map[], map[],
          map["ta" := Token("a", 10, Some(0))], map[], map[SUPER_ADMIN := true], map[], [])
  }

  function HeldByTwo(): Store {
    OneUser().(
      users := OneUser().users["b" := User(PendingVerification, None, None, 0, None, HASH)],
      verifications := OneUser().verifications["tb" := Token("b", 10, None)],
      assignments := map[Assignment("a", SUPER_ADMIN) := None, Assignment("b", SUPER_ADMIN) := None])
  }

  lemma OneUserIsReached()
    ensures Next(Next(Next(Initial(), HELD_BY_TWO[0]), HELD_BY_TWO[1]), HELD_BY_TWO[2]) == OneUser()
  {
    PasswordIsAcceptable();
    hide Acceptable;
    var s := Next(Next(Initial(), HELD_BY_TWO[0]), HELD_BY_TWO[1]);
    assert s.verifications == map["ta" := Token("a", 10, None)];
    assert ConsumeAll(s.verifications, "a", 0) == map["ta" := Token("a", 10, Some(0))];
  }

  lemma SecondHolderIsReached()
    ensures Next(Next(Next(OneUser(), HELD_BY_TWO[3]), HELD_BY_TWO[4]), HELD_BY_TWO[5]) == HeldByTwo()
  {
    PasswordIsAcceptable();
    hide Acceptable;
  }

  lemma HeldByTwoIsReached()
    ensures After(HELD_BY_TWO) == HeldByTwo()
  {
    OneUserIsReached();
    SecondHolderIsReached();
    hide Next, OneUser, HeldByTwo;
    var run := HELD_BY_TWO;
    assert run[..3] + run[3..] == run;
    RunConcat(Initial(), run[..3], run[3..]);
    ThreeSteps(Initial(), run[0], run[1], run[2]);
    ThreeSteps(OneUser(), run[3], run[4], run[5]);
    assert run[..3] == [run[0], run[1], run[2]] && run[3..] == [run[3], run[4], run[5]];
  }

  lemma ThreeSteps(s: Store, x: Step, y: Step, z: Step)
    ensures Run(s, [x, y, z]) == Next(Next(Next(s, x), y), z)
  {
    hide Next;
    assert [x, y, z][1..] == [y, z] && [y, z][1..] == [z] && [z][1..] == [];
    assert Run(s, [x, y, z]) == Run(Next(s, x), [y, z]) == Run(Next(Next(s, x), y), [z]);
  }

  /**
    The only active holder of a system role can be deleted, or lose the role, when a holder who is
    not active is counted too.
   */
  lemma LastActiveHolderCanBeLost()
    ensures var s := After(HELD_BY_TWO);
            && IsSystemRole(s, SUPER_ADMIN) && ActiveHolders(s, SUPER_ADMIN, 0) == {"a"}
            && ActiveHolders(Next(s, DeleteUserStep("c", "a", 0)), SUPER_ADMIN, 0) == {}
            && ActiveHolders(Next(s, RemoveRoleStep("c", "a", SUPER_ADMIN, 0)), SUPER_ADMIN, 0) == {}
  {
    HeldByTwoIsReached();
    var s := HeldByTwo();
    hide Next;
    assert Assignment("a", SUPER_ADMIN) in s.assignments && Assignment("b", SUPER_ADMIN) in s.assignments;
    assert "a" in Assignees(s, SUPER_ADMIN, 0) && "b" in Assignees(s, SUPER_ADMIN, 0);
    assert "a" in ActiveHolders(s, SUPER_ADMIN, 0) && "b" in UndeletedHolders(s, SUPER_ADMIN, 0);
    assert forall role :: role in SystemRoles(s, "a", 0) ==> role == SUPER_ADMIN;
    DeletionStrandsIff(s, "c", "a", 0, SUPER_ADMIN);
    RemovalStrandsIff(s, "c", "a", SUPER_ADMIN, 0, SUPER_ADMIN);
  }
}
