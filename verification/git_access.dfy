/**
  The Git access decision engine (`Gitlab::GitAccess`).

  `Check` runs a fixed sequence of guards (protocol, active user, project
  readable, known command, Geo licence) and then dispatches on the command to
  the download, push or git-annex check. The Ruby code raises
  `UnauthorizedError` for a denial and rescues it once at the top; here every
  check returns an `Outcome` and the pipeline returns the first `Fail`.

  Everything the engine asks of other classes (`UserAccess`, `Guest`,
  `Gitlab::ProtocolAccess`, `Gitlab::Geo`, `License`, `Checks::ChangeAccess`,
  `EE::Gitlab::Deltas`, `Gitlab::ChangesList`, the size-error messages) is an
  injected answer in `Collaborators` or a field of `Project`.
*/
module GitAccess {
  import opened Wrappers
  import opened Strings

  const UPLOAD_MESSAGE := "You are not allowed to upload code for this project."
  const DOWNLOAD_MESSAGE := "You are not allowed to download code from this project."
  const DEPLOY_KEY_MESSAGE := "Deploy keys are not allowed to push code."
  const NO_REPO_MESSAGE := "A repository for this project does not exist yet."
  const BLOCKED_MESSAGE := "Your account has been blocked."
  const NOT_FOUND_MESSAGE := "The project you were looking for could not be found."
  const COMMAND_MESSAGE := "The command you're trying to execute is not allowed."
  const GEO_LICENSE_MESSAGE := "Your current license does not have GitLab Geo add-on enabled."
  const READ_ONLY_MESSAGE := "The repository is temporarily read-only. Please try again later."
  const GEO_PUSH_MESSAGE := "You can't push code on a secondary GitLab Geo node."
  const ANNEX_DISABLED_MESSAGE := "git-annex is disabled"
  const ANNEX_NO_ACCESS_MESSAGE := "You don't have access"
  const ANNEX_NO_REPO_MESSAGE := "Repository does not exist"
  const ANNEX_GEO_MESSAGE := "You can't use git-annex with a secondary GitLab Geo node."
  const ANNEX_NO_PERMISSION_MESSAGE := "You don't have permission"

  const DOWNLOAD_COMMANDS: seq<string> := ["git-upload-pack", "git-upload-archive"]
  const PUSH_COMMANDS: seq<string> := ["git-receive-pack"]
  const GIT_ANNEX_COMMANDS: seq<string> := ["git-annex-shell"]
  const ALL_COMMANDS: seq<string> := DOWNLOAD_COMMANDS + PUSH_COMMANDS + GIT_ANNEX_COMMANDS

  /** `Gitlab::Git::BLANK_SHA`, the new revision of a ref deletion. */
  const BLANK_SHA: string := "0000000000000000000000000000000000000000"

  const SYNCED_GIT_ANNEX := "refs/heads/synced/git-annex"
  const SYNCED_PREFIX := "refs/heads/synced/"

  type ProjectId = nat

  datatype User = User(id: nat, isAdmin: bool)

  /** The closed set of actors the engine distinguishes. `KeyActor` is a plain
      SSH key, whose owner may be missing; `NoActor` is Ruby's `nil`. */
  datatype Actor =
    | UserActor(user: User)
    | DeployKeyActor(projectIds: set<ProjectId>)
    | GeoNodeKeyActor
    | KeyActor(owner: Option<User>)
    | NoActor

  /** The authentication abilities granted to the session. */
  datatype Ability = DownloadCode | BuildDownloadCode | PushCode

  /** One `oldrev newrev ref` line of a push. */
  datatype Change = Change(oldrev: string, newrev: string, ref: string)

  /** `Gitlab::GitAccessStatus`. */
  datatype AccessStatus = AccessStatus(allowed: bool, message: string)

  /** The result of one check: the raised `UnauthorizedError` becomes `Fail`. */
  datatype Outcome = Pass | Fail(message: string)

  /** What the engine reads of the project. The size-error messages and the
      `changes_will_exceed_size_limit?` test are the project's answers. */
  datatype Project = Project(
    id: ProjectId,
    isPublic: bool,
    repositoryReadOnly: bool,
    repositoryExists: bool,
    aboveSizeLimit: bool,
    sizeLimitEnabled: bool,
    pushError: string,
    newChangesError: string,
    changesWillExceedSizeLimit: nat -> bool)

  /** Injected answers of the engine's collaborators for this request. The
      `user*` answers are about the user the actor resolves to. */
  datatype Collaborators = Collaborators(
    protocolAllowed: bool,
    userAllowed: bool,
    userCanReadProject: bool,
    userCanDownloadCode: bool,
    userCanBuildDownloadCode: bool,
    userCanPushCode: bool,
    guestCanReadProject: bool,
    guestCanDownloadCode: bool,
    geoEnabled: bool,
    geoSecondary: bool,
    geoLicenseAllows: bool,
    gitAnnexEnabled: bool,
    licenseBlocksChanges: bool,
    licenseMessage: bool -> string,
    changesList: string -> seq<Change>,
    changeAccess: Change -> AccessStatus,
    deltaSize: Change -> nat)

  // ---------------------------------------------------------------------------
  // Actor resolution and capability predicates

  /** `user`: the user behind the actor. */
  function UserOf(actor: Actor): (u: Option<User>)
    ensures u.Some? ==> actor.UserActor? || actor.KeyActor?
    ensures actor.UserActor? ==> u == Some(actor.user)
    ensures actor.KeyActor? ==> u == actor.owner
  {
    match actor
    case UserActor(user) => Some(user)
    case DeployKeyActor(_) => None
    case GeoNodeKeyActor => None
    case KeyActor(owner) => owner
    case NoActor => None
  }

  /** `deploy_key_can_read_project?`. */
  function DeployKeyCanReadProject(actor: Actor, project: Project): (r: bool)
    ensures r <==> actor.DeployKeyActor? && (project.isPublic || project.id in actor.projectIds)
  {
    if actor.DeployKeyActor? then
      if project.isPublic then true else project.id in actor.projectIds
    else
      false
  }

  /** `can_read_project?`. */
  function CanReadProject(actor: Actor, project: Project, c: Collaborators): (r: bool)
    ensures UserOf(actor).Some? ==> r == c.userCanReadProject
    ensures actor.DeployKeyActor? ==> (r <==> project.isPublic || project.id in actor.projectIds)
    ensures actor.GeoNodeKeyActor? ==> r
    ensures UserOf(actor).None? && !actor.DeployKeyActor? && !actor.GeoNodeKeyActor? ==> r == c.guestCanReadProject
  {
    if UserOf(actor).Some? then c.userCanReadProject
    else if actor.DeployKeyActor? then DeployKeyCanReadProject(actor, project)
    else if actor.GeoNodeKeyActor? then true
    else c.guestCanReadProject
  }

  /** `user_can_download_code?`. */
  function UserCanDownloadCode(abilities: set<Ability>, c: Collaborators): (r: bool)
    ensures r <==> DownloadCode in abilities && c.userCanDownloadCode
  {
    DownloadCode in abilities && c.userCanDownloadCode
  }

  /** `build_can_download_code?`. */
  function BuildCanDownloadCode(abilities: set<Ability>, c: Collaborators): (r: bool)
    ensures r <==> BuildDownloadCode in abilities && c.userCanBuildDownloadCode
  {
    BuildDownloadCode in abilities && c.userCanBuildDownloadCode
  }

  /** The capability a change to a protected branch needs (`protected_branch_action`). */
  datatype BranchAction =
    | ForcePushCodeToProtectedBranches
    | RemoveProtectedBranches
    | PushCodeAction
    | PushCodeToProtectedBranches

  /** `protected_branch_action`; the force-push test, the matching merge request
      and the two developer settings of the branch are injected answers. */
  function ProtectedBranchAction(newrev: string, forcedPush: bool, matchingMergeRequest: bool,
                                 developersCanMerge: bool, developersCanPush: bool): (a: BranchAction)
    ensures forcedPush ==> a == ForcePushCodeToProtectedBranches
    ensures !forcedPush && newrev == BLANK_SHA ==> a == RemoveProtectedBranches
    ensures !forcedPush && newrev != BLANK_SHA ==>
              (a == PushCodeAction <==> (matchingMergeRequest && developersCanMerge) || developersCanPush)
    ensures !forcedPush && newrev != BLANK_SHA && a != PushCodeAction ==> a == PushCodeToProtectedBranches
  {
    if forcedPush then ForcePushCodeToProtectedBranches
    else if newrev == BLANK_SHA then RemoveProtectedBranches
    else if matchingMergeRequest && developersCanMerge then PushCodeAction
    else if developersCanPush then PushCodeAction
    else PushCodeToProtectedBranches
  }

  // ---------------------------------------------------------------------------
  // git-annex branch sync

  /** One stripped line of a git-annex sync push. */
  predicate IsSyncLine(line: string)
  {
    EndsWith(line, SYNCED_GIT_ANNEX) || Contains(line, SYNCED_PREFIX)
  }

  /** `changes.lines.map(&:strip)`: each line of the raw change text,
      stripped; none keeps a line feed. */
  function StrippedLines(changes: string): (r: seq<string>)
    ensures |r| == |Lines(changes)|
    ensures forall i :: 0 <= i < |r| ==> r[i] == Strip(Lines(changes)[i]) && '\n' !in r[i]
  {
    var lines := Lines(changes);
    assert forall i :: 0 <= i < |lines| ==> '\n' !in Strip(lines[i]) by {
      forall i | 0 <= i < |lines| {
        StrippedLineHasNoLineFeed(lines[i]);
      }
    }
    seq(|lines|, i requires 0 <= i < |lines| => Strip(lines[i]))
  }

  /** `git_annex_branch_sync?`. */
  function GitAnnexBranchSync(annexEnabled: bool, changes: string): (r: bool)
    ensures r <==> annexEnabled && !IsBlank(changes) &&
                   forall i :: 0 <= i < |StrippedLines(changes)| ==>
                     IsBlank(StrippedLines(changes)[i]) || IsSyncLine(StrippedLines(changes)[i])
  {
    if !annexEnabled then false
    else if IsBlank(changes) then false
    else
      var lines := StrippedLines(changes);
      forall i :: 0 <= i < |lines| ==> IsBlank(lines[i]) || IsSyncLine(lines[i])
  }

  /** The `end_with?("refs/heads/synced/git-annex")` test is subsumed by the
      `include?("refs/heads/synced/")` test: a line is a sync line exactly
      when it mentions `refs/heads/synced/`. */
  lemma SyncLineIsSyncedPrefix(line: string)
    ensures IsSyncLine(line) <==> Contains(line, SYNCED_PREFIX)
  {
    if EndsWith(line, SYNCED_GIT_ANNEX) {
      assert SYNCED_GIT_ANNEX == SYNCED_PREFIX + "git-annex";
      EndsWithConcatContains(line, SYNCED_PREFIX, "git-annex");
    }
  }

  // ---------------------------------------------------------------------------
  // The guards of `check`, in order

  /** `check_protocol!`. */
  function CheckProtocol(protocol: string, c: Collaborators): (r: Outcome)
    ensures r.Pass? <==> c.protocolAllowed
    ensures r.Fail? ==> r.message == "Git access over " + Upcase(protocol) + " is not allowed"
  {
    if c.protocolAllowed then Pass else Fail("Git access over " + Upcase(protocol) + " is not allowed")
  }

  /** `check_active_user!`: only an actor that resolves to a user can be blocked. */
  function CheckActiveUser(actor: Actor, c: Collaborators): (r: Outcome)
    ensures r.Pass? <==> UserOf(actor).None? || c.userAllowed
    ensures r.Fail? ==> r.message == BLOCKED_MESSAGE
  {
    if UserOf(actor).Some? && !c.userAllowed then Fail(BLOCKED_MESSAGE) else Pass
  }

  /** `check_project_accessibility!`. */
  function CheckProjectAccessibility(actor: Actor, project: Option<Project>, c: Collaborators): (r: Outcome)
    ensures r.Pass? <==> project.Some? && CanReadProject(actor, project.value, c)
    ensures r.Fail? ==> r.message == NOT_FOUND_MESSAGE
  {
    if project.None? || !CanReadProject(actor, project.value, c) then Fail(NOT_FOUND_MESSAGE) else Pass
  }

  /** `check_command_existence!`. */
  function CheckCommandExistence(cmd: string): (r: Outcome)
    ensures r.Pass? <==> cmd in ALL_COMMANDS
    ensures r.Fail? ==> r.message == COMMAND_MESSAGE
  {
    if cmd in ALL_COMMANDS then Pass else Fail(COMMAND_MESSAGE)
  }

  /** `check_geo_license!`. */
  function CheckGeoLicense(c: Collaborators): (r: Outcome)
    ensures r.Pass? <==> !c.geoSecondary || c.geoLicenseAllows
    ensures r.Fail? ==> r.message == GEO_LICENSE_MESSAGE
  {
    if c.geoSecondary && !c.geoLicenseAllows then Fail(GEO_LICENSE_MESSAGE) else Pass
  }

  // ---------------------------------------------------------------------------
  // Download

  /** `user_download_access_check`. */
  function UserDownloadAccessCheck(abilities: set<Ability>, c: Collaborators): (r: Outcome)
    ensures r.Pass? <==> UserCanDownloadCode(abilities, c) || BuildCanDownloadCode(abilities, c)
    ensures r.Fail? ==> r.message == DOWNLOAD_MESSAGE
  {
    if UserCanDownloadCode(abilities, c) || BuildCanDownloadCode(abilities, c) then Pass
    else Fail(DOWNLOAD_MESSAGE)
  }

  /** `download_access_check`: a user needs a download ability; a deploy key or
      a Geo node key passes without further checks; any other actor passes iff
      a guest may download the code. */
  function DownloadAccessCheck(actor: Actor, abilities: set<Ability>, c: Collaborators): (r: Outcome)
    ensures UserOf(actor).Some? ==> r == UserDownloadAccessCheck(abilities, c)
    ensures actor.DeployKeyActor? || actor.GeoNodeKeyActor? ==> r == Pass
    ensures UserOf(actor).None? && !actor.DeployKeyActor? && !actor.GeoNodeKeyActor? ==>
              (r.Pass? <==> c.guestCanDownloadCode)
    ensures r.Fail? ==> r.message == DOWNLOAD_MESSAGE
  {
    if UserOf(actor).Some? then UserDownloadAccessCheck(abilities, c)
    else if !actor.DeployKeyActor? && !actor.GeoNodeKeyActor? && !c.guestCanDownloadCode then Fail(DOWNLOAD_MESSAGE)
    else Pass
  }

  // ---------------------------------------------------------------------------
  // Push

  /** The message of the first change `changeAccess` does not allow, if any. */
  function FirstDenial(changes: seq<Change>, changeAccess: Change -> AccessStatus): (r: Option<string>)
    ensures r.None? <==> forall i :: 0 <= i < |changes| ==> changeAccess(changes[i]).allowed
    ensures r.Some? ==> exists i :: 0 <= i < |changes| && !changeAccess(changes[i]).allowed &&
                                   r.value == changeAccess(changes[i]).message &&
                                   forall j :: 0 <= j < i ==> changeAccess(changes[j]).allowed
  {
    if |changes| == 0 then None
    else
      var status := changeAccess(changes[0]);
      if !status.allowed then Some(status.message)
      else
        var rest := FirstDenial(changes[1..], changeAccess);
        assert forall i :: 1 <= i < |changes| ==> changes[i] == changes[1..][i - 1];
        if rest.Some? then
          ghost var k :| 0 <= k < |changes[1..]| && !changeAccess(changes[1..][k]).allowed &&
                         rest.value == changeAccess(changes[1..][k]).message &&
                         forall j :: 0 <= j < k ==> changeAccess(changes[1..][j]).allowed;
          assert !changeAccess(changes[k + 1]).allowed;
          assert forall j :: 0 <= j < k + 1 ==> changeAccess(changes[j]).allowed by {
            forall j | 0 <= j < k + 1 ensures changeAccess(changes[j]).allowed {
              if j > 0 { assert changes[j] == changes[1..][j - 1]; }
            }
          }
          rest
        else
          rest
  }

  /** The bytes a push adds: the sum of the change deltas, counted only when
      the project's size limit is enabled. */
  function PushSize(changes: seq<Change>, sizeLimitEnabled: bool, deltaSize: Change -> nat): nat
  {
    if |changes| == 0 then 0
    else
      PushSize(changes[..|changes| - 1], sizeLimitEnabled, deltaSize)
        + (if sizeLimitEnabled then deltaSize(changes[|changes| - 1]) else 0)
  }

  /** With the size limit disabled, nothing is added up. */
  lemma {:induction false} PushSizeZeroWhenLimitDisabled(changes: seq<Change>, deltaSize: Change -> nat)
    ensures PushSize(changes, false, deltaSize) == 0
  {
    if |changes| > 0 {
      PushSizeZeroWhenLimitDisabled(changes[..|changes| - 1], deltaSize);
    }
  }

  /** The per-change walk of a push and the aggregate size check after it. */
  function ChangesVerdict(changes: seq<Change>, project: Project, c: Collaborators): Outcome
  {
    match FirstDenial(changes, c.changeAccess)
    case Some(message) => Fail(message)
    case None =>
      if project.changesWillExceedSizeLimit(PushSize(changes, project.sizeLimitEnabled, c.deltaSize))
      then Fail(project.newChangesError)
      else Pass
  }

  /** What `user_push_access_check` decides. */
  function UserPushAccessCheckSpec(user: User, project: Project, abilities: set<Ability>,
                                   c: Collaborators, changes: string): Outcome
  {
    if PushCode !in abilities then Fail(UPLOAD_MESSAGE)
    else if IsBlank(changes) then Pass
    else if !project.repositoryExists then Fail(NO_REPO_MESSAGE)
    else if project.aboveSizeLimit then Fail(project.pushError)
    else if c.licenseBlocksChanges then Fail(c.licenseMessage(user.isAdmin))
    else ChangesVerdict(c.changesList(changes), project, c)
  }

  /** `user_push_access_check`: the loop over the changes with the running
      `push_size_in_bytes` total. */
  method UserPushAccessCheck(user: User, project: Project, abilities: set<Ability>,
                             c: Collaborators, changes: string) returns (r: Outcome)
    ensures r == UserPushAccessCheckSpec(user, project, abilities, c, changes)
  {
    if PushCode !in abilities {
      return Fail(UPLOAD_MESSAGE);
    }
    if IsBlank(changes) {
      return Pass;
    }
    if !project.repositoryExists {
      return Fail(NO_REPO_MESSAGE);
    }
    if project.aboveSizeLimit {
      return Fail(project.pushError);
    }
    if c.licenseBlocksChanges {
      return Fail(c.licenseMessage(user.isAdmin));
    }
    var changesList := c.changesList(changes);
    var pushSizeInBytes: nat := 0;
    var i := 0;
    while i < |changesList|
      invariant 0 <= i <= |changesList|
      invariant FirstDenial(changesList, c.changeAccess) == FirstDenial(changesList[i..], c.changeAccess)
      invariant pushSizeInBytes == PushSize(changesList[..i], project.sizeLimitEnabled, c.deltaSize)
    {
      var status := c.changeAccess(changesList[i]);
      if !status.allowed {
        return Fail(status.message);
      }
      if project.sizeLimitEnabled {
        pushSizeInBytes := pushSizeInBytes + c.deltaSize(changesList[i]);
      }
      assert changesList[i..][1..] == changesList[i + 1..];
      assert changesList[..i + 1][..i] == changesList[..i];
      i := i + 1;
    }
    assert changesList[..i] == changesList;
    if project.changesWillExceedSizeLimit(pushSizeInBytes) {
      return Fail(project.newChangesError);
    }
    return Pass;
  }

  /** `push_access_check`. */
  function PushAccessCheck(actor: Actor, project: Project, abilities: set<Ability>,
                           c: Collaborators, changes: string): (r: Outcome)
    ensures project.repositoryReadOnly ==> r == Fail(READ_ONLY_MESSAGE)
    ensures !project.repositoryReadOnly && c.geoSecondary ==> r == Fail(GEO_PUSH_MESSAGE)
    ensures r.Pass? ==> GitAnnexBranchSync(c.gitAnnexEnabled, changes) || UserOf(actor).Some?
    // A git-annex branch sync passes before the actor is looked at.
    ensures !project.repositoryReadOnly && !c.geoSecondary && GitAnnexBranchSync(c.gitAnnexEnabled, changes) ==>
              r == Pass
    // Any other push by a user is decided by the user push check.
    ensures !project.repositoryReadOnly && !c.geoSecondary && !GitAnnexBranchSync(c.gitAnnexEnabled, changes) &&
            UserOf(actor).Some? ==>
              r == UserPushAccessCheckSpec(UserOf(actor).value, project, abilities, c, changes)
    // Without a user it is refused, with the deploy-key message for a deploy key.
    ensures !project.repositoryReadOnly && !c.geoSecondary && !GitAnnexBranchSync(c.gitAnnexEnabled, changes) &&
            UserOf(actor).None? ==>
              r == Fail(if actor.DeployKeyActor? then DEPLOY_KEY_MESSAGE else UPLOAD_MESSAGE)
  {
    if project.repositoryReadOnly then Fail(READ_ONLY_MESSAGE)
    else if c.geoSecondary then Fail(GEO_PUSH_MESSAGE)
    else if GitAnnexBranchSync(c.gitAnnexEnabled, changes) then Pass
    else match UserOf(actor)
      case Some(user) => UserPushAccessCheckSpec(user, project, abilities, c, changes)
      case None => Fail(if actor.DeployKeyActor? then DEPLOY_KEY_MESSAGE else UPLOAD_MESSAGE)
  }

  // ---------------------------------------------------------------------------
  // git-annex

  /** `git_annex_access_check`. */
  function GitAnnexAccessCheck(actor: Actor, project: Project, c: Collaborators): (r: Outcome)
    ensures r.Pass? <==> c.gitAnnexEnabled && UserOf(actor).Some? && c.userAllowed &&
                         project.repositoryExists && !(c.geoEnabled && c.geoSecondary) && c.userCanPushCode
  {
    if !c.gitAnnexEnabled then Fail(ANNEX_DISABLED_MESSAGE)
    else if UserOf(actor).None? || !c.userAllowed then Fail(ANNEX_NO_ACCESS_MESSAGE)
    else if !project.repositoryExists then Fail(ANNEX_NO_REPO_MESSAGE)
    else if c.geoEnabled && c.geoSecondary then Fail(ANNEX_GEO_MESSAGE)
    else if !c.userCanPushCode then Fail(ANNEX_NO_PERMISSION_MESSAGE)
    else Pass
  }

  // ---------------------------------------------------------------------------
  // The pipeline

  /** The guards of `check` all pass. */
  predicate GuardsPass(actor: Actor, project: Option<Project>, protocol: string, c: Collaborators, cmd: string)
  {
    && c.protocolAllowed
    && (UserOf(actor).None? || c.userAllowed)
    && project.Some? && CanReadProject(actor, project.value, c)
    && cmd in ALL_COMMANDS
    && (!c.geoSecondary || c.geoLicenseAllows)
  }

  /** The command-specific check `check` runs once the guards pass. */
  function Dispatch(actor: Actor, project: Project, abilities: set<Ability>, c: Collaborators,
                    cmd: string, changes: string): (r: Outcome)
    ensures cmd in DOWNLOAD_COMMANDS ==> r == DownloadAccessCheck(actor, abilities, c)
    ensures cmd in PUSH_COMMANDS ==> r == PushAccessCheck(actor, project, abilities, c, changes)
    ensures cmd !in DOWNLOAD_COMMANDS && cmd !in PUSH_COMMANDS ==> r == GitAnnexAccessCheck(actor, project, c)
  {
    if cmd in DOWNLOAD_COMMANDS then DownloadAccessCheck(actor, abilities, c)
    else if cmd in PUSH_COMMANDS then PushAccessCheck(actor, project, abilities, c, changes)
    else GitAnnexAccessCheck(actor, project, c)
  }

  /** The first failing check of `check`, or `Pass`. */
  function CheckOutcome(actor: Actor, project: Option<Project>, protocol: string, abilities: set<Ability>,
                        c: Collaborators, cmd: string, changes: string): Outcome
  {
    var protocolCheck := CheckProtocol(protocol, c);
    if protocolCheck.Fail? then protocolCheck else
    var activeUser := CheckActiveUser(actor, c);
    if activeUser.Fail? then activeUser else
    var accessibility := CheckProjectAccessibility(actor, project, c);
    if accessibility.Fail? then accessibility else
    var command := CheckCommandExistence(cmd);
    if command.Fail? then command else
    var geoLicense := CheckGeoLicense(c);
    if geoLicense.Fail? then geoLicense else
    Dispatch(actor, project.value, abilities, c, cmd, changes)
  }

  /** `check(cmd, changes)`: the status object built from the outcome. */
  function Check(actor: Actor, project: Option<Project>, protocol: string, abilities: set<Ability>,
                 c: Collaborators, cmd: string, changes: string): (status: AccessStatus)
    ensures status.allowed ==> status.message == ""
    ensures status.allowed ==>
              c.protocolAllowed && (UserOf(actor).None? || c.userAllowed) &&
              project.Some? && CanReadProject(actor, project.value, c) &&
              cmd in ALL_COMMANDS && (!c.geoSecondary || c.geoLicenseAllows)
    // Allowed exactly when every guard passes and so does the command's own check.
    ensures status.allowed <==>
              GuardsPass(actor, project, protocol, c, cmd) &&
              Dispatch(actor, project.value, abilities, c, cmd, changes).Pass?
    // Once the guards pass, a refusal carries the command check's message.
    ensures GuardsPass(actor, project, protocol, c, cmd) &&
            Dispatch(actor, project.value, abilities, c, cmd, changes).Fail? ==>
              status.message == Dispatch(actor, project.value, abilities, c, cmd, changes).message
  {
    match CheckOutcome(actor, project, protocol, abilities, c, cmd, changes)
    case Pass => AccessStatus(true, "")
    case Fail(message) => AccessStatus(false, message)
  }

  /** The five guards run in a fixed order and the first one that fails
      decides the message. */
  lemma CheckGuardOrder(actor: Actor, project: Option<Project>, protocol: string, abilities: set<Ability>,
                        c: Collaborators, cmd: string, changes: string)
    ensures var s := Check(actor, project, protocol, abilities, c, cmd, changes);
      && (!c.protocolAllowed ==>
            s == AccessStatus(false, "Git access over " + Upcase(protocol) + " is not allowed"))
      && (c.protocolAllowed && UserOf(actor).Some? && !c.userAllowed ==>
            s == AccessStatus(false, BLOCKED_MESSAGE))
      && (c.protocolAllowed && CheckActiveUser(actor, c).Pass? &&
          (project.None? || !CanReadProject(actor, project.value, c)) ==>
            s == AccessStatus(false, NOT_FOUND_MESSAGE))
      && (c.protocolAllowed && CheckActiveUser(actor, c).Pass? && CheckProjectAccessibility(actor, project, c).Pass? &&
          cmd !in ALL_COMMANDS ==>
            s == AccessStatus(false, COMMAND_MESSAGE))
      && (c.protocolAllowed && CheckActiveUser(actor, c).Pass? && CheckProjectAccessibility(actor, project, c).Pass? &&
          cmd in ALL_COMMANDS && c.geoSecondary && !c.geoLicenseAllows ==>
            s == AccessStatus(false, GEO_LICENSE_MESSAGE))
  {
  }

  /** A command outside the four known ones is never allowed; once the
      earlier guards pass, the command message is the one returned. */
  lemma UnknownCommandDenied(actor: Actor, project: Option<Project>, protocol: string, abilities: set<Ability>,
                             c: Collaborators, cmd: string, changes: string)
    requires cmd !in ALL_COMMANDS
    ensures !Check(actor, project, protocol, abilities, c, cmd, changes).allowed
    ensures Check(actor, project, protocol, abilities, c, cmd, changes).message in
              {"Git access over " + Upcase(protocol) + " is not allowed", BLOCKED_MESSAGE,
               NOT_FOUND_MESSAGE, COMMAND_MESSAGE}
  {
  }

  /** A read-only repository or a Geo secondary denies every push, even a
      git-annex sync push. */
  lemma ReadOnlyOrSecondaryDeniesPush(actor: Actor, project: Option<Project>, protocol: string,
                                      abilities: set<Ability>, c: Collaborators, changes: string)
    requires project.Some? && (project.value.repositoryReadOnly || c.geoSecondary)
    ensures !Check(actor, project, protocol, abilities, c, "git-receive-pack", changes).allowed
  {
  }

  /** A push by an actor without a user is denied with the deploy-key message
      for a deploy key and the upload message otherwise, unless the change
      text is a git-annex branch sync, which is accepted before the actor is
      looked at. */
  lemma NonUserPushDenied(actor: Actor, project: Option<Project>, protocol: string,
                          abilities: set<Ability>, c: Collaborators, changes: string)
    requires GuardsPass(actor, project, protocol, c, "git-receive-pack")
    requires !project.value.repositoryReadOnly && !c.geoSecondary
    requires UserOf(actor).None?
    ensures var s := Check(actor, project, protocol, abilities, c, "git-receive-pack", changes);
      && (GitAnnexBranchSync(c.gitAnnexEnabled, changes) ==> s.allowed)
      && (!GitAnnexBranchSync(c.gitAnnexEnabled, changes) ==>
            s == AccessStatus(false, if actor.DeployKeyActor? then DEPLOY_KEY_MESSAGE else UPLOAD_MESSAGE))
  {
    assert "git-receive-pack" !in DOWNLOAD_COMMANDS;
  }

  /** A download by a deploy key or a Geo node key passes once the guards do. */
  lemma KeyDownloadAllowed(actor: Actor, project: Option<Project>, protocol: string,
                           abilities: set<Ability>, c: Collaborators, cmd: string, changes: string)
    requires actor.DeployKeyActor? || actor.GeoNodeKeyActor?
    requires cmd in DOWNLOAD_COMMANDS
    requires GuardsPass(actor, project, protocol, c, cmd)
    ensures Check(actor, project, protocol, abilities, c, cmd, changes) == AccessStatus(true, "")
  {
  }

  /** The user push path: without `push_code` it is denied, with blank changes
      it is allowed, and otherwise the repository must exist, the project must
      not be above its size limit and the licence must not block changes, in
      that order. */
  lemma UserPushOrder(user: User, project: Project, abilities: set<Ability>, c: Collaborators, changes: string)
    ensures var r := UserPushAccessCheckSpec(user, project, abilities, c, changes);
      && (PushCode !in abilities ==> r == Fail(UPLOAD_MESSAGE))
      && (PushCode in abilities && IsBlank(changes) ==> r == Pass)
      && (PushCode in abilities && !IsBlank(changes) && !project.repositoryExists ==> r == Fail(NO_REPO_MESSAGE))
      && (PushCode in abilities && !IsBlank(changes) && project.repositoryExists && project.aboveSizeLimit ==>
            r == Fail(project.pushError))
      && ((PushCode in abilities && !IsBlank(changes) && project.repositoryExists && !project.aboveSizeLimit &&
           c.licenseBlocksChanges) ==> r == Fail(c.licenseMessage(user.isAdmin)))
  {
  }

  /** All or nothing: one disallowed change denies the whole push with the
      message of the first such change; the aggregate size check is reached
      only when every change passed. */
  lemma {:induction false} AllOrNothingPush(user: User, project: Project, abilities: set<Ability>,
                                            c: Collaborators, changes: string)
    requires PushCode in abilities && !IsBlank(changes)
    requires project.repositoryExists && !project.aboveSizeLimit && !c.licenseBlocksChanges
    ensures var r := UserPushAccessCheckSpec(user, project, abilities, c, changes);
            var cs := c.changesList(changes);
      && ((exists i :: 0 <= i < |cs| && !c.changeAccess(cs[i]).allowed) ==>
            exists i :: 0 <= i < |cs| && !c.changeAccess(cs[i]).allowed &&
                        (forall j :: 0 <= j < i ==> c.changeAccess(cs[j]).allowed) &&
                        r == Fail(c.changeAccess(cs[i]).message))
      && (r.Pass? <==> (forall i :: 0 <= i < |cs| ==> c.changeAccess(cs[i]).allowed) &&
                       !project.changesWillExceedSizeLimit(PushSize(cs, project.sizeLimitEnabled, c.deltaSize)))
  {
    var cs := c.changesList(changes);
    var first := FirstDenial(cs, c.changeAccess);
    if first.Some? {
      var k :| 0 <= k < |cs| && !c.changeAccess(cs[k]).allowed &&
               first.value == c.changeAccess(cs[k]).message &&
               forall j :: 0 <= j < k ==> c.changeAccess(cs[j]).allowed;
      assert UserPushAccessCheckSpec(user, project, abilities, c, changes) == Fail(c.changeAccess(cs[k]).message);
    }
  }

  /** A user with `push_code` whose every change passes, and whose push fits
      the size limit, is allowed to push once the guards pass. */
  lemma UserPushAllowed(actor: Actor, project: Option<Project>, protocol: string,
                        abilities: set<Ability>, c: Collaborators, changes: string)
    requires GuardsPass(actor, project, protocol, c, "git-receive-pack")
    requires UserOf(actor).Some? && PushCode in abilities
    requires !project.value.repositoryReadOnly && !c.geoSecondary
    requires project.value.repositoryExists && !project.value.aboveSizeLimit && !c.licenseBlocksChanges
    requires forall i :: 0 <= i < |c.changesList(changes)| ==> c.changeAccess(c.changesList(changes)[i]).allowed
    requires !project.value.changesWillExceedSizeLimit(
               PushSize(c.changesList(changes), project.value.sizeLimitEnabled, c.deltaSize))
    ensures Check(actor, project, protocol, abilities, c, "git-receive-pack", changes) == AccessStatus(true, "")
  {
    assert "git-receive-pack" !in DOWNLOAD_COMMANDS;
    if !IsBlank(changes) {
      AllOrNothingPush(UserOf(actor).value, project.value, abilities, c, changes);
    }
  }
}
