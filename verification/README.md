# GitLab EE core rules in Dafny

This project models the rule-evaluating core of GitLab Enterprise Edition and
proves properties of it. The model covers eight parts of GitLab:

- **Git access** (`Gitlab::GitAccess`): the check an SSH or HTTP git command
  passes before it runs. It covers the protocol, the user's state, project
  visibility, the command, the Geo licence, then download or push rights.
  Push rights include protected branches, pushes from a git-annex sync, and
  repository size limits.
- **Path locks** (`Gitlab::LockedPathMatcher`): finding the lock that covers
  a file path, through the path's directory prefixes. Prefixes known to be
  unlocked are cached.
- **LDAP group sync** (`Gitlab::LDAP::GroupSync`):
  - merging the LDAP access levels of a group link;
  - reconciling existing members, without ever demoting the last owner;
  - adding members that match exactly one user;
  - toggling the admin flag.
- **Approvals** (`Approvable`): the approvals a merge request still needs,
  whether it is approved, who may approve it, the memoised answers, and the
  approver-id setter.
- **Namespaces** (`Namespace`): `clean_path`, which turns an e-mail or a name
  into a free namespace path, plus `full_path` and `kind`.
- **Application settings** (`ApplicationSetting`):
  - the raw domain whitelist and blacklist;
  - the repository storage setters;
  - the storage and housekeeping validations.
- **Merge request building** (`MergeRequests::BuildService`):
  - defaulting the target project and branch;
  - the branch validation messages;
  - the title and description derived from the branch name and the commits.
- **CI builds** (`Ci::Build`):
  - the environment variables handed to a runner, and their order;
  - the `when` and environment-action defaults;
  - the playable, retryable and erasable predicates;
  - token validation and `erase`.

Each source file becomes one module:

| file | module |
|---|---|
| `git_access.dfy` | `GitAccess` |
| `locked_path_matcher.dfy` | `LockedPathMatcher` |
| `group_sync.dfy` | `GroupSync` |
| `approvable.dfy` | `Approvable` |
| `namespace.dfy` | `Namespaces` |
| `application_setting.dfy` | `ApplicationSettings` |
| `build_service.dfy` | `MergeRequestBuild` |
| `ci_build.dfy` | `CiBuild` |

Two support modules are shared. `wrappers.dfy` holds `Option`, which stands for Ruby's `nil`. `strings.dfy` holds the Ruby string operations the source relies on: `blank?`, `strip`, `split`, `join`, case mapping, `Integer#to_s` and `String#to_i`.

The form of each module follows the code:

- Where the source only computes a value, the model uses functions and lemmas.
- Where the source changes state, the model uses classes with `modifies` clauses:
  - the `@non_locked_paths` cache;
  - group memberships and `user.admin`;
  - the approval memo fields and the approver list;
  - the settings' domain lists and storages;
  - the merge request under construction;
  - the erased build.
- Where the source loops, the model uses methods with loops. Each method is proved equal to a specification function, and the properties are proved about that function.

Database queries, repository and LDAP lookups, permissions, clocks and
similar collaborators are parameters: booleans, numbers or functions passed
in.

Three behaviours of the code are worth stating up front, because they are
easy to misread:

- `protected_branch_action` (lib/gitlab/git_access.rb:185-199) tests for a
  forced push before it tests for a branch deletion. A forced deletion
  therefore needs the force-push capability.
- In `push_access_check` (lib/gitlab/git_access.rb:61-77) the git-annex
  sync shortcut runs before the test that the actor is a user. With
  git-annex enabled, a deploy key may therefore push a sync.
- `DOMAIN_LIST_SEPARATOR` (app/models/application_setting.rb:9-14) matches
  a comma or semicolon with optional whitespace around it, or a single
  whitespace character, or a line feed or carriage return. The setters
  (app/models/application_setting.rb:240-252) split on it and then drop the
  empty pieces. The split is modelled as the regular-expression split, one
  leftmost match at a time, trailing empty pieces dropped. The model proves
  that split and rejection together give the maximal runs of characters that
  are neither whitespace, `,` nor `;`.

## Model

| member | source | states |
|---|---|---|
| GitAccess.UserOf | lib/gitlab/git_access.rb:236-250 | a user actor is its own user, a key actor has its key's user, and no other actor has one |
| GitAccess.DeployKeyCanReadProject | lib/gitlab/git_access.rb:213-220 | a deploy key reads a project iff the project is public or the key is linked to it; other actors never qualify |
| GitAccess.CanReadProject | lib/gitlab/git_access.rb:222-232 | a Geo node key can always read, a deploy key per its rule, a user or key user per the read ability, and a userless actor as Guest |
| GitAccess.UserCanDownloadCode | lib/gitlab/git_access.rb:89-91 | true iff the actor has the download_code ability and the user's `can?(:download_code)` holds |
| GitAccess.BuildCanDownloadCode | lib/gitlab/git_access.rb:93-95 | true iff the actor has the build_download_code ability and the user's `can?(:build_download_code)` holds |
| GitAccess.ProtectedBranchAction | lib/gitlab/git_access.rb:185-199 | force push first, then deletion (blank newrev), then developer merge/push, else push to protected branch |
| GitAccess.GitAnnexBranchSync | lib/gitlab/git_access.rb:276-292 | false when annex is off or the changes are blank, otherwise true iff every stripped non-blank line is a sync line |
| GitAccess.IsSyncLine | lib/gitlab/git_access.rb:286 | a line is a sync line iff it ends with `refs/heads/synced/git-annex` or contains `refs/heads/synced/` |
| GitAccess.StrippedLines | lib/gitlab/git_access.rb:280-285 | `changes.lines.map(&:strip)`: one entry per line of `String#lines`, each that line stripped; none keeps a line feed |
| Strings.Lines | lib/gitlab/git_access.rb:280 | `String#lines`: the lines join back to the text; none is empty, each but the last ends with its line feed, and no line holds another |
| Strings.StrippedLineHasNoLineFeed | lib/gitlab/git_access.rb:285 | a line whose only line feed is its last character holds none once stripped |
| GitAccess.SyncLineIsSyncedPrefix | lib/gitlab/git_access.rb:286 | a line ending with the annex sync ref already contains `refs/heads/synced/` |
| GitAccess.CheckProtocol | lib/gitlab/git_access.rb:151-155 | fails with the protocol message iff the protocol is not allowed |
| GitAccess.CheckActiveUser | lib/gitlab/git_access.rb:157-161 | fails iff the actor resolves to a user that cannot access git |
| GitAccess.CheckProjectAccessibility | lib/gitlab/git_access.rb:163-167 | fails with the not-found message iff there is no project or it cannot be read |
| GitAccess.CheckCommandExistence | lib/gitlab/git_access.rb:169-173 | fails iff the command is none of the four known git commands |
| GitAccess.CheckGeoLicense | lib/gitlab/git_access.rb:175-179 | fails iff this node is a Geo secondary whose licence does not allow it |
| GitAccess.UserDownloadAccessCheck | lib/gitlab/git_access.rb:83-87 | passes iff the user or the build may download code |
| GitAccess.DownloadAccessCheck | lib/gitlab/git_access.rb:53-59 | a user goes through the ability check; deploy and Geo keys pass; any other actor passes iff a guest may download |
| GitAccess.FirstDenial | lib/gitlab/git_access.rb:123-128 | the message of the first change whose status is not allowed, none iff every change is allowed |
| GitAccess.PushSize | lib/gitlab/git_access.rb:121-133 | the sum of the change delta sizes when the size limit is enabled, each change counted once |
| GitAccess.PushSizeZeroWhenLimitDisabled | lib/gitlab/git_access.rb:130-132 | with the size limit disabled the summed push size is zero |
| GitAccess.UserPushAccessCheckSpec | lib/gitlab/git_access.rb:97-139 | no push_code fails, blank changes pass, then missing repository, size limit, licence, the first denied change and the total size fail in that order |
| GitAccess.UserPushAccessCheck | lib/gitlab/git_access.rb:97-139 | the loop over the changes with its running size total decides exactly as the specification of the user push check |
| GitAccess.PushAccessCheck | lib/gitlab/git_access.rb:61-77 | a read-only repository, then a Geo secondary, fail with their messages; then an annex sync passes; then a user is decided by the user push check; an actor without a user fails, with the deploy-key message for a deploy key |
| GitAccess.GitAnnexAccessCheck | lib/gitlab/git_access.rb:256-274 | passes iff annex is enabled, the actor is an allowed user, the repository exists, the node is not a Geo secondary, and the user can push |
| GitAccess.GuardsPass | lib/gitlab/git_access.rb:32-37 | the protocol, active-user, accessibility, command and Geo licence guards all pass |
| GitAccess.Dispatch | lib/gitlab/git_access.rb:39-46 | a download command goes to the download check, a push command to the push check, the annex command to the annex check |
| GitAccess.CheckOutcome | lib/gitlab/git_access.rb:31-51 | the first failing guard's outcome, else the dispatched check's outcome |
| GitAccess.Check | lib/gitlab/git_access.rb:31-51 | allowed iff every guard passes and the command's own check passes; an allowed status has an empty message; once the guards pass, a refusal carries the command check's message |
| GitAccess.CheckGuardOrder | lib/gitlab/git_access.rb:31-51 | the guards run in a fixed order and the first one that fails decides the outcome |
| GitAccess.UnknownCommandDenied | lib/gitlab/git_access.rb:169-173 | a command outside the four known ones is never allowed |
| GitAccess.ReadOnlyOrSecondaryDeniesPush | lib/gitlab/git_access.rb:61-70 | a read-only repository or a Geo secondary denies every push, even a sync push |
| GitAccess.NonUserPushDenied | lib/gitlab/git_access.rb:72-76 | a push by an actor without a user is denied, with the deploy-key message for a deploy key, unless it is an annex sync |
| GitAccess.KeyDownloadAllowed | lib/gitlab/git_access.rb:53-59 | a download by a deploy key or Geo node key passes once the guards pass |
| GitAccess.UserPushOrder | lib/gitlab/git_access.rb:97-118 | no push_code ability denies, blank changes allow, then repository existence, size limit and licence in order |
| GitAccess.AllOrNothingPush | lib/gitlab/git_access.rb:121-138 | one disallowed change denies the whole push with that change's message |
| GitAccess.UserPushAllowed | lib/gitlab/git_access.rb:61-139 | a user with push_code whose every change is allowed and whose push fits the size limit is allowed to push once the guards pass |
| LockedPathMatcher.Tokens | lib/gitlab/locked_path_matcher.rb:29-43 | one token per fragment, the first is the first fragment, each next one is the previous plus `/` plus the fragment |
| LockedPathMatcher.TokenIsJoinedPrefix | lib/gitlab/locked_path_matcher.rb:29-43 | token i is the first i+1 fragments joined with `/` |
| LockedPathMatcher.TokensExample | lib/gitlab/locked_path_matcher.rb:27-28 | `app/models/project.rb` gives `app`, `app/models`, `app/models/project.rb` |
| LockedPathMatcher.FirstLock | lib/gitlab/locked_path_matcher.rb:15-23 | none iff no token is locked, otherwise the lock of the first locked token |
| LockedPathMatcher.LockExample | spec/lib/gitlab/locked_path_matcher_spec.rb:9-15 | a lock on `app` covers `app/models/project.rb`; a lock on `lib/gitlab/repo.rb` leaves `lib` unlocked |
| LockedPathMatcher.Matcher.Tokenizer | lib/gitlab/locked_path_matcher.rb:29-43 | the loop's tokens are the tokens of the `/`-split path |
| LockedPathMatcher.Matcher.FindLock | lib/gitlab/locked_path_matcher.rb:46-58 | a cached token answers no lock without a lookup; otherwise the lookup's answer, caching the token exactly when no lock was found |
| LockedPathMatcher.Matcher.GetLockInfo | lib/gitlab/locked_path_matcher.rb:15-23 | the lock of the shortest locked prefix or none; the cache only grows, by unlocked tokens of the path |
| GroupSync.LdapGroupMembers | lib/gitlab/ldap/group_sync.rb:83-94 | the member DNs, falling back to the member uids when there are none; empty iff both are |
| GroupSync.MembersToAccessHash | lib/gitlab/ldap/group_sync.rb:172-185 | each listed DN maps to the maximum of its previous level and the link's level; other keys unchanged |
| GroupSync.LastOwner | lib/gitlab/ldap/group_sync.rb:118 | the user is an owner and no other member is |
| GroupSync.AddOrUpdate | lib/gitlab/ldap/group_sync.rb:155-162 | the last owner is left alone when the level is not owner; otherwise the user gets the level; nobody else changes |
| GroupSync.AddOrUpdateKeepsOwner | lib/gitlab/ldap/group_sync.rb:155-162 | a group with an owner keeps one |
| GroupSync.UpdateMember | lib/gitlab/ldap/group_sync.rb:100-122 | non-LDAP and already-correct members are skipped; others are updated and their DN consumed, or removed unless last owner; only the member's own DN can leave the hash, and the hash is unchanged when that DN is not in it |
| GroupSync.UpdateMemberKeepsOwner | lib/gitlab/ldap/group_sync.rb:100-122 | reconciling one member keeps an owner in the group |
| GroupSync.Reconcile | lib/gitlab/ldap/group_sync.rb:96-124 | the hash only loses entries, and a DN stays unless a visited member has it; members not visited or without a DN are unchanged |
| GroupSync.ReconcileKeepsOwner | lib/gitlab/ldap/group_sync.rb:96-124 | a full reconciliation never leaves a group that had an owner without one |
| GroupSync.UpdateMemberAsWritten | lib/gitlab/ldap/group_sync.rb:113-121 | as written: raises exactly when the member has a DN missing from the hash, otherwise agrees with the corrected step |
| GroupSync.ReconcileAsWritten | lib/gitlab/ldap/group_sync.rb:96-124 | as written: when it does not raise it agrees with the corrected reconciliation |
| GroupSync.StaleMemberNotRemovedAsWritten | lib/gitlab/ldap/group_sync.rb:118-121 | a member whose DN left the group raises as written but is removed by the corrected reconciliation |
| GroupSync.UpdateAdminStatus | lib/gitlab/ldap/group_sync.rb:19-34 | admin becomes "group found and has the user"; saved iff the flag changed |
| GroupSync.Group.AddOrUpdateUserMembership | lib/gitlab/ldap/group_sync.rb:155-162 | the memberships become the last-owner-guarded update |
| GroupSync.Group.AddUser | lib/gitlab/ldap/group_sync.rb:150 | the user becomes a member with the level, replacing any earlier level; nobody else changes |
| GroupSync.Group.DeleteUser | lib/gitlab/ldap/group_sync.rb:121 | the user is no longer a member; nobody else changes |
| GroupSync.UpdateExistingGroupMembership | lib/gitlab/ldap/group_sync.rb:96-124 | the loop leaves the memberships and hash exactly as the corrected reconciliation |
| GroupSync.UniqueMatch | lib/gitlab/ldap/group_sync.rb:135-141 | a user is found iff exactly one user has that DN |
| GroupSync.MembersAfterAdding | lib/gitlab/ldap/group_sync.rb:126-153 | only unique matches change, nobody is removed |
| GroupSync.LastMatchDecides | lib/gitlab/ldap/group_sync.rb:126-153 | the last DN a user matches decides the level that user gets |
| GroupSync.MatchedAdded | lib/gitlab/ldap/group_sync.rb:126-153 | every visited DN that matches exactly one user makes that user a member |
| GroupSync.SoleMatchLevel | lib/gitlab/ldap/group_sync.rb:126-153 | walking every DN once, a DN that is the only one matching its user gives that user the DN's level |
| GroupSync.AddNewMembers | lib/gitlab/ldap/group_sync.rb:126-153 | given an order visiting each hash key once: the memberships become the specification of adding; every DN matching exactly one user makes that user a member; a DN that alone matches its user sets that user's level |
| Approvable.ApprovalsRequired | app/models/concerns/approvable.rb:33-35 | the merge request's own number when set, else the project's |
| Approvable.RequiresApprove | app/models/concerns/approvable.rb:5-7 | some approval is required iff the required number is non-zero |
| Approvable.ApprovalsLeftOf | app/models/concerns/approvable.rb:17-22 | never above the potential approvers; equals the missing approvals unless capped or zero |
| Approvable.Approved | app/models/concerns/approvable.rb:9-11 | approved iff fewer than one approval is left |
| Approvable.ApprovedIff | app/models/concerns/approvable.rb:9-11 | approved iff enough approvals or no potential approvers |
| Approvable.NoRequirementApproved | app/models/concerns/approvable.rb:5-11 | a merge request that requires no approval is approved |
| Approvable.NotYetApproved | app/models/concerns/approvable.rb:129-135 | true iff the user has no approval yet |
| Approvable.AnyApproverAllowed | app/models/concerns/approvable.rb:140-142 | other members may approve iff more approvals are left than listed approvers remain |
| Approvable.CanApprove | app/models/concerns/approvable.rb:120-127 | no user: false; in approvers_left: true; author or no update permission: false; else not yet approved and any approver allowed |
| Approvable.OutsiderOnlyBeforeApproval | app/models/concerns/approvable.rb:120-142 | a user outside approvers_left may approve only while more approvals are needed than listed approvers remain |
| Approvable.ParseIds | app/models/concerns/approvable.rb:148-150 | the stripped pieces of `split(",")`: one per piece of Ruby's `split`, each that piece stripped, none containing a comma |
| Approvable.ParseIdsSpaced | app/models/concerns/approvable.rb:148-149 | whitespace around the ids is stripped: `" 5 , 6"` gives `["5", "6"]` |
| Approvable.ParseIdsLeadingComma | app/models/concerns/approvable.rb:148-149 | a leading comma gives an empty first id: `",5"` gives `["", "5"]` |
| Approvable.ParseIdsTrailingComma | app/models/concerns/approvable.rb:148-149 | a trailing comma adds no id: `"5,"` gives `["5"]` |
| Approvable.ParseIdsJoin | app/models/concerns/approvable.rb:149 | parsing the comma-joined list of non-empty, comma-free, stripped ids gives the list back |
| Approvable.CastIds | app/models/concerns/approvable.rb:151 | one user id per id string, each its `to_i` |
| Approvable.NewApprovers | app/models/concerns/approvable.rb:148-154 | at most one record per listed id |
| Approvable.NewApproversFacts | app/models/concerns/approvable.rb:148-154 | corrected: every record built is for a listed id that is neither the author's nor an existing approver's, and every such id gets one |
| Approvable.NewApproversAppend | app/models/concerns/approvable.rb:149-153 | the ids are handled one by one in order: the records for a list are those for its first part, then for the rest |
| Approvable.NewApproversOne | app/models/concerns/approvable.rb:150-152 | one id builds a record iff it is not the author's and its user is not an approver yet |
| Approvable.RepeatedIdBuildsTwice | app/models/concerns/approvable.rb:149-152 | an id listed twice builds two records for the same user |
| Approvable.NewApproversAsWritten | app/models/concerns/approvable.rb:148-154 | as written: the same records as the corrected setter with no author, so the author is never skipped |
| Approvable.AuthorAddedAsWritten | app/models/concerns/approvable.rb:150 | the author's own id becomes an approver as written, not in the corrected setter |
| Approvable.AuthorFiveAddedAsWritten | app/models/concerns/approvable.rb:150 | author 5 and `"5"`: as written the author becomes an approver, the corrected setter builds nothing |
| Approvable.MergeRequest.ApprovalsLeft | app/models/concerns/approvable.rb:17-22 | the memoised value once computed; the formula value on a fresh memo |
| Approvable.MergeRequest.ApproversOverwritten | app/models/concerns/approvable.rb:114-118 | the memoised answer, computed once |
| Approvable.MergeRequest.ExpireState | app/models/concerns/approvable.rb:27-31 | the three memo fields are cleared, nothing else changes |
| Approvable.MergeRequest.SetApproverIds | app/models/concerns/approvable.rb:148-154 | the approvers gain the corrected setter's records for the parsed and cast ids, after the existing ones |
| Approvable.MergeRequest.BuildApprovers | app/models/concerns/approvable.rb:149-153 | the loop over the cast ids leaves the approvers as the existing ones followed by the corrected setter's records |
| Approvable.ExpireThenRecompute | app/models/concerns/approvable.rb:17-31 | after expiry, approvals_left is recomputed from the current state |
| Namespaces.Kind | app/models/namespace.rb:150-152 | `group` iff the type is `Group`, else `user` |
| Namespaces.FullPath | app/models/namespace.rb:167-173 | the path for a root; otherwise it starts with the parent's full path and `/`, ends with the path, and is exactly as long as both plus one |
| Namespaces.FullPathIsJoinedAncestry | app/models/namespace.rb:167-173 | the full path is the ancestors' paths joined with `/` |
| Namespaces.FindByPathOrName | app/models/namespace.rb:53-55 | a namespace whose downcased path or name equals the downcased query, none iff there is no such namespace |
| Namespaces.RemoveFromAt | app/models/namespace.rb:74 | drops everything from the first `@` of the last line |
| Namespaces.RemoveFromAtSingleLine | app/models/namespace.rb:74 | on a single line nothing from an `@` remains |
| Namespaces.KeepPathChars | app/models/namespace.rb:76 | only allowed path characters, never longer than the input; the input itself when all its characters are allowed; one character kept iff allowed |
| Namespaces.KeepPathCharsAppend | app/models/namespace.rb:76 | filtering distributes over concatenation, so every allowed character is kept in its place |
| Namespaces.RemoveTrailer | app/models/namespace.rb:78 | a prefix ending in no `.`, `.git` or `.atom`; what it removes is a trailer, and no longer suffix is one |
| Namespaces.TrailerStartsWithDot | app/models/namespace.rb:78 | a non-empty trailer starts with `.` |
| Namespaces.RemoveTrailerWithoutDot | app/models/namespace.rb:78 | a string without `.` loses nothing |
| Namespaces.RemoveLeadingDashes | app/models/namespace.rb:80 | a suffix not starting with `-` |
| Namespaces.Sanitise | app/models/namespace.rb:72-80 | the four `gsub!` rewrites in source order; what they leave is stated by SanitiseFacts |
| Namespaces.SanitiseFacts | app/models/namespace.rb:72-79 | after the four rewrites: only path characters, no leading `-`, no trailing `.`, `.git` or `.atom` |
| Namespaces.PathCharsBlankIffEmpty | app/models/namespace.rb:84 | a string of path characters is blank iff it is empty |
| Namespaces.CleanBase | app/models/namespace.rb:72-84 | the sanitised string when it is non-empty, else `blank`; in either case non-empty, path characters only, no leading `-`, no trailing `.`, `.git` or `.atom` |
| Namespaces.CleanBaseAddress | app/models/namespace.rb:71-84 | `alice@example.com` cleans to `alice` |
| Namespaces.CleanBaseDots | app/models/namespace.rb:82-84 | `..` cleans to `blank` |
| Namespaces.CleanBaseDashAndGit | app/models/namespace.rb:71-84 | `-foo.git` cleans to `foo` |
| Namespaces.Candidate | app/models/namespace.rb:86-91 | the base for counter 0, else the base followed by the counter's decimal digits; distinct counters give distinct candidates by CandidatesDistinct |
| Namespaces.CandidatesDistinct | app/models/namespace.rb:86-91 | different counters give different candidate paths |
| Namespaces.FoundIsTaken | app/models/namespace.rb:53-55 | a path that is found is one of the taken paths |
| Namespaces.FirstFreeCandidate | app/models/namespace.rb:86-91 | the loop ends at the smallest counter whose candidate is free |
| Namespaces.CleanPath | app/models/namespace.rb:71-94 | a free path: the cleaned base or base plus the smallest free counter |
| ApplicationSettings.DomainList | app/models/application_setting.rb:240-245 | non-empty entries without whitespace, `,` or `;` |
| ApplicationSettings.SpaceRun | app/models/application_setting.rb:9 | the `\s*` run from a position: every character in it is whitespace, and the one after it is not |
| ApplicationSettings.MatchLength | app/models/application_setting.rb:9-14 | the length of the `DOMAIN_LIST_SEPARATOR` match at a position: non-zero iff a separator character is there, and the match covers separators only |
| ApplicationSettings.SeparatorIndex | app/models/application_setting.rb:242 | the first position from a given one where a match starts; no separator comes before it |
| ApplicationSettings.RegexPieces | app/models/application_setting.rb:242 | the pieces between leftmost matches, at least one, none holding a separator |
| ApplicationSettings.SplitDomainList | app/models/application_setting.rb:242 | `values.split(DOMAIN_LIST_SEPARATOR)`: no piece holds a separator and the last piece, if any, is not empty |
| ApplicationSettings.SplitDomainListSpacedComma | app/models/application_setting.rb:9-14 | `"a , b"` splits into `["a", "b"]`: the spaces around the comma belong to one match |
| ApplicationSettings.SplitDomainListTrailingComma | app/models/application_setting.rb:242 | `"a,"` splits into `["a"]`: the trailing empty piece is dropped |
| ApplicationSettings.SplitDomainListEmpty | app/models/application_setting.rb:242 | `""` splits into no piece |
| ApplicationSettings.SplitAtSeparators | app/models/application_setting.rb:242-243 | a finer cut than `split`, at every separator character: at least one piece, none holding a separator |
| ApplicationSettings.SplitAtFirstSeparator | app/models/application_setting.rb:242 | the finer cut is the piece before the first separator, then the cut of the rest |
| ApplicationSettings.LeadingSeparators | app/models/application_setting.rb:9-14 | separators in front of a text add only empty pieces to its cut |
| ApplicationSettings.RegexPiecesAgree | app/models/application_setting.rb:242-243 | the leftmost-match split and the finer cut keep the same non-empty pieces, in the same order |
| ApplicationSettings.SplitDomainListAgrees | app/models/application_setting.rb:240-245 | `split` followed by `reject!` gives the same list as the finer cut followed by `reject!`, which is the domain list |
| ApplicationSettings.RejectEmptyAppend | app/models/application_setting.rb:243 | `reject!` of a concatenation is the concatenation of the two rejections |
| ApplicationSettings.RejectEmptyDropTrailing | app/models/application_setting.rb:242-243 | dropping trailing empty pieces before `reject!` changes nothing |
| ApplicationSettings.RejectEmpty | app/models/application_setting.rb:243 | no more pieces than given, none empty, each one of the given pieces |
| ApplicationSettings.RejectEmptySplitIsDomainList | app/models/application_setting.rb:9-14 | splitting at separators and rejecting empty pieces gives the maximal runs |
| ApplicationSettings.DomainListRoundTrip | app/models/application_setting.rb:232-245 | setting the getter's output restores a list of non-empty separator-free entries |
| ApplicationSettings.DomainListIdempotent | app/models/application_setting.rb:232-245 | parsing a joined parsed list gives the same list |
| ApplicationSettings.InvalidStorages | app/models/application_setting.rb:293-297 | every listed storage that is not configured and only those; empty iff every storage is configured |
| ApplicationSettings.InvalidStoragesAppend | app/models/application_setting.rb:293-297 | the subtraction keeps order and repeats: the storages left of a list are those of its first part, then those of the rest |
| ApplicationSettings.InvalidStoragesOne | app/models/application_setting.rb:293-297 | one storage is kept iff it is not configured |
| ApplicationSettings.CheckRepositoryStorages | app/models/application_setting.rb:293-297 | an error iff some storage is not configured, listing exactly those |
| ApplicationSettings.ValidGitAccessProtocol | app/models/application_setting.rb:94-95 | nil and blank values are accepted, so are `ssh` and `http`, and any other present value is rejected |
| ApplicationSettings.ValidationErrors | app/models/application_setting.rb:91-120 | no error iff storages present and configured, protocol valid, and positive periods in increasing order |
| ApplicationSettings.DefaultsValid | app/models/application_setting.rb:209-216 | the default settings are valid |
| ApplicationSettings.RejectEmptyPieces | app/models/application_setting.rb:242-244 | the in-place `reject!` keeps exactly the non-empty pieces |
| ApplicationSettings.Settings.DomainWhitelistRaw | app/models/application_setting.rb:232-234 | nil for a nil list, else the entries joined with line feeds |
| ApplicationSettings.Settings.DomainBlacklistRaw | app/models/application_setting.rb:236-238 | nil for a nil list, else the entries joined with line feeds |
| ApplicationSettings.Settings.SetDomainWhitelistRaw | app/models/application_setting.rb:240-245 | the whitelist becomes the parsed domain list |
| ApplicationSettings.Settings.SetDomainBlacklistRaw | app/models/application_setting.rb:247-252 | the blacklist becomes the parsed domain list |
| ApplicationSettings.Settings.RepositoryStorage | app/models/application_setting.rb:263-265 | the first storage |
| ApplicationSettings.Settings.SetRepositoryStorage | app/models/application_setting.rb:267-269 | the storages become the one given |
| ApplicationSettings.WhitelistRawRoundTrip | app/models/application_setting.rb:232-245 | get then set restores the whitelist |
| MergeRequestBuild.BranchMessages | app/services/merge_requests/build_service.rb:34-60 | at most four messages, all but the first one present |
| MergeRequestBuild.BranchMessagesEmptyIff | app/services/merge_requests/build_service.rb:34-60 | no message iff both branches are present, not the same branch of the same project, and both exist |
| MergeRequestBuild.BranchMessagesBlankFirst | app/services/merge_requests/build_service.rb:37-42 | a blank branch iff the first message is the "select" one or nil; nil iff no branch parameter was given |
| MergeRequestBuild.BranchMessagesDifferentIff | app/services/merge_requests/build_service.rb:44-48 | "select different branches" iff the same branch of the same project |
| MergeRequestBuild.Compact | app/services/merge_requests/build_service.rb:116 | a message is kept iff it is present in the list; never longer than the list |
| MergeRequestBuild.CompactAppend | app/services/merge_requests/build_service.rb:116 | `compact` keeps order: the messages of a list are those of its first part, then those of the rest |
| MergeRequestBuild.CompactOne | app/services/merge_requests/build_service.rb:116 | a nil is dropped and a message kept |
| MergeRequestBuild.BlankWithoutParamsFailsSilently | app/services/merge_requests/build_service.rb:37-42 | a blank branch with no branch parameter fails the build without an error message |
| MergeRequestBuild.IssueIid | app/services/merge_requests/build_service.rb:75-77 | the leading digits when a dash follows them, none otherwise |
| MergeRequestBuild.DerivedTitle | app/services/merge_requests/build_service.rb:80-93 | a single commit's title; else `Resolve "<title>"` for an issue, `Resolve <title>` for an external issue; else the humanised branch |
| MergeRequestBuild.TitleFor | app/services/merge_requests/build_service.rb:110 | the WIP form of the derived title when there are no commits |
| MergeRequestBuild.BaseDescription | app/services/merge_requests/build_service.rb:83-98 | a present template wins, else the given description, else a single commit's stripped description |
| MergeRequestBuild.DescriptionFor | app/services/merge_requests/build_service.rb:100-108 | with an issue number it ends with `Closes #<iid>`, after a blank line when there was a description |
| MergeRequestBuild.ValidateBranches | app/services/merge_requests/build_service.rb:34-60 | the appended messages are the branch messages |
| MergeRequestBuild.BuildFailed | app/services/merge_requests/build_service.rb:115-122 | errors gain the non-nil messages, no commits, cannot be created |
| MergeRequestBuild.SetTitleAndDescription | app/services/merge_requests/build_service.rb:74-113 | the title and description become the derived ones; nothing else changes |
| MergeRequestBuild.SetDerivedTitle | app/services/merge_requests/build_service.rb:79-93 | the derived title; a single commit's stripped description only when there was none |
| MergeRequestBuild.ApplyTemplate | app/services/merge_requests/build_service.rb:96-98 | a present template replaces the description, otherwise it is kept |
| MergeRequestBuild.AppendClosingReference | app/services/merge_requests/build_service.rb:100-108 | `Closes #<iid>` appended after a blank line to a present description, or alone |
| MergeRequestBuild.TargetProjectFor | app/services/merge_requests/build_service.rb:11-13 | the requested project when readable, else the fork source, else the project |
| MergeRequestBuild.TargetBranchFor | app/services/merge_requests/build_service.rb:14 | the requested branch, else the target's default branch |
| MergeRequestBuild.ApplyDefaults | app/services/merge_requests/build_service.rb:9-14 | the source project defaults to the project, the target project and branch become their defaults; nothing else changes |
| MergeRequestBuild.ExecuteMessages | app/services/merge_requests/build_service.rb:16-17 | the branch messages, nil entries included, for the defaulted source and target; Execute fails the build iff this list is non-empty |
| MergeRequestBuild.Execute | app/services/merge_requests/build_service.rb:3-30 | defaults applied; any message fails the build, otherwise commits, title and description are set |
| CiBuild.OptionalKeysIff | app/models/ci/build.rb:534-537 | the tag, trigger and manual keys, each iff its condition, none a fixed key |
| CiBuild.Entry | app/models/ci/build.rb:534-537 | one public entry with the key when the condition holds, none otherwise |
| CiBuild.Build.When | app/models/ci/build.rb:480-482 | the stored value, else the configured one, else `on_success` |
| CiBuild.Build.Manual | app/models/ci/build.rb:109-111 | manual iff `when` is `manual` |
| CiBuild.Build.ManualOnlyWhenSaid | app/models/ci/build.rb:109-111 | manual iff the stored or configured `when` says `manual` |
| CiBuild.Build.Playable | app/models/ci/build.rb:117-119 | builds enabled, commands present, manual and skipped |
| CiBuild.Build.Retryable | app/models/ci/build.rb:132-134 | builds enabled, commands present, and complete |
| CiBuild.Build.PlayableExcludesRetryable | app/models/ci/build.rb:117-134 | no build is both playable and retryable |
| CiBuild.Build.EnvironmentAction | app/models/ci/build.rb:156-158 | the configured action, `start` when the options or the action are missing |
| CiBuild.Build.HasEnvironment | app/models/ci/build.rb:144-146 | `environment.present?`: an environment is set and something of it is left once leading whitespace is stripped |
| CiBuild.Build.StartsEnvironment | app/models/ci/build.rb:148-150 | an environment is present and the action is `start` |
| CiBuild.Build.StopsEnvironment | app/models/ci/build.rb:152-154 | an environment is present and the action is `stop` |
| CiBuild.Build.EnvironmentActionExclusive | app/models/ci/build.rb:144-154 | never both starts and stops; both need an environment; no action means start |
| CiBuild.Build.ValidToken | app/models/ci/build.rb:397-399 | true iff the build has a token equal to the given one |
| CiBuild.Build.HasTrace | app/models/ci/build.rb:265-267 | the trace is present |
| CiBuild.Build.ArtifactsExpired | app/models/ci/build.rb:461-463 | there is an expiry time and it is before `now` |
| CiBuild.Build.Artifacts | app/models/ci/build.rb:422-424 | an artifacts file whose expiry has not passed |
| CiBuild.Build.Erasable | app/models/ci/build.rb:453-455 | complete, and with artifacts or a trace |
| CiBuild.Build.Erase | app/models/ci/build.rb:445-451 | false and nothing changed unless erasable; else artifacts and metadata gone, trace empty, erasure recorded with user and time, expiry cleared, status and token kept; afterwards not expired and not erasable |
| CiBuild.Build.YamlVariables | app/models/ci/build.rb:484-486 | the stored ones, else the configured ones, else none |
| CiBuild.Build.UserVariables | app/models/ci/build.rb:488-495 | empty iff no user, else the public user id and e-mail |
| CiBuild.Build.OptionalVariables | app/models/ci/build.rb:534-537 | public entries whose keys are the optional keys, the tag entry first |
| CiBuild.Build.FixedVariables | app/models/ci/build.rb:519-533 | the twelve fixed keys in order, only the token not public, and the id, token, sha and ref values |
| CiBuild.Build.PredefinedVariables | app/models/ci/build.rb:519-538 | the fixed entries first, then the optional keys; only the token is not public; the tag entry follows the fixed ones |
| CiBuild.Build.Variables | app/models/ci/build.rb:193-204 | the predefined variables followed by the other lists in the fixed order |

## Left out

- Every collaborator of the access check is an input rather than a computation:
  - change access;
  - the matching merge request;
  - the forced-push test, which shells out to git;
  - delta sizes and size-error texts;
  - licence messages;
  - Geo node state;
  - abilities.
- Parsing of the raw change list into changes is left out. The changes arrive already parsed.
- The memoisation of `user` in the access check is left out, because the actor is fixed for a request, so it cannot be observed.
- SQL, LDAP and database lookups are inputs:
  - user and identity lookups;
  - `approvers_left`;
  - the number of potential approvers;
  - namespaces found by path;
  - configured storages.
  Saving a record is an input result where the source returns it.
- `Namespace#move_dir` and `rm_dir` are left out; they are shell and filesystem operations.
- The merge-conflicted block at app/models/namespace.rb:211-228 is left out, because it is not valid Ruby.
- Namespaces.RemoveFromAt: Ruby's `.` does not match a line feed, so on a multi-line string only the last line loses its `@` part. The model does that and proves the single-line case only.
- `titleize.humanize` and `wip_title` are inputs. app/models/merge_request.rb is not part of this model.
- The comparison that yields the commits is an input, and so are the issue lookup and the merge request template.
- Ci::Build trace and artifact file I/O and paths are left out, and so are secret masking, coverage extraction and the state-machine hooks. The clock is the parameter `now` of the expiry predicates and of `erase`.
- CiBuild.Complete: `complete?` comes from `CommitStatus`, which is not part of this model. The completed statuses are taken as success, failed and canceled.
- CiBuild.Build.FixedVariables: its contract states every key, the visibility of each entry, and the id, token, sha and ref values; the other values (name, stage, server name, version and revision) are in its body but not restated in the contract.
- CiBuild.Build.Erase: `erase_trace!` writes an empty trace file, so the trace becomes empty rather than absent.
- ApplicationSettings.ValidationErrors: only the repository-storage, protocol and housekeeping validations are modelled. The other attribute validations (URLs, e-mails, other numeric ranges) are left out. Presence of the housekeeping periods is not modelled, because the periods are integers here.
- Strings.IsBlank: only ASCII whitespace counts as blank. ActiveSupport's `blank?` also treats Unicode spaces such as U+00A0 and U+3000 as blank.
- Namespaces.FindByPathOrName: the comparison downcases ASCII letters only. SQL `lower()` also folds non-ASCII letters, so two names differing only in such a letter count as different here.
- Approvable.CastIds: a blank piece (as in `",5"`) casts to user id 0 here. Rails casts `""` to a nil `user_id` instead.
- Strings.ToI: underscores between digits, which Ruby's `to_i` skips, are not modelled.
- Approvable.MergeRequest.SetApproverIds: `approvers` at the time of the call stands for the saved approver rows, so a record built but not yet saved before the call counts as found.
- Approvable.NewApprovers: its own contract bounds the length only; what it builds is stated by NewApproversFacts, NewApproversAppend and NewApproversOne.
- Approvable: the SQL union behind `approvers_left` and the approval relations are left out. Their results are inputs.

## Findings

| source | as written | input that shows it | evidently intended | confidence | as-written member | corrected member |
|---|---|---|---|---|---|---|
| lib/gitlab/ldap/group_sync.rb:118-121 | when a member's DN is no longer in the LDAP group, the removal branch calls `delete(user)`, but `user` is only assigned in the update branch at line 113, so it is nil | member 1 with DN `uid=alice,ou=people` at developer level, no entry for that DN in the access hash: `members.delete(nil)` raises instead of removing member 1 | remove `member.user` from the group unless it is the last owner | medium, not executed | GroupSync.StaleMemberNotRemovedAsWritten | GroupSync.ReconcileKeepsOwner |
| app/models/concerns/approvable.rb:150 | the author is skipped with `user_id == author.id`, comparing a String from the split with an Integer, which is never equal | author 5, `approver_ids = "5"`: the author becomes an approver | skip the author's own id | high, not executed | Approvable.AuthorFiveAddedAsWritten | Approvable.NewApproversFacts |
