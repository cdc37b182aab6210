/**
  `MergeRequests::BuildService`: builds the merge request a user is about to
  open from the request parameters, with its defaults filled in, the branch
  checks, the commits to compare, and a title and description derived from
  the source branch and the commits.

  The repository and permission queries, the comparison of the branches, the
  issue lookup, and the `titleize.humanize` and `wip_title` string helpers
  are inputs (`Env`).
*/
module MergeRequestBuild {
  import opened Wrappers
  import opened Strings

  type ProjectId = nat

  datatype Commit = Commit(title: string, description: Option<string>)

  /** What `get_issue` returns: an issue of the project or of an external tracker. */
  datatype IssueRef = Issue(title: string) | ExternalIssue(title: string)

  /** The request parameters the merge request is built from. */
  datatype Params = Params(sourceProject: Option<ProjectId>, targetProject: Option<ProjectId>,
                           sourceBranch: Option<string>, targetBranch: Option<string>,
                           title: Option<string>, description: Option<string>)

  /** The service's collaborators. */
  datatype Env = Env(
    project: ProjectId,
    forkedFromProject: Option<ProjectId>,
    canReadProject: ProjectId -> bool,
    defaultBranch: ProjectId -> Option<string>,
    branchExists: (ProjectId, string) -> bool,
    compareCommits: seq<Commit>,
    getIssue: string -> Option<IssueRef>,
    mergeRequestsTemplate: ProjectId -> Option<string>,
    humanizedTitle: string -> string,
    wipTitle: string -> string)

  const SELECT_BRANCHES := "You must select source and target branch"
  const DIFFERENT_BRANCHES := "You must select different branches"

  /** The two fixed messages differ. */
  lemma FixedMessagesDiffer()
    ensures SELECT_BRANCHES != DIFFERENT_BRANCHES
  {
    assert SELECT_BRANCHES[16] != DIFFERENT_BRANCHES[16];
  }

  function SourceMissing(branch: string): (r: string)
    ensures r != SELECT_BRANCHES && r != DIFFERENT_BRANCHES
  {
    var r := "Source branch \"" + branch + "\" does not exist";
    assert r[0] == 'S';
    r
  }

  function TargetMissing(branch: string): (r: string)
    ensures r != SELECT_BRANCHES && r != DIFFERENT_BRANCHES
  {
    var r := "Target branch \"" + branch + "\" does not exist";
    assert r[0] == 'T';
    r
  }

  /** `blank?` on a possibly-nil string. */
  predicate Blank(s: Option<string>)
  {
    s.None? || IsBlank(s.value)
  }

  /** The messages `validate_branches` collects, in order. A blank branch
      contributes `nil` when no branch parameter was given at all. */
  function BranchMessages(sourceProject: ProjectId, targetProject: ProjectId,
                          sourceBranch: Option<string>, targetBranch: Option<string>,
                          paramSourceBranch: Option<string>, paramTargetBranch: Option<string>,
                          branchExists: (ProjectId, string) -> bool): (r: seq<Option<string>>)
    ensures |r| <= 4
    ensures forall k :: 1 <= k < |r| ==> r[k].Some?
  {
    var blank := if Blank(sourceBranch) || Blank(targetBranch) then
                   [if paramSourceBranch.Some? || paramTargetBranch.Some? then Some(SELECT_BRANCHES) else None]
                 else [];
    var same := if sourceProject == targetProject && sourceBranch == targetBranch then [Some(DIFFERENT_BRANCHES)] else [];
    var source := if !Blank(sourceBranch) && !branchExists(sourceProject, sourceBranch.value)
                  then [Some(SourceMissing(sourceBranch.value))] else [];
    var target := if !Blank(targetBranch) && !branchExists(targetProject, targetBranch.value)
                  then [Some(TargetMissing(targetBranch.value))] else [];
    blank + same + source + target
  }

  /** Branch validation passes exactly when both branches are given, they are
      not the same branch of the same project, and both exist. */
  lemma BranchMessagesEmptyIff(sourceProject: ProjectId, targetProject: ProjectId,
                               sourceBranch: Option<string>, targetBranch: Option<string>,
                               paramSourceBranch: Option<string>, paramTargetBranch: Option<string>,
                               branchExists: (ProjectId, string) -> bool)
    ensures BranchMessages(sourceProject, targetProject, sourceBranch, targetBranch,
                           paramSourceBranch, paramTargetBranch, branchExists) == [] <==>
              && !Blank(sourceBranch) && !Blank(targetBranch)
              && !(sourceProject == targetProject && sourceBranch == targetBranch)
              && branchExists(sourceProject, sourceBranch.value)
              && branchExists(targetProject, targetBranch.value)
  {
  }

  /** A blank branch puts its message first: "select source and target
      branch" when a branch parameter was given, `nil` when none was. */
  lemma BranchMessagesBlankFirst(sourceProject: ProjectId, targetProject: ProjectId,
                                 sourceBranch: Option<string>, targetBranch: Option<string>,
                                 paramSourceBranch: Option<string>, paramTargetBranch: Option<string>,
                                 branchExists: (ProjectId, string) -> bool)
    ensures var r := BranchMessages(sourceProject, targetProject, sourceBranch, targetBranch,
                                    paramSourceBranch, paramTargetBranch, branchExists);
      && ((Blank(sourceBranch) || Blank(targetBranch)) <==> |r| > 0 && (r[0] == None || r[0] == Some(SELECT_BRANCHES)))
      && (|r| > 0 && r[0] == None <==>
            (Blank(sourceBranch) || Blank(targetBranch)) && paramSourceBranch.None? && paramTargetBranch.None?)
  {
    FixedMessagesDiffer();
  }

  /** "You must select different branches" is reported exactly for the same
      branch of the same project. */
  lemma BranchMessagesDifferentIff(sourceProject: ProjectId, targetProject: ProjectId,
                                   sourceBranch: Option<string>, targetBranch: Option<string>,
                                   paramSourceBranch: Option<string>, paramTargetBranch: Option<string>,
                                   branchExists: (ProjectId, string) -> bool)
    ensures Some(DIFFERENT_BRANCHES) in BranchMessages(sourceProject, targetProject, sourceBranch, targetBranch,
                                                       paramSourceBranch, paramTargetBranch, branchExists) <==>
              sourceProject == targetProject && sourceBranch == targetBranch
  {
    FixedMessagesDiffer();
  }

  /** `messages.compact`: the messages without the `nil` entries, in order. */
  function Compact(messages: seq<Option<string>>): (r: seq<string>)
    ensures forall m :: m in r <==> Some(m) in messages
    ensures |r| <= |messages|
  {
    if |messages| == 0 then []
    else
      var prev := Compact(messages[..|messages| - 1]);
      assert messages == messages[..|messages| - 1] + [messages[|messages| - 1]];
      match messages[|messages| - 1]
      case None => prev
      case Some(m) => prev + [m]
  }

  /** `compact` keeps order: the messages of a list are those of its first
      part, then those of the rest. */
  lemma {:induction false} CompactAppend(a: seq<Option<string>>, b: seq<Option<string>>)
    ensures Compact(a + b) == Compact(a) + Compact(b)
    decreases |b|
  {
    if |b| == 0 {
      assert a + b == a;
    } else {
      var b' := b[..|b| - 1];
      assert (a + b)[..|a + b| - 1] == a + b';
      assert (a + b)[|a + b| - 1] == b[|b| - 1];
      CompactAppend(a, b');
    }
  }

  /** `compact` drops a `nil` and keeps a message. */
  lemma CompactOne(m: Option<string>)
    ensures Compact([m]) == if m.None? then [] else [m.value]
  {
    assert [m][..0] == [];
  }

  /** A blank branch with no branch parameters fails the build without adding
      any error: the only message is `nil`, which `compact` drops. */
  lemma BlankWithoutParamsFailsSilently(sourceProject: ProjectId, targetProject: ProjectId,
                                        branchExists: (ProjectId, string) -> bool)
    requires sourceProject != targetProject
    ensures var m := BranchMessages(sourceProject, targetProject, None, Some("main"), None, None, branchExists);
      m != [] && (branchExists(targetProject, "main") ==> Compact(m) == [])
  {
  }

  /** The issue number a source branch names by starting with digits and a
      dash (`\A(\d+)-`). */
  function IssueIid(branch: string): (r: Option<string>)
    ensures r.Some? ==> |r.value| > 0 && (forall k :: 0 <= k < |r.value| ==> IsDigit(r.value[k]))
                        && StartsWith(branch, r.value + "-")
    ensures r.None? ==> forall n :: 0 < n < |branch| && branch[n] == '-' ==> exists k :: 0 <= k < n && !IsDigit(branch[k])
  {
    var n := |LeadingDigits(branch)|;
    if 0 < n < |branch| && branch[n] == '-' then
      assert branch[..n + 1] == branch[..n] + "-";
      Some(branch[..n])
    else
      assert forall m :: 0 < m < |branch| && branch[m] == '-' && m != n ==> m > n;
      None
  }

  /** The title `set_title_and_description` derives, before the WIP rule. */
  function DerivedTitle(commits: seq<Commit>, sourceBranch: string, getIssue: string -> Option<IssueRef>,
                        humanizedTitle: string -> string): (r: string)
    ensures |commits| == 1 ==> r == commits[0].title
    ensures |commits| != 1 && IssueIid(sourceBranch).Some? && getIssue(IssueIid(sourceBranch).value).Some? ==>
              var issue := getIssue(IssueIid(sourceBranch).value).value;
              && (issue.Issue? ==> r == "Resolve \"" + issue.title + "\"")
              && (issue.ExternalIssue? ==> r == "Resolve " + issue.title)
    ensures |commits| != 1 && (IssueIid(sourceBranch).None? || getIssue(IssueIid(sourceBranch).value).None?) ==>
              r == humanizedTitle(sourceBranch)
  {
    var iid := IssueIid(sourceBranch);
    if |commits| == 1 then commits[0].title
    else if iid.Some? && getIssue(iid.value).Some? then
      match getIssue(iid.value).value
      case Issue(t) => "Resolve \"" + t + "\""
      case ExternalIssue(t) => "Resolve " + t
    else humanizedTitle(sourceBranch)
  }

  /** The title set: the derived one, made a WIP title when there are no commits. */
  function TitleFor(commits: seq<Commit>, sourceBranch: string, env: Env): (r: string)
    ensures |commits| == 0 ==> r == env.wipTitle(DerivedTitle(commits, sourceBranch, env.getIssue, env.humanizedTitle))
    ensures |commits| > 0 ==> r == DerivedTitle(commits, sourceBranch, env.getIssue, env.humanizedTitle)
  {
    var t := DerivedTitle(commits, sourceBranch, env.getIssue, env.humanizedTitle);
    if |commits| == 0 then env.wipTitle(t) else t
  }

  /** The description before the closing reference: the given one, else the
      stripped description of a single commit; a present project template
      replaces it. */
  function BaseDescription(description: Option<string>, commits: seq<Commit>, template: Option<string>): (r: Option<string>)
    ensures !Blank(template) ==> r == template
    ensures Blank(template) && description.Some? ==> r == description
    ensures Blank(template) && description.None? && |commits| == 1 && commits[0].description.Some? ==>
              r == Some(Strip(commits[0].description.value))
    ensures Blank(template) && description.None? && (|commits| != 1 || commits[0].description.None?) ==> r.None?
  {
    var d := if |commits| == 1 && description.None? then
               (match commits[0].description case None => None case Some(s) => Some(Strip(s)))
             else description;
    if !Blank(template) then template else d
  }

  /** The description set: with an issue number in the branch, `Closes #<iid>`
      ends it, after a blank line when there was a description already. */
  function DescriptionFor(description: Option<string>, commits: seq<Commit>, template: Option<string>,
                          iid: Option<string>): (r: Option<string>)
    ensures iid.None? ==> r == BaseDescription(description, commits, template)
    ensures iid.Some? ==> r.Some? && EndsWith(r.value, "Closes #" + iid.value)
    ensures iid.Some? && !Blank(BaseDescription(description, commits, template)) ==>
              r.value == BaseDescription(description, commits, template).value + "\n\n" + "Closes #" + iid.value
    ensures iid.Some? && Blank(BaseDescription(description, commits, template)) ==> r.value == "Closes #" + iid.value
  {
    var d := BaseDescription(description, commits, template);
    match iid
    case None => d
    case Some(i) =>
      var closes := "Closes #" + i;
      if !Blank(d) then
        assert d.value + "\n\n" + closes == (d.value + "\n\n") + closes;
        Some(d.value + "\n\n" + closes)
      else Some(closes)
  }

  class MergeRequest {
    var sourceProject: Option<ProjectId>
    var targetProject: Option<ProjectId>
    var sourceBranch: Option<string>
    var targetBranch: Option<string>
    var title: Option<string>
    var description: Option<string>
    var canBeCreated: bool
    var compareCommits: seq<Commit>
    /** The messages added to `errors[:base]`. */
    var errors: seq<string>

    /** `MergeRequest.new(params)`. */
    constructor (params: Params)
      ensures sourceProject == params.sourceProject && targetProject == params.targetProject
      ensures sourceBranch == params.sourceBranch && targetBranch == params.targetBranch
      ensures title == params.title && description == params.description
      ensures canBeCreated == false && compareCommits == [] && errors == []
    {
      sourceProject := params.sourceProject;
      targetProject := params.targetProject;
      sourceBranch := params.sourceBranch;
      targetBranch := params.targetBranch;
      title := params.title;
      description := params.description;
      canBeCreated := false;
      compareCommits := [];
      errors := [];
    }
  }

  /** `validate_branches`: appends each message in turn. */
  method ValidateBranches(mr: MergeRequest, params: Params, env: Env) returns (messages: seq<Option<string>>)
    requires mr.sourceProject.Some? && mr.targetProject.Some?
    ensures messages == BranchMessages(mr.sourceProject.value, mr.targetProject.value, mr.sourceBranch, mr.targetBranch,
                                       params.sourceBranch, params.targetBranch, env.branchExists)
  {
    messages := [];
    if Blank(mr.targetBranch) || Blank(mr.sourceBranch) {
      messages := messages + [if params.sourceBranch.Some? || params.targetBranch.Some? then Some(SELECT_BRANCHES) else None];
    }
    if mr.sourceProject == mr.targetProject && mr.targetBranch == mr.sourceBranch {
      messages := messages + [Some(DIFFERENT_BRANCHES)];
    }
    if !Blank(mr.sourceBranch) && !env.branchExists(mr.sourceProject.value, mr.sourceBranch.value) {
      messages := messages + [Some(SourceMissing(mr.sourceBranch.value))];
    }
    if !Blank(mr.targetBranch) && !env.branchExists(mr.targetProject.value, mr.targetBranch.value) {
      messages := messages + [Some(TargetMissing(mr.targetBranch.value))];
    }
  }

  /** `build_failed`: adds every non-nil message as an error, clears the
      commits and marks the merge request as not creatable. */
  method BuildFailed(mr: MergeRequest, messages: seq<Option<string>>)
    modifies mr
    ensures mr.errors == old(mr.errors) + Compact(messages)
    ensures mr.compareCommits == [] && !mr.canBeCreated
    ensures mr.sourceProject == old(mr.sourceProject) && mr.targetProject == old(mr.targetProject)
    ensures mr.sourceBranch == old(mr.sourceBranch) && mr.targetBranch == old(mr.targetBranch)
    ensures mr.title == old(mr.title) && mr.description == old(mr.description)
  {
    for i := 0 to |messages|
      invariant mr.errors == old(mr.errors) + Compact(messages[..i])
      invariant mr.sourceProject == old(mr.sourceProject) && mr.targetProject == old(mr.targetProject)
      invariant mr.sourceBranch == old(mr.sourceBranch) && mr.targetBranch == old(mr.targetBranch)
      invariant mr.title == old(mr.title) && mr.description == old(mr.description)
    {
      assert messages[..i + 1][..i] == messages[..i];
      assert messages[..i + 1][i] == messages[i];
      if messages[i].Some? {
        mr.errors := mr.errors + [messages[i].value];
      }
    }
    assert messages[..|messages|] == messages;
    mr.compareCommits := [];
    mr.canBeCreated := false;
  }

  /** `set_title_and_description`, on a merge request whose commits are set. */
  method SetTitleAndDescription(mr: MergeRequest, env: Env)
    requires mr.sourceBranch.Some? && mr.targetProject.Some?
    modifies mr`title, mr`description
    ensures mr.title == Some(TitleFor(old(mr.compareCommits), old(mr.sourceBranch).value, env))
    ensures mr.description == DescriptionFor(old(mr.description), old(mr.compareCommits),
                                             env.mergeRequestsTemplate(old(mr.targetProject).value),
                                             IssueIid(old(mr.sourceBranch).value))
    ensures mr.sourceProject == old(mr.sourceProject) && mr.targetProject == old(mr.targetProject)
    ensures mr.sourceBranch == old(mr.sourceBranch) && mr.targetBranch == old(mr.targetBranch)
    ensures mr.canBeCreated == old(mr.canBeCreated) && mr.compareCommits == old(mr.compareCommits)
    ensures mr.errors == old(mr.errors)
  {
    var iid := IssueIid(mr.sourceBranch.value);
    var commits := mr.compareCommits;
    SetDerivedTitle(mr, env);
    ApplyTemplate(mr, env.mergeRequestsTemplate(mr.targetProject.value));
    if iid.Some? {
      AppendClosingReference(mr, iid.value);
    }
    if |commits| == 0 {
      mr.title := Some(env.wipTitle(mr.title.value));
    }
  }

  /** The title from the commits, the branch's issue or the branch name, and
      a single commit's stripped description when there is none yet. */
  method SetDerivedTitle(mr: MergeRequest, env: Env)
    requires mr.sourceBranch.Some?
    modifies mr`title, mr`description
    ensures mr.title == Some(DerivedTitle(mr.compareCommits, mr.sourceBranch.value, env.getIssue, env.humanizedTitle))
    ensures mr.description == BaseDescription(old(mr.description), mr.compareCommits, None)
  {
    var branch := mr.sourceBranch.value;
    var iid := IssueIid(branch);
    var commits := mr.compareCommits;
    if |commits| == 1 {
      var commit := commits[0];
      mr.title := Some(commit.title);
      if mr.description.None? {
        mr.description := match commit.description case None => None case Some(s) => Some(Strip(s));
      }
    } else if iid.Some? && env.getIssue(iid.value).Some? {
      match env.getIssue(iid.value).value
      case Issue(t) => mr.title := Some("Resolve \"" + t + "\"");
      case ExternalIssue(t) => mr.title := Some("Resolve " + t);
    } else {
      mr.title := Some(env.humanizedTitle(branch));
    }
  }

  /** A present project template replaces the description. */
  method ApplyTemplate(mr: MergeRequest, template: Option<string>)
    modifies mr`description
    ensures !Blank(template) ==> mr.description == template
    ensures Blank(template) ==> mr.description == old(mr.description)
  {
    if !Blank(template) {
      mr.description := template;
    }
  }

  /** `Closes #<iid>` ends the description, after a blank line when there is
      a description already. */
  method AppendClosingReference(mr: MergeRequest, iid: string)
    modifies mr`description
    ensures !Blank(old(mr.description)) ==> mr.description == Some(old(mr.description).value + "\n\n" + "Closes #" + iid)
    ensures Blank(old(mr.description)) ==> mr.description == Some("Closes #" + iid)
  {
    var closes := "Closes #" + iid;
    if !Blank(mr.description) {
      assert mr.description.value + "\n\n" + closes == mr.description.value + "\n\n" + "Closes #" + iid;
      mr.description := Some(mr.description.value + "\n\n" + closes);
    } else {
      mr.description := Some(closes);
    }
  }

  /** The target project `execute` settles on: the requested one when the user
      can read it, else the project this one was forked from, else this one. */
  function TargetProjectFor(params: Params, env: Env): (r: ProjectId)
    ensures params.targetProject.Some? && env.canReadProject(params.targetProject.value) ==> r == params.targetProject.value
    ensures !(params.targetProject.Some? && env.canReadProject(params.targetProject.value)) ==>
              r == env.forkedFromProject.GetOr(env.project)
  {
    if params.targetProject.Some? && env.canReadProject(params.targetProject.value) then params.targetProject.value
    else env.forkedFromProject.GetOr(env.project)
  }

  /** The target branch `execute` settles on: the requested one, else the
      default branch of the target project. */
  function TargetBranchFor(params: Params, env: Env): (r: Option<string>)
    ensures params.targetBranch.Some? ==> r == params.targetBranch
    ensures params.targetBranch.None? ==> r == env.defaultBranch(TargetProjectFor(params, env))
  {
    if params.targetBranch.Some? then params.targetBranch else env.defaultBranch(TargetProjectFor(params, env))
  }

  /** The messages the branch checks of `execute` produce. */
  function ExecuteMessages(params: Params, env: Env): seq<Option<string>>
  {
    BranchMessages(params.sourceProject.GetOr(env.project), TargetProjectFor(params, env),
                   params.sourceBranch, TargetBranchFor(params, env),
                   params.sourceBranch, params.targetBranch, env.branchExists)
  }

  /** The defaulting steps of `execute`. */
  method ApplyDefaults(mr: MergeRequest, params: Params, env: Env)
    requires mr.sourceProject == params.sourceProject && mr.targetProject == params.targetProject
    requires mr.targetBranch == params.targetBranch
    modifies mr
    ensures mr.sourceProject == Some(params.sourceProject.GetOr(env.project))
    ensures mr.targetProject == Some(TargetProjectFor(params, env))
    ensures mr.targetBranch == TargetBranchFor(params, env)
    ensures mr.sourceBranch == old(mr.sourceBranch)
    ensures mr.title == old(mr.title) && mr.description == old(mr.description)
    ensures mr.canBeCreated == old(mr.canBeCreated) && mr.compareCommits == old(mr.compareCommits)
    ensures mr.errors == old(mr.errors)
  {
    if mr.sourceProject.None? {
      mr.sourceProject := Some(env.project);
    }
    if !(mr.targetProject.Some? && env.canReadProject(mr.targetProject.value)) {
      mr.targetProject := None;
    }
    if mr.targetProject.None? {
      mr.targetProject := Some(env.forkedFromProject.GetOr(env.project));
    }
    if mr.targetBranch.None? {
      mr.targetBranch := env.defaultBranch(mr.targetProject.value);
    }
  }

  /** `execute`: fills in the defaults, validates the branches, and either
      fails the build with the messages or sets the commits, the title and
      the description. */
  method Execute(params: Params, env: Env) returns (mr: MergeRequest)
    ensures fresh(mr)
    ensures mr.sourceProject == Some(params.sourceProject.GetOr(env.project))
    ensures mr.targetProject == Some(TargetProjectFor(params, env))
    ensures mr.sourceBranch == params.sourceBranch && mr.targetBranch == TargetBranchFor(params, env)
    ensures ExecuteMessages(params, env) != [] ==>
              && !mr.canBeCreated && mr.compareCommits == [] && mr.errors == Compact(ExecuteMessages(params, env))
              && mr.title == params.title && mr.description == params.description
    ensures ExecuteMessages(params, env) == [] ==>
              && mr.canBeCreated && mr.compareCommits == env.compareCommits && mr.errors == []
              && mr.title == Some(TitleFor(env.compareCommits, params.sourceBranch.value, env))
              && mr.description == DescriptionFor(params.description, env.compareCommits,
                                                  env.mergeRequestsTemplate(TargetProjectFor(params, env)),
                                                  IssueIid(params.sourceBranch.value))
  {
    mr := new MergeRequest(params);
    mr.canBeCreated := true;
    mr.compareCommits := [];
    ApplyDefaults(mr, params, env);
    var messages := ValidateBranches(mr, params, env);
    if messages != [] {
      BuildFailed(mr, messages);
      return;
    }
    mr.compareCommits := env.compareCommits;
    SetTitleAndDescription(mr, env);
  }
}
