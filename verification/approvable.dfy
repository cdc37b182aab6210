/**
  The `Approvable` concern of a merge request: how many approvals are still
  needed, whether the merge request is approved, who may approve it, and the
  memoised state behind those answers.

  Database queries are inputs: the number of approvals given, the number of
  potential approvers, the user ids in `approvers_left`, the user ids of the
  existing approvals, and whether the user may update the merge request.
*/
module Approvable {
  import opened Wrappers
  import opened Strings

  type UserId = nat

  /** `approvals_required`: the merge request's own `approvals_before_merge`,
      or the target project's when the merge request's is nil. As Ruby's `||`
      treats 0 as a value, a merge request set to 0 requires none. */
  function ApprovalsRequired(mrApprovalsBeforeMerge: Option<nat>, projectApprovalsBeforeMerge: nat): (r: nat)
    ensures mrApprovalsBeforeMerge.Some? ==> r == mrApprovalsBeforeMerge.value
    ensures mrApprovalsBeforeMerge.None? ==> r == projectApprovalsBeforeMerge
  {
    mrApprovalsBeforeMerge.GetOr(projectApprovalsBeforeMerge)
  }

  /** `requires_approve?`: some approval is required. */
  predicate RequiresApprove(approvalsRequired: nat)
  {
    approvalsRequired != 0
  }

  /** The value `approvals_left` computes: the approvals still missing, but no
      more than the number of potential approvers, and never below zero. */
  function ApprovalsLeftOf(required: nat, approvalsCount: nat, potentialApprovers: nat): (r: nat)
    ensures r <= potentialApprovers
    ensures approvalsCount + r <= required || r == 0
    ensures approvalsCount + r >= required || r == potentialApprovers
  {
    var missing := required - approvalsCount;
    var capped := if missing < potentialApprovers then missing else potentialApprovers;
    if capped > 0 then capped else 0
  }

  /** `approved?`. */
  predicate Approved(approvalsLeft: int)
  {
    approvalsLeft < 1
  }

  /** A merge request is approved exactly when it has the required approvals or
      nobody is left who could approve it. */
  lemma ApprovedIff(required: nat, approvalsCount: nat, potentialApprovers: nat)
    ensures Approved(ApprovalsLeftOf(required, approvalsCount, potentialApprovers))
            <==> approvalsCount >= required || potentialApprovers == 0
  {
    var r := ApprovalsLeftOf(required, approvalsCount, potentialApprovers);
    if approvalsCount < required && potentialApprovers > 0 {
      assert r > 0;
    }
  }

  /** A merge request that requires no approval is always approved. */
  lemma NoRequirementApproved(approvalsCount: nat, potentialApprovers: nat)
    ensures Approved(ApprovalsLeftOf(0, approvalsCount, potentialApprovers))
  {
  }

  /** `any_approver_allowed?`: more approvals are missing than listed
      approvers remain, so other members may approve. */
  predicate AnyApproverAllowed(approvalsLeft: int, approversLeftSize: nat)
  {
    approvalsLeft > approversLeftSize
  }

  /** `approval?`: the user has not approved yet. */
  function NotYetApproved(approvalUserIds: seq<UserId>, user: UserId): (r: bool)
    ensures r <==> forall k :: 0 <= k < |approvalUserIds| ==> approvalUserIds[k] != user
  {
    user !in approvalUserIds
  }

  /** `can_approve?`. A listed approver who has not approved yet can approve,
      even the author; otherwise the author and users who cannot update the
      merge request cannot, and anyone else can only when they have not
      approved yet and other members are allowed to approve. */
  function CanApprove(user: Option<UserId>, author: Option<UserId>, approversLeft: set<UserId>,
                      canUpdate: bool, approvalUserIds: seq<UserId>, approvalsLeft: int): (r: bool)
    ensures user.None? ==> !r
    ensures user.Some? && user.value in approversLeft ==> r
    ensures user.Some? && user.value !in approversLeft ==>
              (r <==> Some(user.value) != author && canUpdate && NotYetApproved(approvalUserIds, user.value) &&
                      AnyApproverAllowed(approvalsLeft, |approversLeft|))
  {
    match user
    case None => false
    case Some(u) =>
      if u in approversLeft then true
      else if Some(u) == author then false
      else if !canUpdate then false
      else NotYetApproved(approvalUserIds, u) && AnyApproverAllowed(approvalsLeft, |approversLeft|)
  }

  /** Someone outside the approvers list can approve only while the merge
      request is not yet approved. */
  lemma OutsiderOnlyBeforeApproval(user: UserId, author: Option<UserId>, approversLeft: set<UserId>,
                                   canUpdate: bool, approvalUserIds: seq<UserId>,
                                   required: nat, approvalsCount: nat, potentialApprovers: nat)
    requires user !in approversLeft
    requires CanApprove(Some(user), author, approversLeft, canUpdate, approvalUserIds,
                        ApprovalsLeftOf(required, approvalsCount, potentialApprovers))
    ensures !Approved(ApprovalsLeftOf(required, approvalsCount, potentialApprovers))
    ensures Some(user) != author && user !in approvalUserIds
  {
  }

  /** The ids `approver_ids=` reads from its argument: split on `,`, each stripped. */
  function ParseIds(value: string): (r: seq<string>)
    ensures |r| == |RubySplit(value, ',')|
    ensures forall k :: 0 <= k < |r| ==> r[k] == Strip(RubySplit(value, ',')[k]) && ',' !in r[k]
  {
    var parts := RubySplit(value, ',');
    seq(|parts|, k requires 0 <= k < |parts| => Strip(parts[k]))
  }

  /** The comma pieces of `" 5 , 6"`: the comma is its only separator. */
  lemma SplitSpacedIds(value: string)
    requires |value| == 6 && value[0] == ' ' && value[1] == '5' && value[2] == ' '
    requires value[3] == ',' && value[4] == ' ' && value[5] == '6'
    ensures SplitOn(value, ',') == [value[..3], value[4..]]
  {
    var x, w := value[..3], value[4..];
    assert ',' !in x by {
      assert x[0] == ' ' && x[1] == '5' && x[2] == ' ';
    }
    assert ',' !in w by {
      assert w[0] == ' ' && w[1] == '6';
    }
    SplitOnPiece(x, ',');
    SplitOnSepPiece(x, w, ',');
    assert x + [','] + w == value;
  }

  /** `" 5 , 6".split(",")` keeps both pieces: the last is not empty. */
  lemma RubySplitSpacedIds(value: string)
    requires |value| == 6 && value[0] == ' ' && value[1] == '5' && value[2] == ' '
    requires value[3] == ',' && value[4] == ' ' && value[5] == '6'
    ensures RubySplit(value, ',') == [value[..3], value[4..]]
  {
    var parts := [value[..3], value[4..]];
    SplitSpacedIds(value);
    assert parts[1] != "";
    assert DropTrailingEmpty(parts) == parts;
  }

  /** Two characters, the second a space: `rstrip` keeps the first. */
  lemma StripOneTrailingSpace(s: string)
    requires |s| == 2 && IsSpace(s[1]) && !IsSpace(s[0]) && s[0] != '\0'
    ensures RStrip(s) == s[..1]
  {
    assert s[..1][..0] == [];
  }

  /** A prefix one character longer. */
  lemma SnocPrefix(s: string, k: nat)
    requires k < |s|
    ensures s[..k] + [s[k]] == s[..k + 1]
  {
  }

  /** A leading space before a non-space: `lstrip` drops just that one. */
  lemma LStripOneLeadingSpace(s: string)
    requires |s| >= 2 && IsSpace(s[0]) && !IsSpace(s[1])
    ensures LStrip(s) == s[1..]
  {
  }

  /** `" 5 ".strip` is `"5"`. */
  lemma StripFirstId(x: string)
    requires |x| == 3 && x[0] == ' ' && x[1] == '5' && x[2] == ' '
    ensures Strip(x) == "5"
  {
    LStripOneLeadingSpace(x);
    StripOneTrailingSpace(x[1..]);
    assert x[1..][..1] == "5";
  }

  /** `" 6".strip` is `"6"`. */
  lemma StripSecondId(y: string)
    requires |y| == 2 && y[0] == ' ' && y[1] == '6'
    ensures Strip(y) == "6"
  {
    LStripOneLeadingSpace(y);
    assert y[1..] == "6";
  }

  /** The two pieces of `" 5 , 6"`, stripped. */
  lemma StripSpacedIds(value: string)
    requires |value| == 6 && value[0] == ' ' && value[1] == '5' && value[2] == ' '
    requires value[3] == ',' && value[4] == ' ' && value[5] == '6'
    ensures Strip(value[..3]) == "5" && Strip(value[4..]) == "6"
  {
    StripFirstId(value[..3]);
    StripSecondId(value[4..]);
  }

  /** Whitespace around the ids is stripped: `" 5 , 6"` (spelt out character
      by character) gives `["5", "6"]`. */
  lemma ParseIdsSpaced(value: string)
    requires |value| == 6 && value[0] == ' ' && value[1] == '5' && value[2] == ' '
    requires value[3] == ',' && value[4] == ' ' && value[5] == '6'
    ensures ParseIds(value) == ["5", "6"]
  {
    RubySplitSpacedIds(value);
    StripSpacedIds(value);
    var r := ParseIds(value);
    assert |r| == 2 && r[0] == "5" && r[1] == "6";
  }

  /** The comma pieces of `",5"`. */
  lemma SplitLeadingComma(value: string)
    requires value == ",5"
    ensures SplitOn(value, ',') == ["", value[1..]]
  {
    SnocPrefix(value, 0);
    SplitOnSep(value[..0], ',');
    assert SplitOn(value[..1], ',') == ["", ""];
    SnocPrefix(value, 1);
    SplitOnSnoc(value[..1], value[1], ',');
    assert value[..2] == value && "" + [value[1]] == value[1..];
  }

  /** A leading comma gives an empty first id: `",5"` gives `["", "5"]`. */
  lemma ParseIdsLeadingComma(value: string)
    requires value == ",5"
    ensures ParseIds(value) == ["", "5"]
  {
    var parts := SplitOn(value, ',');
    SplitLeadingComma(value);
    assert DropTrailingEmpty(parts) == parts;
    assert Strip(value[1..]) == "5";
  }

  /** A trailing comma adds no id: `"5,"` gives `["5"]`. */
  lemma ParseIdsTrailingComma(value: string)
    requires value == "5,"
    ensures ParseIds(value) == ["5"]
  {
    SplitOnSnoc("", '5', ',');
    assert "" + ['5'] == "5";
    SplitOnSep("5", ',');
    assert "5" + [','] == value;
    var parts := SplitOn(value, ',');
    assert parts == ["5", ""];
    assert parts[..1] == ["5"];
    assert DropTrailingEmpty(parts) == ["5"];
  }

  /** Parsing a comma-joined list of ids gives the list back, when each id is
      non-empty, holds no comma and has no surrounding whitespace. */
  lemma ParseIdsJoin(ids: seq<string>)
    requires forall k :: 0 <= k < |ids| ==> ids[k] != "" && ',' !in ids[k] && Strip(ids[k]) == ids[k]
    ensures ParseIds(Join(ids, ",")) == ids
  {
    RubySplitJoin(ids, ',');
  }

  /** The `user_id` each id string becomes: the integer column casts it with
      `to_i`. */
  function CastIds(ids: seq<string>): (r: seq<int>)
    ensures |r| == |ids|
    ensures forall k :: 0 <= k < |ids| ==> r[k] == ToI(ids[k])
  {
    seq(|ids|, k requires 0 <= k < |ids| => ToI(ids[k]))
  }

  /** Whether `approver_ids=` passes over a user id: it is the author's. */
  predicate IsAuthor(userId: int, authorId: Option<UserId>)
  {
    authorId.Some? && userId == authorId.value
  }

  /** The approver records `approver_ids=` builds for the user ids, in order:
      one per id that is not the author's and whose user is not among the
      `persisted` approvers (`find_or_initialize_by` finds those). An id
      listed twice builds two records, as the lookup only sees saved rows. */
  function NewApprovers(persisted: seq<int>, userIds: seq<int>, authorId: Option<UserId>): (r: seq<int>)
    ensures |r| <= |userIds|
  {
    if |userIds| == 0 then []
    else
      var prev := NewApprovers(persisted, userIds[..|userIds| - 1], authorId);
      var u := userIds[|userIds| - 1];
      if IsAuthor(u, authorId) || u in persisted then prev else prev + [u]
  }

  /** Every record built is for a listed id that is neither the author's nor
      an existing approver's, and every such id gets one. */
  lemma {:induction false} NewApproversFacts(persisted: seq<int>, userIds: seq<int>, authorId: Option<UserId>)
    ensures var r := NewApprovers(persisted, userIds, authorId);
      && (forall k :: 0 <= k < |r| ==> r[k] in userIds && r[k] !in persisted && !IsAuthor(r[k], authorId))
      && (forall u :: u in userIds && !IsAuthor(u, authorId) && u !in persisted ==> u in r)
    decreases |userIds|
  {
    if |userIds| > 0 {
      var init := userIds[..|userIds| - 1];
      NewApproversFacts(persisted, init, authorId);
      assert userIds == init + [userIds[|userIds| - 1]];
    }
  }

  /** One more id walked by `approver_ids=`. */
  lemma NewApproversStep(persisted: seq<int>, userIds: seq<int>, authorId: Option<UserId>, i: nat)
    requires i < |userIds|
    ensures var prev := NewApprovers(persisted, userIds[..i], authorId);
      NewApprovers(persisted, userIds[..i + 1], authorId) ==
        if IsAuthor(userIds[i], authorId) || userIds[i] in persisted then prev else prev + [userIds[i]]
  {
    assert userIds[..i + 1][..i] == userIds[..i];
    assert userIds[..i + 1][i] == userIds[i];
  }

  /** Appending one element after a concatenation. */
  lemma AppendOne<T>(a: seq<T>, b: seq<T>, x: T)
    ensures a + (b + [x]) == (a + b) + [x]
  {
  }

  /** The ids are handled one by one and in order: the records built for a
      list are those built for its first part, then for the rest. */
  lemma {:induction false} NewApproversAppend(persisted: seq<int>, a: seq<int>, b: seq<int>, authorId: Option<UserId>)
    ensures NewApprovers(persisted, a + b, authorId) ==
            NewApprovers(persisted, a, authorId) + NewApprovers(persisted, b, authorId)
    decreases |b|
  {
    if |b| == 0 {
      assert a + b == a;
    } else {
      var b' := b[..|b| - 1];
      assert (a + b)[..|a + b| - 1] == a + b';
      assert (a + b)[|a + b| - 1] == b[|b| - 1];
      NewApproversAppend(persisted, a, b', authorId);
    }
  }

  /** A single id builds a record exactly when it is not the author's and its
      user is not an approver yet. */
  lemma NewApproversOne(persisted: seq<int>, u: int, authorId: Option<UserId>)
    ensures NewApprovers(persisted, [u], authorId) ==
            if IsAuthor(u, authorId) || u in persisted then [] else [u]
  {
    assert [u][..0] == [];
  }

  /** An id listed twice, as in `approver_ids = "3,3"`, builds two records
      for the same user: the lookup does not see the record built for the
      first occurrence. */
  lemma RepeatedIdBuildsTwice(persisted: seq<int>, u: int, authorId: Option<UserId>)
    requires !IsAuthor(u, authorId) && u !in persisted
    ensures NewApprovers(persisted, [u, u], authorId) == [u, u]
  {
    NewApproversOne(persisted, u, authorId);
    NewApproversAppend(persisted, [u], [u], authorId);
    assert [u] + [u] == [u, u];
  }

  /** `approver_ids=` as written: the author test compares the `String` from
      the split with the author's `Integer` id, which is never equal, so no id
      is ever passed over. */
  function NewApproversAsWritten(persisted: seq<int>, userIds: seq<int>, authorId: Option<UserId>): (r: seq<int>)
    ensures r == NewApprovers(persisted, userIds, None)
  {
    if |userIds| == 0 then []
    else
      var prev := NewApproversAsWritten(persisted, userIds[..|userIds| - 1], authorId);
      var u := userIds[|userIds| - 1];
      if u in persisted then prev else prev + [u]
  }

  /** The author listing themselves: the code as written makes them an
      approver, the intended behaviour passes over them. */
  lemma AuthorAddedAsWritten(persisted: seq<int>, author: UserId)
    requires author !in persisted
    ensures NewApproversAsWritten(persisted, [author], Some(author)) == [author]
    ensures NewApprovers(persisted, [author], Some(author)) == []
  {
    NewApproversOne(persisted, author, None);
    NewApproversOne(persisted, author, Some(author));
  }

  /** The author with id 5 setting `approver_ids = "5"`. */
  lemma AuthorFiveAddedAsWritten()
    ensures ToI("5") == 5
    ensures NewApproversAsWritten([], [5], Some(5)) == [5]
    ensures NewApprovers([], [5], Some(5)) == []
  {
    assert DecimalString(5) == "5";
    ToIRoundTrip(5);
    AuthorAddedAsWritten([], 5);
  }

  /** The approval state of one merge request, with its memoised values. */
  class MergeRequest {
    /** The merge request's own `approvals_before_merge`. */
    var approvalsBeforeMerge: Option<nat>
    /** The target project's `approvals_before_merge`. */
    const projectApprovalsBeforeMerge: nat
    const authorId: Option<UserId>
    /** `approvers`: the `user_id` of each approver record of the merge request. */
    var approvers: seq<int>
    /** `@approvals_left`. */
    var approvalsLeftMemo: Option<nat>
    /** `@approver_ids_including_groups`. */
    var approverIdsMemo: Option<seq<UserId>>
    /** `@approvers_overwritten`. */
    var approversOverwrittenMemo: Option<bool>

    constructor (approvalsBeforeMerge: Option<nat>, projectApprovalsBeforeMerge: nat, authorId: Option<UserId>)
      ensures this.approvalsBeforeMerge == approvalsBeforeMerge
      ensures this.projectApprovalsBeforeMerge == projectApprovalsBeforeMerge
      ensures this.authorId == authorId
      ensures approvers == [] && approvalsLeftMemo.None? && approverIdsMemo.None? && approversOverwrittenMemo.None?
    {
      this.approvalsBeforeMerge := approvalsBeforeMerge;
      this.projectApprovalsBeforeMerge := projectApprovalsBeforeMerge;
      this.authorId := authorId;
      approvers := [];
      approvalsLeftMemo := None;
      approverIdsMemo := None;
      approversOverwrittenMemo := None;
    }

    function Required(): nat
      reads this
    {
      ApprovalsRequired(approvalsBeforeMerge, projectApprovalsBeforeMerge)
    }

    /** `approvals_left`: the memoised value when there is one (0 included),
        else the value computed now, which is then memoised. */
    method ApprovalsLeft(approvalsCount: nat, potentialApprovers: nat) returns (left: nat)
      modifies this`approvalsLeftMemo
      ensures old(approvalsLeftMemo).Some? ==> left == old(approvalsLeftMemo).value
      ensures old(approvalsLeftMemo).None? ==> left == ApprovalsLeftOf(Required(), approvalsCount, potentialApprovers)
      ensures approvalsLeftMemo == Some(left)
    {
      if approvalsLeftMemo.None? {
        approvalsLeftMemo := Some(ApprovalsLeftOf(Required(), approvalsCount, potentialApprovers));
      }
      left := approvalsLeftMemo.value;
    }

    /** `approvers_overwritten?`: the memoised answer when there is one,
        else whether the merge request has its own approvers or approver groups. */
    method ApproversOverwritten(hasApprovers: bool, hasApproverGroups: bool) returns (overwritten: bool)
      modifies this`approversOverwrittenMemo
      ensures old(approversOverwrittenMemo).Some? ==> overwritten == old(approversOverwrittenMemo).value
      ensures old(approversOverwrittenMemo).None? ==> overwritten == (hasApprovers || hasApproverGroups)
      ensures approversOverwrittenMemo == Some(overwritten)
    {
      if approversOverwrittenMemo.Some? {
        return approversOverwrittenMemo.value;
      }
      overwritten := hasApprovers || hasApproverGroups;
      approversOverwrittenMemo := Some(overwritten);
    }

    /** `approvable_expire_state`: forgets the three memoised values, so the
        next `approvals_left` is computed afresh. */
    method ExpireState()
      modifies this`approvalsLeftMemo, this`approverIdsMemo, this`approversOverwrittenMemo
      ensures approvalsLeftMemo.None? && approverIdsMemo.None? && approversOverwrittenMemo.None?
    {
      approvalsLeftMemo := None;
      approverIdsMemo := None;
      approversOverwrittenMemo := None;
    }

    /** `approver_ids=`: builds an approver record for each listed id that
        is not the author's and whose user is not an approver yet. */
    method SetApproverIds(value: string)
      modifies this`approvers
      ensures approvers == old(approvers) + NewApprovers(old(approvers), CastIds(ParseIds(value)), authorId)
    {
      BuildApprovers(CastIds(ParseIds(value)));
    }

    /** The loop of `approver_ids=`, over the ids once cast to user ids. */
    method BuildApprovers(userIds: seq<int>)
      modifies this`approvers
      ensures approvers == old(approvers) + NewApprovers(old(approvers), userIds, authorId)
    {
      var persisted := approvers;
      for i := 0 to |userIds|
        invariant approvers == persisted + NewApprovers(persisted, userIds[..i], authorId)
      {
        var userId := userIds[i];
        NewApproversStep(persisted, userIds, authorId, i);
        if authorId.Some? && userId == authorId.value {
          // the author cannot approve their own merge request
        } else if userId !in persisted {
          AppendOne(persisted, NewApprovers(persisted, userIds[..i], authorId), userId);
          approvers := approvers + [userId];
        }
      }
      assert userIds[..|userIds|] == userIds;
    }
  }

  /** After `approvable_expire_state`, `approvals_left` reflects the current
      approvals rather than the memoised count. */
  method ExpireThenRecompute(mr: MergeRequest, approvalsCount: nat, potentialApprovers: nat) returns (left: nat)
    modifies mr
    ensures left == ApprovalsLeftOf(mr.Required(), approvalsCount, potentialApprovers)
  {
    mr.ExpireState();
    left := mr.ApprovalsLeft(approvalsCount, potentialApprovers);
  }
}
