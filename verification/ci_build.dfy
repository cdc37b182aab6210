/**
  `Ci::Build`: a CI job of a pipeline. The model covers the environment
  variables handed to the runner, the `when` and environment-action
  defaults, the playable, retryable and erasable predicates, token
  validation, and `erase`.

  Project, pipeline, runner, registry, secret and trigger variables, the
  server version and revision, and the save outcome are inputs; the build's
  status comes from `CommitStatus`, which is not part of this model.
*/
module CiBuild {
  import opened Wrappers
  import opened Strings

  type UserId = nat

  /** One entry of the variables list: `{ key:, value:, public: }`. */
  datatype Variable = Variable(key: string, value: Option<string>, public: bool)

  datatype User = User(id: UserId, email: string)

  datatype Status = Created | Pending | Running | Success | Failed | Canceled | Skipped

  /** `complete?`: the build finished, whatever the outcome. */
  predicate Complete(s: Status)
  {
    s == Success || s == Failed || s == Canceled
  }

  /** The keys of a variables list, in order. */
  function Keys(vars: seq<Variable>): (r: seq<string>)
    ensures |r| == |vars|
    ensures forall i :: 0 <= i < |vars| ==> r[i] == vars[i].key
  {
    seq(|vars|, i requires 0 <= i < |vars| => vars[i].key)
  }

  lemma KeysAppend(a: seq<Variable>, b: seq<Variable>)
    ensures Keys(a + b) == Keys(a) + Keys(b)
  {
    assert forall i :: 0 <= i < |a| + |b| ==> Keys(a + b)[i] == (Keys(a) + Keys(b))[i];
  }

  /** The twelve entries every build gets, in order. */
  const FIXED_KEYS: seq<string> :=
    ["CI", "GITLAB_CI", "CI_BUILD_ID", "CI_BUILD_TOKEN", "CI_BUILD_REF", "CI_BUILD_BEFORE_SHA",
     "CI_BUILD_REF_NAME", "CI_BUILD_NAME", "CI_BUILD_STAGE", "CI_SERVER_NAME", "CI_SERVER_VERSION",
     "CI_SERVER_REVISION"]

  /** The keys appended after the fixed ones, each only when its condition holds. */
  function OptionalKeys(tag: bool, triggered: bool, manual: bool): seq<string>
  {
    (if tag then ["CI_BUILD_TAG"] else []) + (if triggered then ["CI_BUILD_TRIGGERED"] else [])
      + (if manual then ["CI_BUILD_MANUAL"] else [])
  }

  /** Each optional key is present exactly when its condition holds, and
      none of them repeats a fixed key. */
  lemma OptionalKeysIff(tag: bool, triggered: bool, manual: bool)
    ensures var r := OptionalKeys(tag, triggered, manual);
      && ("CI_BUILD_TAG" in r <==> tag)
      && ("CI_BUILD_TRIGGERED" in r <==> triggered)
      && ("CI_BUILD_MANUAL" in r <==> manual)
      && (forall k :: k in r ==> k !in FIXED_KEYS)
  {
  }

  /** One optional entry: public, and present only when `cond` holds. */
  function Entry(cond: bool, key: string, value: Option<string>): (r: seq<Variable>)
    ensures Keys(r) == if cond then [key] else []
    ensures forall i :: 0 <= i < |r| ==> r[i].public
  {
    if cond then [Variable(key, value, true)] else []
  }

  /** The variables the pipeline's other parties contribute. */
  datatype Contributed = Contributed(
    project: seq<Variable>,
    pipeline: seq<Variable>,
    runner: Option<seq<Variable>>,
    registry: seq<Variable>,
    secret: seq<Variable>)

  class Build {
    const id: nat
    var token: Option<string>
    const sha: Option<string>
    const beforeSha: Option<string>
    const ref: string
    const name: string
    const stage: string
    const tag: bool
    const commands: Option<string>
    /** The stored `when`, and the one in the pipeline's configuration. */
    const whenAttribute: Option<string>
    const configWhen: Option<string>
    const yamlAttribute: Option<seq<Variable>>
    const configYaml: Option<seq<Variable>>
    /** `options[:environment]`, when the options have that key. */
    const environmentOptions: Option<map<string, Option<string>>>
    const environment: Option<string>
    const user: Option<User>
    /** `trigger_request.user_variables`, when there is a trigger request. */
    const triggerVariables: Option<seq<Variable>>
    const buildsEnabled: bool
    var status: Status
    var artifactsFile: bool
    var artifactsMetadata: bool
    /** `artifacts_expire_at`, a point in time. */
    var artifactsExpireAt: Option<int>
    /** The raw trace; `None` when there is none. */
    var trace: Option<string>
    var erasedBy: Option<UserId>
    var erasedAt: Option<int>

    constructor (id: nat, token: Option<string>, sha: Option<string>, beforeSha: Option<string>,
                 ref: string, name: string, stage: string, tag: bool, commands: Option<string>,
                 whenAttribute: Option<string>, configWhen: Option<string>,
                 yamlAttribute: Option<seq<Variable>>, configYaml: Option<seq<Variable>>,
                 environmentOptions: Option<map<string, Option<string>>>, environment: Option<string>,
                 user: Option<User>, triggerVariables: Option<seq<Variable>>, buildsEnabled: bool,
                 status: Status, artifactsFile: bool, artifactsMetadata: bool,
                 artifactsExpireAt: Option<int>, trace: Option<string>)
      ensures this.id == id && this.token == token && this.sha == sha && this.beforeSha == beforeSha
      ensures this.ref == ref && this.name == name && this.stage == stage && this.tag == tag
      ensures this.commands == commands && this.whenAttribute == whenAttribute && this.configWhen == configWhen
      ensures this.yamlAttribute == yamlAttribute && this.configYaml == configYaml
      ensures this.environmentOptions == environmentOptions && this.environment == environment
      ensures this.user == user && this.triggerVariables == triggerVariables && this.buildsEnabled == buildsEnabled
      ensures this.status == status && this.artifactsFile == artifactsFile && this.artifactsMetadata == artifactsMetadata
      ensures this.artifactsExpireAt == artifactsExpireAt
      ensures this.trace == trace && this.erasedBy == None && this.erasedAt == None
    {
      this.id := id;
      this.token := token;
      this.sha := sha;
      this.beforeSha := beforeSha;
      this.ref := ref;
      this.name := name;
      this.stage := stage;
      this.tag := tag;
      this.commands := commands;
      this.whenAttribute := whenAttribute;
      this.configWhen := configWhen;
      this.yamlAttribute := yamlAttribute;
      this.configYaml := configYaml;
      this.environmentOptions := environmentOptions;
      this.environment := environment;
      this.user := user;
      this.triggerVariables := triggerVariables;
      this.buildsEnabled := buildsEnabled;
      this.status := status;
      this.artifactsFile := artifactsFile;
      this.artifactsMetadata := artifactsMetadata;
      this.artifactsExpireAt := artifactsExpireAt;
      this.trace := trace;
      this.erasedBy := None;
      this.erasedAt := None;
    }

    /** `when`: the stored value, else the configured one, else `on_success`. */
    function When(): (r: string)
      ensures whenAttribute.Some? ==> r == whenAttribute.value
      ensures whenAttribute.None? && configWhen.Some? ==> r == configWhen.value
      ensures whenAttribute.None? && configWhen.None? ==> r == "on_success"
    {
      match whenAttribute
      case Some(w) => w
      case None => configWhen.GetOr("on_success")
    }

    predicate Manual()
    {
      When() == "manual"
    }

    /** A build is manual only when its stored `when`, or failing that its
        configured one, says so: the default never does. */
    lemma ManualOnlyWhenSaid()
      ensures Manual() <==> whenAttribute == Some("manual") || (whenAttribute.None? && configWhen == Some("manual"))
    {
      assert "on_success" != "manual" by { assert "on_success"[0] != "manual"[0]; }
    }

    /** `playable?`: a skipped manual build with commands in a project with builds enabled. */
    predicate Playable()
      reads this
    {
      buildsEnabled && commands.Some? && IsPresent(commands.value) && Manual() && status == Skipped
    }

    /** `retryable?`: a finished build with commands in a project with builds enabled. */
    predicate Retryable()
      reads this
    {
      buildsEnabled && commands.Some? && IsPresent(commands.value) && Complete(status)
    }

    /** A build that can be played cannot be retried, and the other way round. */
    lemma PlayableExcludesRetryable()
      ensures !(Playable() && Retryable())
      ensures Playable() ==> Manual() && !Complete(status)
    {
    }

    /** `has_environment?` */
    predicate HasEnvironment(): (r: bool)
      reads this
      ensures r <==> environment.Some? && LStrip(environment.value) != []
    {
      if environment.Some? then PresentIffLStripped(environment.value); IsPresent(environment.value)
      else false
    }

    /** `environment_action`: the `action` of the environment options, `start`
        when either is missing. */
    function EnvironmentAction(): (r: Option<string>)
      ensures environmentOptions.None? ==> r == Some("start")
      ensures environmentOptions.Some? && "action" !in environmentOptions.value ==> r == Some("start")
      ensures environmentOptions.Some? && "action" in environmentOptions.value ==> r == environmentOptions.value["action"]
    {
      match environmentOptions
      case None => Some("start")
      case Some(env) => if "action" in env then env["action"] else Some("start")
    }

    predicate StartsEnvironment()
      reads this
    {
      HasEnvironment() && EnvironmentAction() == Some("start")
    }

    predicate StopsEnvironment()
      reads this
    {
      HasEnvironment() && EnvironmentAction() == Some("stop")
    }

    /** A build never both starts and stops its environment, both need one,
        and a build with an environment and no action starts it. */
    lemma EnvironmentActionExclusive()
      ensures !(StartsEnvironment() && StopsEnvironment())
      ensures (StartsEnvironment() || StopsEnvironment()) ==> HasEnvironment()
      ensures HasEnvironment() && (environmentOptions.None? || "action" !in environmentOptions.value) ==>
                StartsEnvironment()
    {
      assert "start" != "stop" by { assert "start"[2] != "stop"[2]; }
    }

    /** `has_trace?` */
    predicate HasTrace()
      reads this
    {
      trace.Some? && IsPresent(trace.value)
    }

    /** `artifacts_expired?` at time `now`: there is an expiry time and it
        has passed. */
    predicate ArtifactsExpired(now: int)
      reads this
    {
      artifactsExpireAt.Some? && artifactsExpireAt.value < now
    }

    /** `artifacts?` at time `now`: an artifacts file that has not expired. */
    predicate Artifacts(now: int)
      reads this
    {
      !ArtifactsExpired(now) && artifactsFile
    }

    /** `erasable?` at time `now`. */
    predicate Erasable(now: int)
      reads this
    {
      Complete(status) && (Artifacts(now) || HasTrace())
    }

    /** `valid_token?`: the given token equals the build's, and there is one. */
    function ValidToken(given: string): (r: bool)
      reads this
      ensures token.None? ==> !r
      ensures r <==> token == Some(given)
    {
      token.Some? && given == token.value
    }

    /** `erase`: an erasable build loses its artifacts and its trace (writing
        no trace leaves an empty one) and records who erased it and when; any
        other build is left alone. The result is `saved`, the outcome of the
        final update. */
    method Erase(erasedByUser: Option<UserId>, now: int, saved: bool) returns (r: bool)
      modifies this
      ensures !old(Erasable(now)) ==> !r && unchanged(this)
      ensures old(Erasable(now)) ==>
                && r == saved
                && !artifactsFile && !artifactsMetadata && trace == Some("")
                && erasedBy == erasedByUser && erasedAt == Some(now) && artifactsExpireAt.None?
                && status == old(status) && token == old(token)
      // With no expiry time left, the artifacts no longer count as expired.
      ensures old(Erasable(now)) ==> !ArtifactsExpired(now) && !Erasable(now)
    {
      if !Erasable(now) {
        return false;
      }
      artifactsFile := false;
      artifactsMetadata := false;
      trace := Some("");
      erasedBy := erasedByUser;
      erasedAt := Some(now);
      artifactsExpireAt := None;
      r := saved;
      assert !IsPresent("");
    }

    /** `yaml_variables`: the stored ones, else the configured ones, else none. */
    function YamlVariables(): (r: seq<Variable>)
      ensures yamlAttribute.Some? ==> r == yamlAttribute.value
      ensures yamlAttribute.None? && configYaml.Some? ==> r == configYaml.value
      ensures yamlAttribute.None? && configYaml.None? ==> r == []
    {
      match yamlAttribute
      case Some(v) => v
      case None => configYaml.GetOr([])
    }

    /** `user_variables`: the user's id and e-mail, both public; none without a user. */
    function UserVariables(): (r: seq<Variable>)
      ensures r == [] <==> user.None?
      ensures user.Some? ==> Keys(r) == ["GITLAB_USER_ID", "GITLAB_USER_EMAIL"]
      ensures user.Some? ==> r[0].value == Some(DecimalString(user.value.id)) && r[1].value == Some(user.value.email)
      ensures forall v :: v in r ==> v.public
    {
      match user
      case None => []
      case Some(u) =>
        [Variable("GITLAB_USER_ID", Some(DecimalString(u.id)), true),
         Variable("GITLAB_USER_EMAIL", Some(u.email), true)]
    }

    /** The twelve entries every build starts with. */
    function FixedVariables(version: string, revision: string): (r: seq<Variable>)
      reads this
      ensures |r| == 12 && Keys(r) == FIXED_KEYS
      ensures forall i :: 0 <= i < |r| ==> (r[i].public <==> i != 3)
      ensures r[3].value == token && r[2].value == Some(DecimalString(id))
      ensures r[4].value == sha && r[6].value == Some(ref)
    {
      [Variable("CI", Some("true"), true),
       Variable("GITLAB_CI", Some("true"), true),
       Variable("CI_BUILD_ID", Some(DecimalString(id)), true),
       Variable("CI_BUILD_TOKEN", token, false),
       Variable("CI_BUILD_REF", sha, true),
       Variable("CI_BUILD_BEFORE_SHA", beforeSha, true),
       Variable("CI_BUILD_REF_NAME", Some(ref), true),
       Variable("CI_BUILD_NAME", Some(name), true),
       Variable("CI_BUILD_STAGE", Some(stage), true),
       Variable("CI_SERVER_NAME", Some("GitLab"), true),
       Variable("CI_SERVER_VERSION", Some(version), true),
       Variable("CI_SERVER_REVISION", Some(revision), true)]
    }

    /** The tag, trigger and manual entries, each when it applies. */
    function OptionalVariables(): (r: seq<Variable>)
      reads this
      ensures Keys(r) == OptionalKeys(tag, triggerVariables.Some?, Manual())
      ensures forall i :: 0 <= i < |r| ==> r[i].public
      ensures tag ==> r[0] == Variable("CI_BUILD_TAG", Some(ref), true)
    {
      var t := Entry(tag, "CI_BUILD_TAG", Some(ref));
      var g := Entry(triggerVariables.Some?, "CI_BUILD_TRIGGERED", Some("true"));
      var m := Entry(Manual(), "CI_BUILD_MANUAL", Some("true"));
      KeysAppend(t, g);
      KeysAppend(t + g, m);
      t + g + m
    }

    /** `predefined_variables`: the twelve fixed entries, then the tag, trigger
        and manual entries when they apply. Only the token is not public. */
    function PredefinedVariables(version: string, revision: string): (vars: seq<Variable>)
      reads this
      ensures Keys(vars) == FIXED_KEYS + OptionalKeys(tag, triggerVariables.Some?, Manual())
      ensures forall i :: 0 <= i < |vars| ==> (vars[i].public <==> i != 3)
      ensures |vars| >= 12 && vars[..12] == FixedVariables(version, revision)
      ensures tag ==> vars[12] == Variable("CI_BUILD_TAG", Some(ref), true)
    {
      var fixed := FixedVariables(version, revision);
      var extra := OptionalVariables();
      KeysAppend(fixed, extra);
      var vars := fixed + extra;
      assert vars[..12] == fixed;
      forall i | 0 <= i < |vars| ensures vars[i].public <==> i != 3 {
        if i >= 12 { assert vars[i] == extra[i - 12]; }
      }
      vars
    }

    /** `variables`: the lists concatenated in a fixed order. */
    method Variables(version: string, revision: string, contributed: Contributed) returns (vars: seq<Variable>)
      ensures vars == PredefinedVariables(version, revision) + contributed.project + contributed.pipeline
                      + contributed.runner.GetOr([]) + contributed.registry + YamlVariables()
                      + UserVariables() + contributed.secret + triggerVariables.GetOr([])
    {
      vars := PredefinedVariables(version, revision);
      vars := vars + contributed.project;
      vars := vars + contributed.pipeline;
      if contributed.runner.Some? {
        vars := vars + contributed.runner.value;
      } else {
        assert vars + [] == vars;
      }
      vars := vars + contributed.registry;
      vars := vars + YamlVariables();
      vars := vars + UserVariables();
      vars := vars + contributed.secret;
      if triggerVariables.Some? {
        vars := vars + triggerVariables.value;
      } else {
        assert vars + [] == vars;
      }
    }
  }
}
