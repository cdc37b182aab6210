/**
  `Gitlab::LockedPathMatcher`: finds the path lock that covers a file path.

  A path is split into its hierarchy tokens (`app/models/project.rb` gives
  `app`, `app/models`, `app/models/project.rb`); the lock of the first token
  that has one is the answer. The matcher remembers, in `nonLockedPaths`,
  every token it has looked up and found unlocked, and answers those from the
  cache without a lookup.
*/
module LockedPathMatcher {
  import opened Wrappers
  import opened Strings

  /** A row of the project's `path_locks`. */
  datatype PathLock = PathLock(id: nat, path: string, userId: nat)

  /** The hierarchy tokens of a list of path fragments: the first token is the
      first fragment, and each further token is the previous token, a `/` and
      the next fragment. */
  function Tokens(fragments: seq<string>): (r: seq<string>)
    ensures |r| == |fragments|
    ensures |r| > 0 ==> r[0] == fragments[0]
    ensures forall i :: 0 < i < |r| ==> r[i] == r[i - 1] + "/" + fragments[i]
  {
    if |fragments| == 0 then []
    else
      var prev := Tokens(fragments[..|fragments| - 1]);
      var last := fragments[|fragments| - 1];
      prev + [if |prev| == 0 then last else prev[|prev| - 1] + "/" + last]
  }

  /** Token `i` is the first `i + 1` fragments joined with `/`. */
  lemma {:induction false} TokenIsJoinedPrefix(fragments: seq<string>, i: nat)
    requires i < |fragments|
    ensures Tokens(fragments)[i] == Join(fragments[..i + 1], "/")
  {
    if i == 0 {
      assert fragments[..1] == [fragments[0]];
    } else {
      TokenIsJoinedPrefix(fragments, i - 1);
      var upTo := fragments[..i + 1];
      assert upTo[..i] == fragments[..i] && upTo[i] == fragments[i];
      assert Join(upTo, "/") == Join(fragments[..i], "/") + "/" + fragments[i];
    }
  }

  /** The tokens of `app/models/project.rb`. */
  lemma TokensExample()
    ensures Tokens(["app", "models", "project.rb"]) == ["app", "app/models", "app/models/project.rb"]
  {
    var t := Tokens(["app", "models", "project.rb"]);
    assert t[0] == "app";
    assert t[1] == "app" + "/" + "models" == "app/models";
    assert t[2] == "app/models" + "/" + "project.rb" == "app/models/project.rb";
  }

  /** The lock of the first token that has one, if any. */
  function FirstLock(locks: map<string, PathLock>, tokens: seq<string>): (r: Option<PathLock>)
    ensures r.None? <==> forall i :: 0 <= i < |tokens| ==> tokens[i] !in locks
    ensures r.Some? ==> exists i :: 0 <= i < |tokens| && tokens[i] in locks && r.value == locks[tokens[i]] &&
                                   forall j :: 0 <= j < i ==> tokens[j] !in locks
  {
    if |tokens| == 0 then None
    else if tokens[0] in locks then Some(locks[tokens[0]])
    else
      var r := FirstLock(locks, tokens[1..]);
      assert forall i :: 1 <= i < |tokens| ==> tokens[i] == tokens[1..][i - 1];
      if r.Some? then
        ghost var k :| 0 <= k < |tokens[1..]| && tokens[1..][k] in locks && r.value == locks[tokens[1..][k]] &&
                       forall j :: 0 <= j < k ==> tokens[1..][j] !in locks;
        assert tokens[k + 1] in locks;
        assert forall j :: 0 <= j < k + 1 ==> tokens[j] !in locks by {
          forall j | 0 <= j < k + 1 ensures tokens[j] !in locks {
            if j > 0 { assert tokens[j] == tokens[1..][j - 1]; }
          }
        }
        r
      else
        r
  }

  /** The example of the matcher's test: with `app` and `lib/gitlab/repo.rb`
      locked, `app/models/project.rb` is covered by the lock on `app`, and
      `lib` is not locked. */
  lemma LockExample(appLock: PathLock, repoLock: PathLock)
    ensures var locks := map["app" := appLock, "lib/gitlab/repo.rb" := repoLock];
      && FirstLock(locks, Tokens(["app", "models", "project.rb"])) == Some(appLock)
      && FirstLock(locks, Tokens(["lib"])) == None
      && FirstLock(locks, Tokens(["lib", "gitlab", "repo.rb"])) == Some(repoLock)
  {
    var locks := map["app" := appLock, "lib/gitlab/repo.rb" := repoLock];
    TokensExample();
    assert Tokens(["lib"]) == ["lib"];
    RepoLockExample(locks, repoLock);
  }

  /** `lib/gitlab/repo.rb` is covered only by its own lock. */
  lemma RepoLockExample(locks: map<string, PathLock>, repoLock: PathLock)
    requires "lib" !in locks && "lib/gitlab" !in locks
    requires "lib/gitlab/repo.rb" in locks && locks["lib/gitlab/repo.rb"] == repoLock
    ensures FirstLock(locks, Tokens(["lib", "gitlab", "repo.rb"])) == Some(repoLock)
  {
    var libTokens := Tokens(["lib", "gitlab", "repo.rb"]);
    assert libTokens[0] == "lib";
    assert libTokens[1] == "lib/gitlab";
    assert libTokens[2] == "lib/gitlab/repo.rb";
  }

  class Matcher {
    /** The project's path locks, by locked path. */
    const pathLocks: map<string, PathLock>
    /** `@non_locked_paths`: tokens already looked up and found unlocked. */
    var nonLockedPaths: seq<string>

    /** The cache only holds tokens that have no lock. */
    ghost predicate Valid()
      reads this
    {
      forall k :: 0 <= k < |nonLockedPaths| ==> nonLockedPaths[k] !in pathLocks
    }

    constructor (pathLocks: map<string, PathLock>)
      ensures Valid()
      ensures this.pathLocks == pathLocks && nonLockedPaths == []
    {
      this.pathLocks := pathLocks;
      nonLockedPaths := [];
    }

    /** `tokenizer`: the hierarchy tokens of `path` split on `/`. */
    method Tokenizer(path: string) returns (tokens: seq<string>)
      ensures tokens == Tokens(RubySplit(path, '/'))
    {
      var fragments := RubySplit(path, '/');
      tokens := [];
      var i := 0;
      while i < |fragments|
        invariant 0 <= i <= |fragments|
        invariant tokens == Tokens(fragments[..i])
      {
        assert fragments[..i + 1][..i] == fragments[..i];
        if |tokens| > 0 {
          tokens := tokens + [tokens[|tokens| - 1] + "/" + fragments[i]];
        } else {
          tokens := tokens + [fragments[i]];
        }
        i := i + 1;
      }
      assert fragments[..i] == fragments;
    }

    /** `find_lock`: a cached token answers "no lock" without a lookup;
        otherwise the lookup's answer is returned and, when it found no lock,
        the token is appended to the cache. */
    method FindLock(token: string) returns (lock: Option<PathLock>)
      requires Valid()
      modifies this`nonLockedPaths
      ensures Valid()
      ensures lock == if token in pathLocks then Some(pathLocks[token]) else None
      ensures nonLockedPaths ==
                if token in old(nonLockedPaths) || token in pathLocks then old(nonLockedPaths)
                else old(nonLockedPaths) + [token]
    {
      if token in nonLockedPaths {
        return None;
      }
      lock := if token in pathLocks then Some(pathLocks[token]) else None;
      if lock.None? {
        nonLockedPaths := nonLockedPaths + [token];
      }
    }

    /** `get_lock_info`: the lock of the first (shortest) token of `path` that
        has one. The cache only grows, and only by unlocked tokens of `path`. */
    method GetLockInfo(path: string) returns (lock: Option<PathLock>)
      requires Valid()
      modifies this`nonLockedPaths
      ensures Valid()
      ensures lock == FirstLock(pathLocks, Tokens(RubySplit(path, '/')))
      ensures |old(nonLockedPaths)| <= |nonLockedPaths| && nonLockedPaths[..|old(nonLockedPaths)|] == old(nonLockedPaths)
      ensures forall k :: |old(nonLockedPaths)| <= k < |nonLockedPaths| ==>
                nonLockedPaths[k] in Tokens(RubySplit(path, '/'))
    {
      var tokens := Tokenizer(path);
      var i := 0;
      while i < |tokens|
        invariant 0 <= i <= |tokens|
        invariant Valid()
        invariant FirstLock(pathLocks, tokens) == FirstLock(pathLocks, tokens[i..])
        invariant |old(nonLockedPaths)| <= |nonLockedPaths| && nonLockedPaths[..|old(nonLockedPaths)|] == old(nonLockedPaths)
        invariant forall k :: |old(nonLockedPaths)| <= k < |nonLockedPaths| ==> nonLockedPaths[k] in tokens
      {
        var found := FindLock(tokens[i]);
        if found.Some? {
          return found;
        }
        assert tokens[i..][1..] == tokens[i + 1..];
        i := i + 1;
      }
      return None;
    }
  }
}
