/**
  `Namespace`: the owner of projects (a user's personal namespace or a
  group). Modelled here: turning an arbitrary string (such as an e-mail
  address) into a free namespace path (`clean_path`), the case-insensitive
  lookup it relies on, a namespace's full path through its parents, and its
  kind.
*/
module Namespaces {
  import opened Wrappers
  import opened Strings

  /** A namespace row: its path, its display name, its STI `type` (nil for a
      user namespace) and its parent group. */
  datatype Namespace = Namespace(path: string, name: string, nsType: Option<string>, parent: Option<Namespace>)

  /** `kind`: `"group"` for a group, `"user"` for anything else. */
  function Kind(n: Namespace): (r: string)
    ensures r == "group" <==> n.nsType == Some("Group")
    ensures r == "user" <==> n.nsType != Some("Group")
  {
    if n.nsType == Some("Group") then "group" else "user"
  }

  /** `full_path`: the paths from the root group down to `n`, joined with `/`. */
  function FullPath(n: Namespace): (r: string)
    ensures n.parent.None? ==> r == n.path
    ensures EndsWith(r, n.path)
    ensures n.parent.Some? ==> StartsWith(r, FullPath(n.parent.value) + "/")
    ensures n.parent.Some? ==> |r| == |FullPath(n.parent.value)| + 1 + |n.path|
    decreases n
  {
    match n.parent
    case None => n.path
    case Some(p) => FullPath(p) + "/" + n.path
  }

  /** The paths of `n`'s ancestors, root first, then `n`'s own. */
  function Ancestry(n: Namespace): (r: seq<string>)
    ensures |r| >= 1 && r[|r| - 1] == n.path
    decreases n
  {
    match n.parent
    case None => [n.path]
    case Some(p) => Ancestry(p) + [n.path]
  }

  /** The full path is the ancestry joined with `/`. */
  lemma {:induction false} FullPathIsJoinedAncestry(n: Namespace)
    ensures FullPath(n) == Join(Ancestry(n), "/")
    decreases n
  {
    match n.parent
    case None =>
    case Some(p) =>
      FullPathIsJoinedAncestry(p);
      var a := Ancestry(n);
      assert a[..|a| - 1] == Ancestry(p);
  }

  /** `find_by_path_or_name`: a namespace whose path or name equals `query`
      ignoring case. */
  function FindByPathOrName(namespaces: seq<Namespace>, query: string): (r: Option<Namespace>)
    ensures r.Some? <==> exists k :: 0 <= k < |namespaces| && Matches(namespaces[k], query)
    ensures r.Some? ==> r.value in namespaces && Matches(r.value, query)
  {
    if |namespaces| == 0 then None
    else if Matches(namespaces[0], query) then Some(namespaces[0])
    else
      var r := FindByPathOrName(namespaces[1..], query);
      assert forall k :: 1 <= k < |namespaces| ==> namespaces[k] == namespaces[1..][k - 1];
      r
  }

  predicate Matches(n: Namespace, query: string)
  {
    Downcase(n.path) == Downcase(query) || Downcase(n.name) == Downcase(query)
  }

  /** The characters a namespace path may hold: `[a-zA-Z0-9_\-.]`. */
  predicate IsPathChar(c: char)
  {
    'a' <= c <= 'z' || 'A' <= c <= 'Z' || '0' <= c <= '9' || c == '_' || c == '-' || c == '.'
  }

  /** `gsub!(/@.*\z/, "")`: cuts `s` at the first `@` that has no line break
      after it (the regex's `.` does not match a line break); unchanged when
      there is none. */
  function RemoveFromAt(s: string): (r: string)
    ensures |r| <= |s| && r == s[..|r|]
    ensures r == s || (s[|r|] == '@' && '\n' !in s[|r| + 1..])
    ensures forall k :: 0 <= k < |r| ==> !(r[k] == '@' && '\n' !in s[k + 1..])
  {
    if |s| == 0 then s
    else if s[0] == '@' && '\n' !in s[1..] then ""
    else
      var rest := RemoveFromAt(s[1..]);
      assert forall k :: 0 < k <= |rest| ==> s[k + 1..] == s[1..][k..];
      [s[0]] + rest
  }

  /** An address without line breaks loses everything from its first `@`. */
  lemma RemoveFromAtSingleLine(s: string, i: nat)
    requires '\n' !in s && i < |s| && s[i] == '@' && '@' !in s[..i]
    ensures RemoveFromAt(s) == s[..i]
  {
    assert '\n' !in s[i + 1..];
    assert forall k :: 0 <= k < i ==> s[k] != '@' by {
      forall k | 0 <= k < i ensures s[k] != '@' {
        assert s[k] == s[..i][k];
      }
    }
  }

  /** `gsub!(/[^a-zA-Z0-9_\-\.]/, "")`: keeps only the allowed characters, in order. */
  function KeepPathChars(s: string): (r: string)
    ensures |r| <= |s|
    ensures forall k :: 0 <= k < |r| ==> IsPathChar(r[k])
    ensures (forall k :: 0 <= k < |s| ==> IsPathChar(s[k])) ==> r == s
    ensures |s| == 1 ==> r == (if IsPathChar(s[0]) then s else [])
  {
    if |s| == 0 then s
    else
      var rest := KeepPathChars(s[..|s| - 1]);
      var c := s[|s| - 1];
      assert s == s[..|s| - 1] + [c];
      assert |s| == 1 ==> rest == [] && s == [c];
      if IsPathChar(c) then rest + [c] else rest
  }

  /** Filtering distributes over concatenation: every allowed character is
      kept, in its place, and nothing else is. */
  lemma {:induction false} KeepPathCharsAppend(a: string, b: string)
    ensures KeepPathChars(a + b) == KeepPathChars(a) + KeepPathChars(b)
    decreases |b|
  {
    if |b| > 0 {
      var init := b[..|b| - 1];
      KeepPathCharsAppend(a, init);
      assert (a + b)[..|a + b| - 1] == a + init;
      assert b[..|b| - 1] == init;
    } else {
      assert a + b == a;
    }
  }

  /** A run of `.atom`, `.git` and `.` in any order and number, which
      `(\.atom|\.git|\.)*` matches. */
  predicate IsTrailer(t: string)
    decreases |t|
  {
    |t| == 0 ||
    (t[0] == '.' && IsTrailer(t[1..])) ||
    (StartsWith(t, ".git") && IsTrailer(t[4..])) ||
    (StartsWith(t, ".atom") && IsTrailer(t[5..]))
  }

  /** The leftmost position from `p` on where a trailer runs to the end. */
  function TrailerStart(s: string, p: nat): (r: nat)
    requires p <= |s|
    ensures p <= r <= |s| && IsTrailer(s[r..])
    ensures forall q :: p <= q < r ==> !IsTrailer(s[q..])
    decreases |s| - p
  {
    if IsTrailer(s[p..]) then p else TrailerStart(s, p + 1)
  }

  /** A piece of a trailer just in front of a trailer would make a longer
      trailer. */
  lemma PieceBeforeTrailer(s: string, p: nat, piece: string)
    requires piece == "." || piece == ".git" || piece == ".atom"
    requires |piece| <= p <= |s|
    requires IsTrailer(s[p..]) && !IsTrailer(s[p - |piece|..])
    ensures s[p - |piece|..p] != piece
  {
    var t := s[p - |piece|..];
    assert t[|piece|..] == s[p..];
    assert t[..|piece|] == s[p - |piece|..p];
  }

  /** What the leftmost trailer leaves in front of it cannot end in `.`,
      `.git` or `.atom`: otherwise the trailer would start earlier. */
  lemma NoTrailerBefore(s: string)
    ensures var r := s[..TrailerStart(s, 0)];
      !EndsWith(r, ".") && !EndsWith(r, ".git") && !EndsWith(r, ".atom")
  {
    var p := TrailerStart(s, 0);
    var r := s[..p];
    if p >= 1 {
      PieceBeforeTrailer(s, p, ".");
      assert r[p - 1..] == s[p - 1..p];
    }
    if p >= 4 {
      PieceBeforeTrailer(s, p, ".git");
      assert r[p - 4..] == s[p - 4..p];
    }
    if p >= 5 {
      PieceBeforeTrailer(s, p, ".atom");
      assert r[p - 5..] == s[p - 5..p];
    }
  }

  /** `gsub!(/(\.atom|\.git|\.)*\z/, "")`: drops the longest trailer. */
  function RemoveTrailer(s: string): (r: string)
    ensures |r| <= |s| && r == s[..|r|]
    ensures !EndsWith(r, ".") && !EndsWith(r, ".git") && !EndsWith(r, ".atom")
    // What is removed is a trailer, and it is the longest one.
    ensures IsTrailer(s[|r|..])
    ensures forall q :: 0 <= q < |r| ==> !IsTrailer(s[q..])
  {
    NoTrailerBefore(s);
    s[..TrailerStart(s, 0)]
  }

  /** `gsub!(/\A\-+/, "")`: drops the leading dashes. */
  function RemoveLeadingDashes(s: string): (r: string)
    ensures |r| <= |s| && r == s[|s| - |r|..]
    ensures r == [] || r[0] != '-'
    ensures forall k :: 0 <= k < |s| - |r| ==> s[k] == '-'
  {
    if |s| > 0 && s[0] == '-' then
      var rest := RemoveLeadingDashes(s[1..]);
      assert forall k :: 1 <= k < |s| - |rest| ==> s[k] == s[1..][k - 1];
      rest
    else s
  }

  /** A suffix of a string that ends with `e` ends with `e` only if the
      string does. */
  lemma SuffixEnd(t: string, u: string, e: string)
    requires |u| <= |t| && u == t[|t| - |u|..]
    ensures EndsWith(u, e) ==> EndsWith(t, e)
  {
    if EndsWith(u, e) {
      assert t[|t| - |e|..] == u[|u| - |e|..];
    }
  }

  /** The sanitising `gsub!` calls of `clean_path`, in order. */
  function Sanitise(path: string): string
  {
    RemoveLeadingDashes(RemoveTrailer(KeepPathChars(RemoveFromAt(path))))
  }

  /** What the sanitising steps leave: path characters only, no leading `-`
      and no trailing `.`, `.git` or `.atom`. */
  lemma SanitiseFacts(path: string)
    ensures var r := Sanitise(path);
      && (forall k :: 0 <= k < |r| ==> IsPathChar(r[k]))
      && (r == [] || r[0] != '-')
      && !EndsWith(r, ".") && !EndsWith(r, ".git") && !EndsWith(r, ".atom")
  {
    var allowed := KeepPathChars(RemoveFromAt(path));
    var trimmed := RemoveTrailer(allowed);
    var undashed := RemoveLeadingDashes(trimmed);
    SuffixEnd(trimmed, undashed, ".");
    SuffixEnd(trimmed, undashed, ".git");
    SuffixEnd(trimmed, undashed, ".atom");
    forall k | 0 <= k < |undashed|
      ensures IsPathChar(undashed[k])
    {
      assert undashed[k] == trimmed[|trimmed| - |undashed| + k] == allowed[|trimmed| - |undashed| + k];
    }
  }

  /** The fallback base `"blank"` is itself a clean path. */
  lemma BlankIsClean()
    ensures forall k :: 0 <= k < |"blank"| ==> IsPathChar("blank"[k])
    ensures !EndsWith("blank", ".") && !EndsWith("blank", ".git") && !EndsWith("blank", ".atom")
  {
    assert "blank"[4..][0] == 'k';
    assert "blank"[1..][0] == 'l';
    assert "blank"[0..][0] == 'b';
  }

  /** The path `clean_path` starts counting from: the sanitised string, or
      `"blank"` when nothing is left. */
  function CleanBase(path: string): (r: string)
    ensures |r| > 0
    ensures forall k :: 0 <= k < |r| ==> IsPathChar(r[k])
    ensures r[0] != '-'
    ensures !EndsWith(r, ".") && !EndsWith(r, ".git") && !EndsWith(r, ".atom")
    ensures Sanitise(path) == [] ==> r == "blank"
    ensures Sanitise(path) != [] ==> r == Sanitise(path)
  {
    SanitiseFacts(path);
    BlankIsClean();
    var sanitised := Sanitise(path);
    PathCharsBlankIffEmpty(sanitised);
    if IsBlank(sanitised) then "blank" else sanitised
  }

  /** Path characters are not whitespace, so a string of them is blank only
      when it is empty. */
  lemma PathCharsBlankIffEmpty(s: string)
    requires forall k :: 0 <= k < |s| ==> IsPathChar(s[k])
    ensures IsBlank(s) <==> s == []
  {
    if s != [] {
      assert IsPathChar(s[0]) && !IsSpace(s[0]);
    }
  }

  /** A trailer that is not empty starts with a dot. */
  lemma TrailerStartsWithDot(t: string)
    requires IsTrailer(t) && |t| > 0
    ensures t[0] == '.'
  {
    if StartsWith(t, ".git") {
      assert t[..4][0] == '.';
    } else if StartsWith(t, ".atom") {
      assert t[..5][0] == '.';
    }
  }

  /** Without a dot there is no trailer to remove. */
  lemma RemoveTrailerWithoutDot(s: string)
    requires forall k :: 0 <= k < |s| ==> s[k] != '.'
    ensures RemoveTrailer(s) == s
  {
    var r := RemoveTrailer(s);
    if |r| < |s| {
      TrailerStartsWithDot(s[|r|..]);
      assert false;
    }
  }

  /** An e-mail address keeps its user name. */
  lemma CleanBaseAddress(path: string)
    requires path == "alice@example.com"
    ensures CleanBase(path) == "alice"
  {
    var user := "alice";
    AddressCut(path, user);
    UserChars(user);
    AllPathCharsKept(user);
    RemoveTrailerWithoutDot(user);
    SanitisedBase(path, user, user, user, user);
  }

  /** `CleanBase` through its steps, for a path that leaves something. */
  lemma SanitisedBase(path: string, cut: string, kept: string, trimmed: string, base: string)
    requires RemoveFromAt(path) == cut && KeepPathChars(cut) == kept
    requires RemoveTrailer(kept) == trimmed && RemoveLeadingDashes(trimmed) == base
    requires base != []
    ensures CleanBase(path) == base
  {
  }

  lemma AddressCut(s: string, user: string)
    requires s == "alice@example.com" && user == "alice"
    ensures RemoveFromAt(s) == user
  {
    assert s[..5] == user;
    RemoveFromAtSingleLine(s, 5);
  }

  lemma UserChars(user: string)
    requires user == "alice"
    ensures forall k :: 0 <= k < |user| ==> IsPathChar(user[k]) && user[k] != '.'
  {
    assert user == ['a', 'l', 'i', 'c', 'e'];
  }

  lemma AllPathCharsKept(s: string)
    requires forall k :: 0 <= k < |s| ==> IsPathChar(s[k])
    ensures KeepPathChars(s) == s
  {
  }

  /** A name made of dots leaves nothing, so the base is `blank`. */
  lemma CleanBaseDots()
    ensures CleanBase("..") == "blank"
  {
    var s := "..";
    NoAtKept(s);
    AllPathCharsKept(s);
    DotsAreTrailer();
    assert RemoveTrailer(s) == "";
  }

  lemma DotsAreTrailer()
    ensures IsTrailer("..")
  {
    var s := "..";
    assert s[1..] == "." && s[1..][1..] == "";
  }

  /** Leading dashes and a `.git` ending are both dropped. */
  lemma CleanBaseDashAndGit(path: string)
    requires path == "-foo.git"
    ensures CleanBase(path) == "foo"
  {
    NoAtKept(path);
    DashFooGitPathChars();
    AllPathCharsKept(path);
    var trimmed := "-foo";
    GitTrailerRemoved(path, trimmed);
    OneDashDropped(trimmed);
    assert trimmed[1..] == "foo";
    SanitisedBase(path, path, path, trimmed, "foo");
  }

  lemma DashFooGitPathChars()
    ensures forall k :: 0 <= k < |"-foo.git"| ==> IsPathChar("-foo.git"[k])
  {
    var s := "-foo.git";
    assert s == ['-', 'f', 'o', 'o', '.', 'g', 'i', 't'];
  }

  /** A single leading dash is the only one dropped. */
  lemma OneDashDropped(s: string)
    requires |s| > 1 && s[0] == '-' && s[1] != '-'
    ensures RemoveLeadingDashes(s) == s[1..]
  {
    assert s[1..][0] == s[1];
  }

  lemma GitTrailerRemoved(s: string, trimmed: string)
    requires s == "-foo.git" && trimmed == "-foo"
    ensures RemoveTrailer(s) == trimmed
  {
    var r := RemoveTrailer(s);
    assert IsTrailer(s[4..]) by {
      assert s[4..] == ".git" && s[4..][4..] == "";
    }
    if |r| < 4 {
      TrailerStartsWithDot(s[|r|..]);
      assert false;
    }
    assert s[..4] == trimmed;
  }

  /** A string without `@` is left alone by `RemoveFromAt`. */
  lemma NoAtKept(s: string)
    requires '@' !in s
    ensures RemoveFromAt(s) == s
  {
    assert forall k :: 0 <= k < |s| ==> s[k] != '@';
  }

  /** The candidate tried after `counter` lookups found the path taken. */
  function Candidate(base: string, counter: nat): string
  {
    if counter == 0 then base else base + DecimalString(counter)
  }

  /** Different counters give candidates that differ even ignoring case. */
  lemma CandidatesDistinct(base: string, c: nat, d: nat)
    requires c != d
    ensures Downcase(Candidate(base, c)) != Downcase(Candidate(base, d))
  {
    if c > 0 {
      DowncaseAppend(base, DecimalString(c));
      DowncaseDigits(DecimalString(c));
    }
    if d > 0 {
      DowncaseAppend(base, DecimalString(d));
      DowncaseDigits(DecimalString(d));
    }
    if c > 0 && d > 0 && Downcase(Candidate(base, c)) == Downcase(Candidate(base, d)) {
      var n := |Downcase(base)|;
      assert DecimalString(c) == Downcase(Candidate(base, c))[n..];
      assert DecimalString(d) == Downcase(Candidate(base, d))[n..];
      DecimalInjective(c, d);
    }
  }

  /** The lowercased paths and names in use. */
  ghost function Taken(namespaces: seq<Namespace>): set<string>
  {
    (set n | n in namespaces :: Downcase(n.path)) + (set n | n in namespaces :: Downcase(n.name))
  }

  /** A path the lookup finds is in use. */
  lemma FoundIsTaken(namespaces: seq<Namespace>, query: string)
    requires FindByPathOrName(namespaces, query).Some?
    ensures Downcase(query) in Taken(namespaces)
  {
    var found := FindByPathOrName(namespaces, query).value;
    if Downcase(found.path) == Downcase(query) {
      assert Downcase(found.path) in (set n | n in namespaces :: Downcase(n.path));
    } else {
      assert Downcase(found.name) in (set n | n in namespaces :: Downcase(n.name));
    }
  }

  /** The lowercased candidates for counters below `n`. */
  ghost function Tried(base: string, n: nat): set<string>
  {
    set d: nat | d < n :: Downcase(Candidate(base, d))
  }

  lemma TriedNext(base: string, n: nat)
    ensures Tried(base, n + 1) == Tried(base, n) + {Downcase(Candidate(base, n))}
  {
    forall x | x in Tried(base, n + 1)
      ensures x in Tried(base, n) + {Downcase(Candidate(base, n))}
    {
      var d: nat :| d < n + 1 && x == Downcase(Candidate(base, d));
      if d < n {
        assert x in Tried(base, n);
      }
    }
  }

  lemma {:induction false} TriedCard(base: string, n: nat)
    ensures |Tried(base, n)| == n
  {
    if n > 0 {
      TriedCard(base, n - 1);
      TriedNext(base, n - 1);
      var x := Downcase(Candidate(base, n - 1));
      forall d: nat | d < n - 1
        ensures Downcase(Candidate(base, d)) != x
      {
        CandidatesDistinct(base, d, n - 1);
      }
      assert x !in Tried(base, n - 1);
      CardAddFresh(Tried(base, n - 1), x);
    }
  }

  lemma CardAddFresh<T>(a: set<T>, x: T)
    requires x !in a
    ensures |a + {x}| == |a| + 1
  {
  }

  lemma SubsetCard<T>(a: set<T>, b: set<T>)
    requires a <= b
    ensures |a| <= |b|
    decreases |b|
  {
    if a != {} {
      var x :| x in a;
      SubsetCard(a - {x}, b - {x});
    }
  }

  /** One more taken candidate: the tried set stays within the taken set,
      which bounds the counter. */
  lemma TriedStep(base: string, counter: nat, namespaces: seq<Namespace>)
    requires Tried(base, counter) <= Taken(namespaces)
    requires FindByPathOrName(namespaces, Candidate(base, counter)).Some?
    ensures Tried(base, counter + 1) <= Taken(namespaces)
    ensures counter + 1 <= |Taken(namespaces)|
  {
    FoundIsTaken(namespaces, Candidate(base, counter));
    TriedNext(base, counter);
    TriedCard(base, counter + 1);
    SubsetCard(Tried(base, counter + 1), Taken(namespaces));
  }

  /** Every candidate below counter `c` is in use. */
  predicate TakenBelow(namespaces: seq<Namespace>, base: string, c: nat)
  {
    forall d: nat :: d < c ==> FindByPathOrName(namespaces, Candidate(base, d)).Some?
  }

  /** The counter loop of `clean_path`: the first of `base`, `base1`,
      `base2`, ... that no namespace uses as path or name. */
  method FirstFreeCandidate(base: string, namespaces: seq<Namespace>) returns (r: string, counter: nat)
    ensures r == Candidate(base, counter)
    ensures FindByPathOrName(namespaces, r).None?
    ensures TakenBelow(namespaces, base, counter)
  {
    counter := 0;
    r := base;
    while FindByPathOrName(namespaces, r).Some?
      invariant r == Candidate(base, counter)
      invariant TakenBelow(namespaces, base, counter)
      invariant Tried(base, counter) <= Taken(namespaces)
      decreases |Taken(namespaces)| - counter
    {
      TriedStep(base, counter, namespaces);
      counter := counter + 1;
      r := base + DecimalString(counter);
    }
  }

  /** `clean_path`: a namespace path derived from `path` that no namespace
      uses as path or name (ignoring case): the sanitised base itself when it
      is free, else the base followed by the smallest counter that is free. */
  method CleanPath(path: string, namespaces: seq<Namespace>) returns (r: string)
    ensures FindByPathOrName(namespaces, r).None?
    ensures exists c: nat :: r == Candidate(CleanBase(path), c) && TakenBelow(namespaces, CleanBase(path), c)
  {
    var base := CleanBase(path);
    var counter;
    r, counter := FirstFreeCandidate(base, namespaces);
  }
}
