/**
  `ApplicationSetting`: the instance-wide settings record. Modelled here: the
  sign-up domain whitelist and blacklist with their raw text forms, the
  repository storage list with its legacy single-storage accessors and its
  check against the configured storages, and the validations of the Git
  access protocol and the housekeeping periods.
*/
module ApplicationSettings {
  import opened Wrappers
  import opened Strings

  /** The characters `DOMAIN_LIST_SEPARATOR` splits on: whitespace, `,` and `;`. */
  predicate IsSeparator(c: char)
  {
    IsSpace(c) || c == ',' || c == ';'
  }

  /** A piece with no separator in it. */
  predicate NoSeparator(w: string)
  {
    forall j :: 0 <= j < |w| ==> !IsSeparator(w[j])
  }

  /** The number of whitespace characters from position `p` on (`\s*`). */
  function SpaceRun(s: string, p: nat): (n: nat)
    requires p <= |s|
    ensures p + n <= |s|
    ensures forall j :: p <= j < p + n ==> IsSpace(s[j])
    ensures p + n == |s| || !IsSpace(s[p + n])
    decreases |s| - p
  {
    if p < |s| && IsSpace(s[p]) then 1 + SpaceRun(s, p + 1) else 0
  }

  /** The length of the `DOMAIN_LIST_SEPARATOR` match at position `p`, 0 when
      none starts there. The first alternative, `\s*[,;]\s*`, takes the
      whitespace run before a `,` or `;` and the run after it; otherwise `\s`
      takes one whitespace character. The last alternative, `[\r\n]`, only
      matches what `\s` already does. */
  function MatchLength(s: string, p: nat): (n: nat)
    requires p <= |s|
    ensures p + n <= |s|
    ensures n > 0 <==> p < |s| && IsSeparator(s[p])
    ensures forall j :: p <= j < p + n ==> IsSeparator(s[j])
  {
    var w := SpaceRun(s, p);
    if p + w < |s| && (s[p + w] == ',' || s[p + w] == ';') then w + 1 + SpaceRun(s, p + w + 1)
    else if w > 0 then 1
    else 0
  }

  /** The first position at or after `from` where a separator match starts. */
  function SeparatorIndex(s: string, from: nat): (p: nat)
    requires from <= |s|
    ensures from <= p <= |s|
    ensures forall j :: from <= j < p ==> !IsSeparator(s[j])
    ensures p < |s| ==> IsSeparator(s[p])
    decreases |s| - from
  {
    if from == |s| || IsSeparator(s[from]) then from else SeparatorIndex(s, from + 1)
  }

  /** The pieces a regular-expression `split` cuts `s` into, leftmost match
      first, before the trailing empty pieces are dropped. */
  function RegexPieces(s: string): (r: seq<string>)
    ensures |r| >= 1
    ensures forall k :: 0 <= k < |r| ==> NoSeparator(r[k])
    decreases |s|
  {
    var p := SeparatorIndex(s, 0);
    if p == |s| then [s]
    else [s[..p]] + RegexPieces(s[p + MatchLength(s, p)..])
  }

  /** `values.split(DOMAIN_LIST_SEPARATOR)`: the pieces between the matches,
      without the trailing empty ones (so `""` gives none). */
  function SplitDomainList(s: string): (r: seq<string>)
    ensures forall k :: 0 <= k < |r| ==> NoSeparator(r[k])
    ensures r == [] || r[|r| - 1] != []
  {
    var pieces := RegexPieces(s);
    var r := DropTrailingEmpty(pieces);
    assert forall k :: 0 <= k < |r| ==> r[k] == pieces[k];
    r
  }

  /** A finer cut than `split`: at every separator character, keeping every
      piece, including the empty ones between adjacent separators and the
      trailing ones. Once the empty pieces are rejected the two agree
      (`SplitDomainListAgrees`); the proofs go through this cut. */
  function SplitAtSeparators(s: string): (r: seq<string>)
    ensures |r| >= 1
    ensures forall k :: 0 <= k < |r| ==> NoSeparator(r[k])
  {
    if |s| == 0 then [""]
    else
      var rest := SplitAtSeparators(s[..|s| - 1]);
      var c := s[|s| - 1];
      if IsSeparator(c) then rest + [""]
      else rest[..|rest| - 1] + [rest[|rest| - 1] + [c]]
  }

  /** `reject! { |d| d.empty? }`, as a value. */
  function RejectEmpty(pieces: seq<string>): (r: seq<string>)
    ensures |r| <= |pieces|
    ensures forall k :: 0 <= k < |r| ==> r[k] != []
    ensures forall k :: 0 <= k < |r| ==> r[k] in pieces
  {
    if |pieces| == 0 then []
    else
      var prev := RejectEmpty(pieces[..|pieces| - 1]);
      assert forall k :: 0 <= k < |prev| ==> prev[k] in pieces by {
        forall k | 0 <= k < |prev| ensures prev[k] in pieces {
          var j :| 0 <= j < |pieces| - 1 && pieces[..|pieces| - 1][j] == prev[k];
          assert pieces[j] == prev[k];
        }
      }
      if pieces[|pieces| - 1] == [] then prev else prev + [pieces[|pieces| - 1]]
  }

  /** The domain list a raw value denotes: its maximal runs of non-separator
      characters, in order. */
  function DomainList(s: string): (r: seq<string>)
    ensures forall k :: 0 <= k < |r| ==> r[k] != [] && NoSeparator(r[k])
    ensures |s| > 0 && !IsSeparator(s[|s| - 1]) ==> |r| > 0
  {
    if |s| == 0 then []
    else
      var prev := DomainList(s[..|s| - 1]);
      var c := s[|s| - 1];
      if IsSeparator(c) then prev
      else if |s| >= 2 && !IsSeparator(s[|s| - 2]) then prev[..|prev| - 1] + [prev[|prev| - 1] + [c]]
      else prev + [[c]]
  }

  /** A separator adds an empty piece and no entry. */
  lemma SplitStepSeparator(s: string)
    requires |s| > 0 && IsSeparator(s[|s| - 1])
    requires RejectEmpty(SplitAtSeparators(s[..|s| - 1])) == DomainList(s[..|s| - 1])
    ensures RejectEmpty(SplitAtSeparators(s)) == DomainList(s)
  {
    var rest := SplitAtSeparators(s[..|s| - 1]);
    assert SplitAtSeparators(s) == rest + [""];
    assert (rest + [""])[..|rest|] == rest;
  }

  /** Rejecting empty pieces, one piece at a time. */
  lemma RejectEmptySnoc(pieces: seq<string>, x: string)
    ensures RejectEmpty(pieces + [x]) == if x == [] then RejectEmpty(pieces) else RejectEmpty(pieces) + [x]
  {
    assert (pieces + [x])[..|pieces|] == pieces;
  }

  /** The finer cut when the last character is a word character: the last
      piece grows. */
  lemma SplitAtLastChar(s: string, r: seq<string>, c: char)
    requires |s| > 0 && c == s[|s| - 1] && !IsSeparator(c)
    requires r == SplitAtSeparators(s[..|s| - 1])
    ensures |r| >= 1 && SplitAtSeparators(s) == r[..|r| - 1] + [r[|r| - 1] + [c]]
  {
  }

  /** `DomainList` when a word character follows another: the last entry
      grows. */
  lemma DomainListWordStep(s: string)
    requires |s| >= 2 && !IsSeparator(s[|s| - 1]) && !IsSeparator(s[|s| - 2])
    ensures var p := DomainList(s[..|s| - 1]);
      |p| > 0 && DomainList(s) == p[..|p| - 1] + [p[|p| - 1] + [s[|s| - 1]]]
  {
    assert s[..|s| - 1][|s| - 2] == s[|s| - 2];
  }

  /** Growing the last piece of a cut whose last piece is not empty grows the
      last non-empty piece. */
  lemma RejectEmptyGrowLast(pieces: seq<string>, entries: seq<string>, c: char)
    requires |pieces| > 0 && pieces[|pieces| - 1] != []
    requires RejectEmpty(pieces) == entries
    ensures |entries| > 0
    ensures RejectEmpty(pieces[..|pieces| - 1] + [pieces[|pieces| - 1] + [c]])
         == entries[..|entries| - 1] + [entries[|entries| - 1] + [c]]
  {
    var d, x := pieces[..|pieces| - 1], pieces[|pieces| - 1];
    SnocSplit(pieces);
    RejectEmptySnoc(d, x);
    RejectEmptySnoc(d, x + [c]);
    LastExtended(entries, RejectEmpty(d), x, c);
  }

  /** A character that extends a word extends the last entry. */
  lemma SplitStepJoin(s: string)
    requires |s| >= 2 && !IsSeparator(s[|s| - 1]) && !IsSeparator(s[|s| - 2])
    requires RejectEmpty(SplitAtSeparators(s[..|s| - 1])) == DomainList(s[..|s| - 1])
    ensures RejectEmpty(SplitAtSeparators(s)) == DomainList(s)
  {
    var init, c := s[..|s| - 1], s[|s| - 1];
    var rest := SplitAtSeparators(init);
    assert rest[|rest| - 1] != [] by {
      assert init[|init| - 1] == s[|s| - 2];
    }
    SplitAtLastChar(s, rest, c);
    DomainListWordStep(s);
    RejectEmptyGrowLast(rest, DomainList(init), c);
  }

  /** A non-empty sequence is its front and its last element. */
  lemma SnocSplit<T>(a: seq<T>)
    requires |a| > 0
    ensures a[..|a| - 1] + [a[|a| - 1]] == a
  {
  }

  /** Extending the last element of `d + [x]` by `c`. */
  lemma LastExtended(a: seq<string>, d: seq<string>, x: string, c: char)
    requires a == d + [x]
    ensures |a| > 0 && a[..|a| - 1] + [a[|a| - 1] + [c]] == d + [x + [c]]
  {
    assert a[..|a| - 1] == d;
  }

  /** A character after a separator, or at the start, begins a new entry. */
  lemma SplitStepFresh(s: string)
    requires |s| > 0 && !IsSeparator(s[|s| - 1]) && (|s| == 1 || IsSeparator(s[|s| - 2]))
    requires RejectEmpty(SplitAtSeparators(s[..|s| - 1])) == DomainList(s[..|s| - 1])
    ensures RejectEmpty(SplitAtSeparators(s)) == DomainList(s)
  {
    var init := s[..|s| - 1];
    var c := s[|s| - 1];
    var rest := SplitAtSeparators(init);
    var m := |rest|;
    assert |s| >= 2 ==> init[|init| - 1] == s[|s| - 2];
    assert rest[m - 1] == [];
    assert SplitAtSeparators(s) == rest[..m - 1] + [[c]];
    assert DomainList(s) == DomainList(init) + [[c]];
    RejectEmptySnoc(rest[..m - 1], []);
    RejectEmptySnoc(rest[..m - 1], [c]);
    assert rest == rest[..m - 1] + [[]];
  }

  /** Splitting at every separator and then rejecting the empty pieces gives
      the maximal runs. */
  lemma {:induction false} RejectEmptySplitIsDomainList(s: string)
    ensures RejectEmpty(SplitAtSeparators(s)) == DomainList(s)
  {
    if |s| > 0 {
      RejectEmptySplitIsDomainList(s[..|s| - 1]);
      if IsSeparator(s[|s| - 1]) {
        SplitStepSeparator(s);
      } else if |s| >= 2 && !IsSeparator(s[|s| - 2]) {
        SplitStepJoin(s);
      } else {
        SplitStepFresh(s);
      }
    }
  }

  /** Rejecting empty pieces distributes over concatenation. */
  lemma {:induction false} RejectEmptyAppend(a: seq<string>, b: seq<string>)
    ensures RejectEmpty(a + b) == RejectEmpty(a) + RejectEmpty(b)
    decreases |b|
  {
    if |b| == 0 {
      assert a + b == a;
    } else {
      var b', x := b[..|b| - 1], b[|b| - 1];
      var ab := a + b';
      assert a + b == ab + [x] by {
        assert b == b' + [x];
      }
      RejectEmptyAppend(a, b');
      RejectEmptySnoc(ab, x);
      RejectEmptySnoc(b', x);
      if x != [] {
        SnocAssoc(RejectEmpty(a), RejectEmpty(b'), x);
      }
    }
  }

  /** Dropping trailing empty pieces first changes nothing once empty pieces
      are rejected. */
  lemma {:induction false} RejectEmptyDropTrailing(pieces: seq<string>)
    ensures RejectEmpty(DropTrailingEmpty(pieces)) == RejectEmpty(pieces)
    decreases |pieces|
  {
    if |pieces| > 0 && pieces[|pieces| - 1] == "" {
      var init := pieces[..|pieces| - 1];
      assert pieces == init + [""];
      RejectEmptyDropTrailing(init);
      RejectEmptySnoc(init, "");
    }
  }

  /** A separator-free string is one piece. */
  lemma {:induction false} SplitAtNoSeparator(w: string)
    requires NoSeparator(w)
    ensures SplitAtSeparators(w) == [w]
    decreases |w|
  {
    if |w| > 0 {
      var init := w[..|w| - 1];
      assert w == init + [w[|w| - 1]];
      SplitAtNoSeparator(init);
    }
  }

  /** The finer cut when the last character is a separator: an empty piece
      more. */
  lemma SplitAtLastSeparator(s: string)
    requires |s| > 0 && IsSeparator(s[|s| - 1])
    ensures SplitAtSeparators(s) == SplitAtSeparators(s[..|s| - 1]) + [""]
  {
  }

  /** Appending one element after a concatenation. */
  lemma SnocAssoc<T>(p: seq<T>, q: seq<T>, z: T)
    ensures p + q + [z] == p + (q + [z])
  {
  }

  /** Replacing the last element after a fixed first element. */
  lemma ReplaceLastAfterFirst<T>(w: T, r: seq<T>, z: T)
    requires |r| >= 1
    ensures var y := [w] + r;
      y[|y| - 1] == r[|r| - 1] && y[..|y| - 1] + [z] == [w] + (r[..|r| - 1] + [z])
  {
    var y := [w] + r;
    assert y[..|y| - 1] == [w] + r[..|r| - 1];
  }

  /** One more separator after the first cut. */
  lemma SplitAtFirstSeparatorStep(w: string, x: string, t: string)
    requires |x| > 0 && |t| > 0 && x[|x| - 1] == t[|t| - 1] && IsSeparator(x[|x| - 1])
    requires SplitAtSeparators(x[..|x| - 1]) == [w] + SplitAtSeparators(t[..|t| - 1])
    ensures SplitAtSeparators(x) == [w] + SplitAtSeparators(t)
  {
    SplitAtLastSeparator(x);
    SplitAtLastSeparator(t);
    SnocAssoc([w], SplitAtSeparators(t[..|t| - 1]), "");
  }

  /** One more word character after the first cut. */
  lemma SplitAtFirstCharStep(w: string, x: string, t: string)
    requires |x| > 0 && |t| > 0 && x[|x| - 1] == t[|t| - 1] && !IsSeparator(x[|x| - 1])
    requires SplitAtSeparators(x[..|x| - 1]) == [w] + SplitAtSeparators(t[..|t| - 1])
    ensures SplitAtSeparators(x) == [w] + SplitAtSeparators(t)
  {
    var c := x[|x| - 1];
    var y, r := SplitAtSeparators(x[..|x| - 1]), SplitAtSeparators(t[..|t| - 1]);
    SplitAtLastChar(x, y, c);
    SplitAtLastChar(t, r, c);
    ReplaceLastAfterFirst(w, r, r[|r| - 1] + [c]);
  }

  /** Cutting at the first separator: the piece before it, then the pieces of
      the rest. */
  lemma {:induction false} SplitAtFirstSeparator(s: string, p: nat)
    requires p < |s| && IsSeparator(s[p])
    requires forall j :: 0 <= j < p ==> !IsSeparator(s[j])
    ensures SplitAtSeparators(s) == [s[..p]] + SplitAtSeparators(s[p + 1..])
    decreases |s|
  {
    var w, t := s[..p], s[p + 1..];
    if |s| == p + 1 {
      assert s[..|s| - 1] == w;
      assert NoSeparator(w) by {
        assert forall j :: 0 <= j < |w| ==> w[j] == s[j];
      }
      SplitAtNoSeparator(w);
      assert t == "";
    } else {
      var s' := s[..|s| - 1];
      assert s'[..p] == w && s'[p] == s[p];
      assert forall j :: 0 <= j < p ==> s'[j] == s[j];
      SplitAtFirstSeparator(s', p);
      assert t[..|t| - 1] == s'[p + 1..];
      if IsSeparator(s[|s| - 1]) {
        SplitAtFirstSeparatorStep(w, s, t);
      } else {
        SplitAtFirstCharStep(w, s, t);
      }
    }
  }

  /** A leading empty piece is rejected. */
  lemma RejectEmptyCons(x: seq<string>)
    ensures RejectEmpty([""] + x) == RejectEmpty(x)
  {
    RejectEmptyAppend([""], x);
    assert [""] == [] + [""];
    RejectEmptySnoc([], "");
  }

  /** Separators only before `t` add nothing but empty pieces. */
  lemma {:induction false} LeadingSeparators(u: string, t: string)
    requires forall j :: 0 <= j < |u| ==> IsSeparator(u[j])
    ensures RejectEmpty(SplitAtSeparators(u + t)) == RejectEmpty(SplitAtSeparators(t))
    decreases |u|
  {
    if |u| > 0 {
      var u' := u[1..];
      assert forall j :: 0 <= j < |u'| ==> u'[j] == u[j + 1];
      var x := u + t;
      assert x[1..] == u' + t && x[..0] == "";
      SplitAtFirstSeparator(x, 0);
      RejectEmptyCons(SplitAtSeparators(u' + t));
      LeadingSeparators(u', t);
    } else {
      assert u + t == t;
    }
  }

  /** The regular-expression cut at its first match. */
  lemma RegexPiecesFirst(s: string, p: nat, n: nat)
    requires p == SeparatorIndex(s, 0) < |s| && n == MatchLength(s, p)
    ensures RegexPieces(s) == [s[..p]] + RegexPieces(s[p + n..])
  {
  }

  /** The rest of a match is separators only, so skipping it changes no
      non-empty piece. */
  lemma SkipMatch(s: string, p: nat, n: nat)
    requires p < |s| && IsSeparator(s[p]) && n == MatchLength(s, p)
    ensures RejectEmpty(SplitAtSeparators(s[p + 1..]))
         == RejectEmpty(SplitAtSeparators(s[p + n..]))
  {
    var gap, rest := s[p + 1..p + n], s[p + n..];
    assert s[p + 1..] == gap + rest;
    assert forall j :: 0 <= j < |gap| ==> IsSeparator(gap[j]) by {
      forall j | 0 <= j < |gap| ensures IsSeparator(gap[j]) {
        assert gap[j] == s[p + 1 + j];
      }
    }
    LeadingSeparators(gap, rest);
  }

  /** A common first piece keeps two cuts that agree on their non-empty
      pieces in agreement. */
  lemma RejectEmptySameFirst(w: string, a: seq<string>, b: seq<string>)
    requires RejectEmpty(a) == RejectEmpty(b)
    ensures RejectEmpty([w] + a) == RejectEmpty([w] + b)
  {
    RejectEmptyAppend([w], a);
    RejectEmptyAppend([w], b);
  }

  /** Both cuts give the same non-empty pieces. */
  lemma {:induction false} RegexPiecesAgree(s: string)
    ensures RejectEmpty(RegexPieces(s)) == RejectEmpty(SplitAtSeparators(s))
    decreases |s|
  {
    var p := SeparatorIndex(s, 0);
    if p == |s| {
      assert s[..p] == s;
      SplitAtNoSeparator(s);
    } else {
      var n := MatchLength(s, p);
      var rest := s[p + n..];
      RegexPiecesFirst(s, p, n);
      SplitAtFirstSeparator(s, p);
      SkipMatch(s, p, n);
      RegexPiecesAgree(rest);
      RejectEmptySameFirst(s[..p], RegexPieces(rest), SplitAtSeparators(s[p + 1..]));
    }
  }

  /** A comma with spaces around it is one match: `"a , b"` splits into two
      entries. */
  lemma SplitDomainListSpacedComma(s: string)
    requires s == "a , b"
    ensures SplitDomainList(s) == ["a", "b"]
  {
    assert SeparatorIndex(s, 0) == 1;
    assert SpaceRun(s, 1) == 1 by {
      assert SpaceRun(s, 2) == 0;
    }
    assert SpaceRun(s, 3) == 1 by {
      assert SpaceRun(s, 4) == 0;
    }
    assert MatchLength(s, 1) == 3;
    assert s[..1] == "a" && s[4..] == "b";
    var t := s[4..];
    assert SeparatorIndex(t, 0) == 1;
    assert RegexPieces(s) == ["a", "b"];
  }

  /** A trailing separator leaves no empty entry: `"a,"` splits into one. */
  lemma SplitDomainListTrailingComma(s: string)
    requires s == "a,"
    ensures SplitDomainList(s) == ["a"]
  {
    assert SeparatorIndex(s, 0) == 1;
    assert MatchLength(s, 1) == 1;
    assert s[..1] == "a" && s[2..] == "";
    assert RegexPieces(s[2..]) == [""];
    var pieces := RegexPieces(s);
    assert pieces == ["a", ""];
    assert pieces[..1] == ["a"];
    assert DropTrailingEmpty(pieces) == DropTrailingEmpty(["a"]);
  }

  /** The empty text splits into no entry. */
  lemma SplitDomainListEmpty(s: string)
    requires s == ""
    ensures SplitDomainList(s) == []
  {
    assert RegexPieces(s) == [""];
  }

  /** `split` followed by `reject!` gives the maximal runs of non-separator
      characters, as the finer cut does. */
  lemma SplitDomainListAgrees(s: string)
    ensures RejectEmpty(SplitDomainList(s)) == RejectEmpty(SplitAtSeparators(s))
    ensures RejectEmpty(SplitDomainList(s)) == DomainList(s)
  {
    RejectEmptyDropTrailing(RegexPieces(s));
    RegexPiecesAgree(s);
    RejectEmptySplitIsDomainList(s);
  }

  /** A whitespace-free, separator-free domain list survives `"\n"`-joining
      and reading back: the raw getter and setter are a round trip. */
  lemma {:induction false} DomainListRoundTrip(l: seq<string>)
    requires forall k :: 0 <= k < |l| ==> l[k] != [] && NoSeparator(l[k])
    ensures DomainList(Join(l, "\n")) == l
  {
    if |l| == 1 {
      AppendWord("", l[0]);
      assert "" + l[0] == l[0];
    } else if |l| > 1 {
      var init := l[..|l| - 1];
      DomainListRoundTrip(init);
      var j := Join(init, "\n");
      NewlineAddsNothing(j);
      AppendWord(j + "\n", l[|l| - 1]);
      assert Join(l, "\n") == (j + "\n") + l[|l| - 1];
      assert DomainList(Join(l, "\n")) == init + [l[|l| - 1]];
      SnocSplit(l);
    }
  }

  /** A trailing newline adds no entry. */
  lemma NewlineAddsNothing(s: string)
    ensures DomainList(s + "\n") == DomainList(s)
  {
    var t := s + "\n";
    assert t[..|t| - 1] == s && t[|t| - 1] == '\n';
  }

  /** A word appended after a separator (or at the start) becomes one more entry. */
  lemma {:induction false} AppendWord(p: string, w: string)
    requires |p| == 0 || IsSeparator(p[|p| - 1])
    requires w != [] && NoSeparator(w)
    ensures DomainList(p + w) == DomainList(p) + [w]
    decreases |w|
  {
    if |w| > 1 {
      AppendWord(p, w[..|w| - 1]);
      AppendWordStep(p, w);
    } else {
      AppendFirstChar(p, w);
    }
  }

  /** The first character of a word after a separator starts a new entry. */
  lemma AppendFirstChar(p: string, w: string)
    requires |p| == 0 || IsSeparator(p[|p| - 1])
    requires |w| == 1 && !IsSeparator(w[0])
    ensures DomainList(p + w) == DomainList(p) + [w]
  {
    var s := p + w;
    assert s[..|s| - 1] == p;
    assert w == [w[0]];
    if |p| > 0 {
      assert s[|s| - 2] == p[|p| - 1];
    }
  }

  /** `DomainList` on a string whose last two characters are word characters. */
  lemma DomainListJoinStep(s: string)
    requires |s| >= 2 && !IsSeparator(s[|s| - 1]) && !IsSeparator(s[|s| - 2])
    ensures var prev := DomainList(s[..|s| - 1]);
      |prev| > 0 && DomainList(s) == prev[..|prev| - 1] + [prev[|prev| - 1] + [s[|s| - 1]]]
  {
    assert s[..|s| - 1][|s| - 2] == s[|s| - 2];
  }

  /** Extending the last entry of `d + [init]` by `c` gives `d + [init + [c]]`. */
  lemma ExtendLast(a: seq<string>, d: seq<string>, w: string)
    requires |w| > 0 && a == d + [w[..|w| - 1]]
    ensures |a| > 0 && a[..|a| - 1] + [a[|a| - 1] + [w[|w| - 1]]] == d + [w]
  {
    assert a[..|a| - 1] == d;
    assert w[..|w| - 1] + [w[|w| - 1]] == w;
  }

  /** The last two characters of `p + w` and what precedes the last one. */
  lemma ConcatTail(p: string, w: string)
    requires |w| > 1
    ensures var s := p + w;
      && s[..|s| - 1] == p + w[..|w| - 1]
      && s[|s| - 1] == w[|w| - 1]
      && s[|s| - 2] == w[|w| - 2]
  {
  }

  /** Each further character of the word extends that entry. */
  lemma AppendWordStep(p: string, w: string)
    requires |w| > 1 && !IsSeparator(w[|w| - 1]) && !IsSeparator(w[|w| - 2])
    requires DomainList(p + w[..|w| - 1]) == DomainList(p) + [w[..|w| - 1]]
    ensures DomainList(p + w) == DomainList(p) + [w]
  {
    ConcatTail(p, w);
    DomainListJoinStep(p + w);
    ExtendLast(DomainList(p + w[..|w| - 1]), DomainList(p), w);
  }

  /** Normalising twice is normalising once. */
  lemma DomainListIdempotent(s: string)
    ensures DomainList(Join(DomainList(s), "\n")) == DomainList(s)
  {
    DomainListRoundTrip(DomainList(s));
  }

  /** `repository_storages - Gitlab.config.repositories.storages.keys`: the
      listed storages that are not configured, in order. */
  function InvalidStorages(storages: seq<string>, configured: set<string>): (r: seq<string>)
    ensures forall k :: 0 <= k < |r| ==> r[k] in storages && r[k] !in configured
    ensures forall k :: 0 <= k < |storages| && storages[k] !in configured ==> storages[k] in r
    ensures r == [] <==> forall k :: 0 <= k < |storages| ==> storages[k] in configured
  {
    if |storages| == 0 then []
    else
      var prev := InvalidStorages(storages[..|storages| - 1], configured);
      var last := storages[|storages| - 1];
      assert forall k :: 0 <= k < |storages| - 1 ==> storages[..|storages| - 1][k] == storages[k];
      if last in configured then prev else prev + [last]
  }

  /** The subtraction keeps order and repeats: the storages left of a list
      are those of its first part, then those of the rest. */
  lemma {:induction false} InvalidStoragesAppend(a: seq<string>, b: seq<string>, configured: set<string>)
    ensures InvalidStorages(a + b, configured) == InvalidStorages(a, configured) + InvalidStorages(b, configured)
    decreases |b|
  {
    if |b| == 0 {
      assert a + b == a;
    } else {
      var b' := b[..|b| - 1];
      assert (a + b)[..|a + b| - 1] == a + b';
      assert (a + b)[|a + b| - 1] == b[|b| - 1];
      InvalidStoragesAppend(a, b', configured);
    }
  }

  /** A single storage is kept exactly when it is not configured. */
  lemma InvalidStoragesOne(storage: string, configured: set<string>)
    ensures InvalidStorages([storage], configured) == if storage in configured then [] else [storage]
  {
    assert [storage][..0] == [];
  }

  /** `check_repository_storages`: the error it adds, if any. */
  function CheckRepositoryStorages(storages: seq<string>, configured: set<string>): (r: Option<string>)
    ensures r.None? <==> forall k :: 0 <= k < |storages| ==> storages[k] in configured
    ensures r.Some? ==> r.value == "can't include: " + Join(InvalidStorages(storages, configured), ", ")
  {
    var invalid := InvalidStorages(storages, configured);
    if invalid == [] then None else Some("can't include: " + Join(invalid, ", "))
  }

  /** The Git access protocols an administrator may restrict access to. */
  predicate ValidGitAccessProtocol(protocol: Option<string>): (r: bool)
    ensures protocol.None? || IsBlank(protocol.value) ==> r
    ensures protocol == Some("ssh") || protocol == Some("http") ==> r
    ensures r && protocol.Some? && IsPresent(protocol.value) ==> protocol.value == "ssh" || protocol.value == "http"
  {
    protocol.None? || IsBlank(protocol.value) || protocol.value == "ssh" || protocol.value == "http"
  }

  /** The attributes the modelled validations reject, in declaration order. */
  function ValidationErrors(storages: seq<string>, configured: set<string>, protocol: Option<string>,
                            incremental: int, full: int, gc: int): (r: seq<string>)
    ensures r == [] <==>
              && |storages| > 0
              && (forall k :: 0 <= k < |storages| ==> storages[k] in configured)
              && ValidGitAccessProtocol(protocol)
              && 0 < incremental < full < gc
    ensures "housekeeping_gc_period" in r <==> gc <= full
  {
    (if |storages| == 0 then ["repository_storages"] else [])
    + (if CheckRepositoryStorages(storages, configured).Some? then ["repository_storages"] else [])
    + (if ValidGitAccessProtocol(protocol) then [] else ["enabled_git_access_protocol"])
    + (if incremental > 0 then [] else ["housekeeping_incremental_repack_period"])
    + (if full > incremental then [] else ["housekeeping_full_repack_period"])
    + (if gc > full then [] else ["housekeeping_gc_period"])
  }

  /** The defaults (storage `default`, no protocol restriction, housekeeping
      every 10, 50 and 200 pushes) pass the validations. */
  lemma DefaultsValid(configured: set<string>)
    requires "default" in configured
    ensures ValidationErrors(["default"], configured, None, 10, 50, 200) == []
  {
  }

  /** The empty pieces left by the split, dropped one by one. */
  method RejectEmptyPieces(pieces: seq<string>) returns (kept: seq<string>)
    ensures kept == RejectEmpty(pieces)
  {
    kept := [];
    for i := 0 to |pieces|
      invariant kept == RejectEmpty(pieces[..i])
    {
      assert pieces[..i + 1][..i] == pieces[..i];
      if pieces[i] != [] {
        kept := kept + [pieces[i]];
      }
    }
    assert pieces[..|pieces|] == pieces;
  }

  class Settings {
    /** `domain_whitelist` (nil until set). */
    var domainWhitelist: Option<seq<string>>
    /** `domain_blacklist` (nil until set). */
    var domainBlacklist: Option<seq<string>>
    /** `repository_storages`, as `Array(...)` reads it. */
    var repositoryStorages: seq<string>

    constructor ()
      ensures domainWhitelist.None? && domainBlacklist.None? && repositoryStorages == ["default"]
    {
      domainWhitelist := None;
      domainBlacklist := None;
      repositoryStorages := ["default"];
    }

    /** `domain_whitelist_raw`: the list joined with line breaks; nil when the list is nil. */
    function DomainWhitelistRaw(): (r: Option<string>)
      reads this
      ensures r.None? <==> domainWhitelist.None?
      ensures r.Some? ==> r.value == Join(domainWhitelist.value, "\n")
    {
      if domainWhitelist.None? then None else Some(Join(domainWhitelist.value, "\n"))
    }

    /** `domain_blacklist_raw`. */
    function DomainBlacklistRaw(): (r: Option<string>)
      reads this
      ensures r.None? <==> domainBlacklist.None?
      ensures r.Some? ==> r.value == Join(domainBlacklist.value, "\n")
    {
      if domainBlacklist.None? then None else Some(Join(domainBlacklist.value, "\n"))
    }

    /** `domain_whitelist_raw=`: splits the value and drops the empty entries. */
    method SetDomainWhitelistRaw(values: string) returns (list: seq<string>)
      modifies this`domainWhitelist
      ensures domainWhitelist == Some(list) && list == DomainList(values)
    {
      domainWhitelist := Some([]);
      var pieces := SplitDomainList(values);
      domainWhitelist := Some(pieces);
      var kept := RejectEmptyPieces(pieces);
      domainWhitelist := Some(kept);
      SplitDomainListAgrees(values);
      list := kept;
    }

    /** `domain_blacklist_raw=`. */
    method SetDomainBlacklistRaw(values: string) returns (list: seq<string>)
      modifies this`domainBlacklist
      ensures domainBlacklist == Some(list) && list == DomainList(values)
    {
      domainBlacklist := Some([]);
      var pieces := SplitDomainList(values);
      domainBlacklist := Some(pieces);
      var kept := RejectEmptyPieces(pieces);
      domainBlacklist := Some(kept);
      SplitDomainListAgrees(values);
      list := kept;
    }

    /** `repository_storage`: the first storage, nil when there is none. */
    function RepositoryStorage(): (r: Option<string>)
      reads this
      ensures r.None? <==> repositoryStorages == []
      ensures r.Some? ==> r.value == repositoryStorages[0]
    {
      if repositoryStorages == [] then None else Some(repositoryStorages[0])
    }

    /** `repository_storage=`: the list becomes the one storage. */
    method SetRepositoryStorage(value: string)
      modifies this`repositoryStorages
      ensures repositoryStorages == [value]
      ensures RepositoryStorage() == Some(value)
    {
      repositoryStorages := [value];
    }
  }

  /** Writing a raw whitelist and reading it back gives the normalised list's
      text, and writing that text again changes nothing. */
  method WhitelistRawRoundTrip(settings: Settings, values: string) returns (raw: string, again: seq<string>)
    modifies settings
    ensures raw == Join(DomainList(values), "\n")
    ensures again == DomainList(values)
    ensures settings.DomainWhitelistRaw() == Some(raw)
  {
    var list := settings.SetDomainWhitelistRaw(values);
    raw := settings.DomainWhitelistRaw().value;
    again := settings.SetDomainWhitelistRaw(raw);
    DomainListIdempotent(values);
  }
}
