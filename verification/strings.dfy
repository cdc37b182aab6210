/**
  The handful of Ruby `String` operations the modelled code relies on, on
  `seq<char>`: `blank?`, `present?`, `strip`, `start_with?`, `end_with?`,
  `include?`, `split` on one character, `join`, ASCII `upcase`/`downcase`,
  `Integer#to_s` and `String#to_i`.
*/
module Strings {

  /** Ruby's whitespace class: space, tab, line feed, vertical tab, form feed, carriage return. */
  predicate IsSpace(c: char)
  {
    c == ' ' || c == '\t' || c == '\n' || c == '\U{B}' || c == '\U{C}' || c == '\r'
  }

  /** `String#blank?`: empty or whitespace only. */
  predicate IsBlank(s: string)
  {
    forall i :: 0 <= i < |s| ==> IsSpace(s[i])
  }

  /** `Object#present?` on a possibly-nil string. */
  predicate IsPresent(s: string)
  {
    !IsBlank(s)
  }

  /** `String#lstrip`: drops leading whitespace. */
  function LStrip(s: string): (r: string)
    ensures |r| <= |s| && r == s[|s| - |r|..]
    ensures r == [] || !IsSpace(r[0])
  {
    if |s| > 0 && IsSpace(s[0]) then LStrip(s[1..]) else s
  }

  /** A non-whitespace character survives `lstrip`. */
  lemma {:induction false} LStripKeeps(s: string, j: nat)
    requires j < |s| && !IsSpace(s[j])
    ensures |LStrip(s)| >= |s| - j
    decreases j
  {
    if j > 0 && IsSpace(s[0]) {
      LStripKeeps(s[1..], j - 1);
    }
  }

  /** A string is present exactly when something is left after `lstrip`. */
  lemma PresentIffLStripped(s: string)
    ensures IsPresent(s) <==> LStrip(s) != []
  {
    if IsPresent(s) {
      var j :| 0 <= j < |s| && !IsSpace(s[j]);
      LStripKeeps(s, j);
    }
  }

  /** `String#rstrip`: drops trailing whitespace and NUL characters. */
  function RStrip(s: string): (r: string)
    ensures |r| <= |s| && r == s[..|r|]
    ensures r == [] || !(IsSpace(r[|r| - 1]) || r[|r| - 1] == '\0')
  {
    if |s| > 0 && (IsSpace(s[|s| - 1]) || s[|s| - 1] == '\0') then RStrip(s[..|s| - 1]) else s
  }

  /** `String#strip`. */
  function Strip(s: string): string
  {
    RStrip(LStrip(s))
  }

  predicate StartsWith(s: string, prefix: string)
  {
    |prefix| <= |s| && s[..|prefix|] == prefix
  }

  predicate EndsWith(s: string, suffix: string)
  {
    |suffix| <= |s| && s[|s| - |suffix|..] == suffix
  }

  predicate OccursAt(s: string, part: string, i: int)
  {
    0 <= i && i + |part| <= |s| && s[i..i + |part|] == part
  }

  /** `String#include?`. */
  predicate Contains(s: string, part: string)
  {
    exists i | 0 <= i <= |s| - |part| :: OccursAt(s, part, i)
  }

  /** A string that ends with `p + q` contains `p`. */
  lemma EndsWithConcatContains(s: string, p: string, q: string)
    requires EndsWith(s, p + q)
    ensures Contains(s, p)
  {
    var i := |s| - |p + q|;
    assert s[i..i + |p|] == (p + q)[..|p|];
    assert OccursAt(s, p, i);
  }

  /** Every piece of `s` between occurrences of `sep`, including empty ones
      (the pieces of Ruby's `split` before trailing empties are dropped). */
  function SplitOn(s: string, sep: char): (r: seq<string>)
    ensures |r| >= 1
    ensures forall k :: 0 <= k < |r| ==> sep !in r[k]
  {
    if |s| == 0 then [""]
    else
      var rest := SplitOn(s[..|s| - 1], sep);
      if s[|s| - 1] == sep then rest + [""]
      else rest[..|rest| - 1] + [rest[|rest| - 1] + [s[|s| - 1]]]
  }

  /** Drops the empty strings at the end of a list, as Ruby's `split` does. */
  function DropTrailingEmpty(parts: seq<string>): (r: seq<string>)
    ensures |r| <= |parts| && r == parts[..|r|]
    ensures r == [] || r[|r| - 1] != ""
    ensures forall k :: |r| <= k < |parts| ==> parts[k] == ""
  {
    if |parts| > 0 && parts[|parts| - 1] == "" then DropTrailingEmpty(parts[..|parts| - 1]) else parts
  }

  /** `String#split(c)` for a one-character separator. */
  function RubySplit(s: string, sep: char): (r: seq<string>)
    ensures forall k :: 0 <= k < |r| ==> sep !in r[k]
  {
    var parts := SplitOn(s, sep);
    var r := DropTrailingEmpty(parts);
    assert forall k :: 0 <= k < |r| ==> r[k] == parts[k];
    r
  }

  /** `Array#join(sep)`. */
  function Join(parts: seq<string>, sep: string): string
  {
    if |parts| == 0 then ""
    else if |parts| == 1 then parts[0]
    else Join(parts[..|parts| - 1], sep) + sep + parts[|parts| - 1]
  }

  function UpcaseChar(c: char): char
  {
    if 'a' <= c <= 'z' then (c as int - 'a' as int + 'A' as int) as char else c
  }

  function DowncaseChar(c: char): char
  {
    if 'A' <= c <= 'Z' then (c as int - 'A' as int + 'a' as int) as char else c
  }

  /** `String#upcase` on ASCII letters. */
  function Upcase(s: string): (r: string)
    ensures |r| == |s|
  {
    if |s| == 0 then "" else Upcase(s[..|s| - 1]) + [UpcaseChar(s[|s| - 1])]
  }

  /** `String#downcase` on ASCII letters. */
  function Downcase(s: string): (r: string)
    ensures |r| == |s|
  {
    if |s| == 0 then "" else Downcase(s[..|s| - 1]) + [DowncaseChar(s[|s| - 1])]
  }

  lemma {:induction false} DowncaseAppend(a: string, b: string)
    ensures Downcase(a + b) == Downcase(a) + Downcase(b)
  {
    if |b| > 0 {
      var c := b[|b| - 1];
      var b' := b[..|b| - 1];
      assert a + b == (a + b') + [c];
      assert (a + b)[..|a + b| - 1] == a + b';
      DowncaseAppend(a, b');
    } else {
      assert a + b == a;
    }
  }

  predicate IsDigit(c: char)
  {
    '0' <= c <= '9'
  }

  function DigitChar(d: nat): (c: char)
    requires d < 10
    ensures IsDigit(c)
  {
    ('0' as int + d) as char
  }

  /** `Integer#to_s` on a non-negative integer. */
  function DecimalString(n: nat): (r: string)
    ensures |r| >= 1
    ensures forall k :: 0 <= k < |r| ==> IsDigit(r[k])
  {
    if n < 10 then [DigitChar(n)] else DecimalString(n / 10) + [DigitChar(n % 10)]
  }

  /** The value of a string of decimal digits. */
  function DecimalValue(s: string): nat
    requires forall k :: 0 <= k < |s| ==> IsDigit(s[k])
  {
    if |s| == 0 then 0
    else
      assert IsDigit(s[|s| - 1]);
      10 * DecimalValue(s[..|s| - 1]) + (s[|s| - 1] as int - '0' as int)
  }

  /** Reading back `to_s` gives the number: the decimal form is a round trip. */
  lemma {:induction false} DecimalRoundTrip(n: nat)
    ensures DecimalValue(DecimalString(n)) == n
  {
    if n >= 10 {
      var s := DecimalString(n);
      assert s[..|s| - 1] == DecimalString(n / 10);
      DecimalRoundTrip(n / 10);
    }
  }

  /** Distinct numbers have distinct decimal forms. */
  lemma DecimalInjective(a: nat, b: nat)
    requires DecimalString(a) == DecimalString(b)
    ensures a == b
  {
    DecimalRoundTrip(a);
    DecimalRoundTrip(b);
  }

  /** Digits are unchanged by `downcase`. */
  lemma {:induction false} DowncaseDigits(s: string)
    requires forall k :: 0 <= k < |s| ==> IsDigit(s[k])
    ensures Downcase(s) == s
  {
    if |s| > 0 {
      DowncaseDigits(s[..|s| - 1]);
      assert s == s[..|s| - 1] + [s[|s| - 1]];
    }
  }

  /** The digits at the front of `s`, up to the first other character. */
  function LeadingDigits(s: string): (r: string)
    ensures |r| <= |s| && r == s[..|r|]
    ensures forall k :: 0 <= k < |r| ==> IsDigit(r[k])
    ensures |r| == |s| || !IsDigit(s[|r|])
  {
    if |s| > 0 && IsDigit(s[0]) then [s[0]] + LeadingDigits(s[1..]) else ""
  }

  /** `String#to_i`: leading whitespace skipped, an optional sign, then the
      value of the digits that follow; 0 when there are none. */
  function ToI(s: string): (r: int)
    ensures var t := LStrip(s);
      |t| == 0 || (t[0] != '-' && !IsDigit(t[0]) && t[0] != '+') ==> r == 0
  {
    var t := LStrip(s);
    var sign: int := if |t| > 0 && t[0] == '-' then -1 else 1;
    var digits := if |t| > 0 && (t[0] == '-' || t[0] == '+') then t[1..] else t;
    sign * DecimalValue(LeadingDigits(digits))
  }

  /** On a string of digits `to_i` is the decimal value. */
  lemma ToIOfDigits(s: string)
    requires |s| > 0 && forall k :: 0 <= k < |s| ==> IsDigit(s[k])
    ensures ToI(s) == DecimalValue(s)
  {
    assert !IsSpace(s[0]);
    assert LStrip(s) == s;
    assert LeadingDigits(s) == s;
  }

  /** `to_i` reads back what `Integer#to_s` wrote. */
  lemma ToIRoundTrip(n: nat)
    ensures ToI(DecimalString(n)) == n
  {
    ToIOfDigits(DecimalString(n));
    DecimalRoundTrip(n);
  }

  /** One more character that is not the separator extends the last piece. */
  lemma SplitOnSnoc(s: string, c: char, sep: char)
    requires c != sep
    ensures var p := SplitOn(s, sep);
      SplitOn(s + [c], sep) == p[..|p| - 1] + [p[|p| - 1] + [c]]
  {
    assert (s + [c])[..|s|] == s;
  }

  /** A string ending in the separator adds an empty piece. */
  lemma SplitOnSep(x: string, sep: char)
    ensures SplitOn(x + [sep], sep) == SplitOn(x, sep) + [""]
  {
    assert (x + [sep])[..|x|] == x;
  }

  /** A character absent from a string is absent from its parts. */
  lemma NotInParts(w: string, sep: char)
    requires |w| > 0 && sep !in w
    ensures sep !in w[..|w| - 1] && w[|w| - 1] != sep
  {
    assert forall y :: y in w[..|w| - 1] ==> y in w;
    assert w[|w| - 1] in w;
  }

  /** A piece without the separator is split into itself. */
  lemma {:induction false} SplitOnPiece(w: string, sep: char)
    requires sep !in w
    ensures SplitOn(w, sep) == [w]
    decreases |w|
  {
    if |w| > 0 {
      var w', c := w[..|w| - 1], w[|w| - 1];
      assert w == w' + [c];
      NotInParts(w, sep);
      SplitOnPiece(w', sep);
      assert SplitOn(w', sep) == [] + [w'];
      PieceStep(w', [], w', c, sep);
    }
  }

  /** A separator followed by a piece without one adds that piece. */
  lemma {:induction false} SplitOnSepPiece(x: string, w: string, sep: char)
    requires sep !in w
    ensures SplitOn(x + [sep] + w, sep) == SplitOn(x, sep) + [w]
    decreases |w|
  {
    if |w| == 0 {
      assert x + [sep] + w == x + [sep];
      SplitOnSep(x, sep);
    } else {
      var w', c := w[..|w| - 1], w[|w| - 1];
      assert w == w' + [c];
      assert x + [sep] + w == (x + [sep] + w') + [c];
      NotInParts(w, sep);
      SplitOnSepPiece(x, w', sep);
      PieceStep(x + [sep] + w', SplitOn(x, sep), w', c, sep);
    }
  }

  /** The last piece grows by a character that is not the separator. */
  lemma PieceStep(y: string, p: seq<string>, w: string, c: char, sep: char)
    requires SplitOn(y, sep) == p + [w] && c != sep
    ensures SplitOn(y + [c], sep) == p + [w + [c]]
  {
    SplitOnSnoc(y, c, sep);
    var q := p + [w];
    assert q[..|q| - 1] == p;
  }

  /** Splitting a join of separator-free pieces gives the pieces back. */
  lemma {:induction false} SplitOnJoin(parts: seq<string>, sep: char)
    requires |parts| >= 1
    requires forall k :: 0 <= k < |parts| ==> sep !in parts[k]
    ensures SplitOn(Join(parts, [sep]), sep) == parts
    decreases |parts|
  {
    var last := parts[|parts| - 1];
    if |parts| == 1 {
      SplitOnPiece(last, sep);
    } else {
      var init := parts[..|parts| - 1];
      SplitOnJoin(init, sep);
      var j := Join(init, [sep]);
      SplitOnSepPiece(j, last, sep);
      assert Join(parts, [sep]) == j + [sep] + last;
      assert init + [last] == parts;
    }
  }

  /** `split` undoes `join` when no piece holds the separator and the last
      piece is not empty (`split` drops trailing empty pieces). */
  lemma RubySplitJoin(parts: seq<string>, sep: char)
    requires forall k :: 0 <= k < |parts| ==> sep !in parts[k]
    requires parts == [] || parts[|parts| - 1] != ""
    ensures RubySplit(Join(parts, [sep]), sep) == parts
  {
    if parts != [] {
      SplitOnJoin(parts, sep);
    }
  }
  /** Joining with no separator, one more part at a time. */
  lemma JoinSnoc(parts: seq<string>, x: string)
    ensures Join(parts + [x], "") == Join(parts, "") + x
  {
    if |parts| > 0 {
      assert (parts + [x])[..|parts|] == parts;
    }
  }

  /** The shape of the lines of a string: none is empty, each but the last
      ends with a line feed, and no line holds one anywhere else. */
  predicate AreLines(r: seq<string>)
  {
    && (forall k :: 0 <= k < |r| ==> r[k] != [])
    && (forall k :: 0 <= k < |r| - 1 ==> r[k][|r[k]| - 1] == '\n')
    && (forall k, j :: 0 <= k < |r| && 0 <= j < |r[k]| - 1 ==> r[k][j] != '\n')
  }

  /** A character after a line feed, or at the start, begins a new line. */
  lemma NewLine(prev: seq<string>, c: char)
    requires AreLines(prev)
    requires prev == [] || prev[|prev| - 1][|prev[|prev| - 1]| - 1] == '\n'
    ensures AreLines(prev + [[c]])
  {
    var r := prev + [[c]];
    forall k | 0 <= k < |r| - 1
      ensures r[k][|r[k]| - 1] == '\n'
    {
      assert r[k] == prev[k];
    }
  }

  /** Any other character extends the last line. */
  lemma ExtendLine(prev: seq<string>, c: char)
    requires AreLines(prev) && prev != []
    requires prev[|prev| - 1][|prev[|prev| - 1]| - 1] != '\n'
    ensures AreLines(prev[..|prev| - 1] + [prev[|prev| - 1] + [c]])
  {
    var last := prev[|prev| - 1];
    var r := prev[..|prev| - 1] + [last + [c]];
    forall k, j | 0 <= k < |r| && 0 <= j < |r[k]| - 1
      ensures r[k][j] != '\n'
    {
      if k < |r| - 1 {
        assert r[k] == prev[k];
      } else {
        assert r[k] == last + [c];
        if j < |last| - 1 {
          assert r[k][j] == last[j];
        } else {
          assert r[k][j] == last[|last| - 1];
        }
      }
    }
    forall k | 0 <= k < |r| - 1
      ensures r[k][|r[k]| - 1] == '\n'
    {
      assert r[k] == prev[k];
    }
  }

  /** `String#lines`: the lines of `s`, each ending with its line feed except
      perhaps the last; joined back together they give `s`. */
  function Lines(s: string): (r: seq<string>)
    ensures Join(r, "") == s
    ensures AreLines(r)
  {
    if |s| == 0 then []
    else
      var prev := Lines(s[..|s| - 1]);
      var c := s[|s| - 1];
      assert s == s[..|s| - 1] + [c];
      if prev == [] || prev[|prev| - 1][|prev[|prev| - 1]| - 1] == '\n' then
        JoinSnoc(prev, [c]);
        NewLine(prev, c);
        prev + [[c]]
      else
        var front, last := prev[..|prev| - 1], prev[|prev| - 1];
        assert prev == front + [last];
        JoinSnoc(front, last);
        JoinSnoc(front, last + [c]);
        ExtendLine(prev, c);
        front + [last + [c]]
  }

  /** A stripped line holds no line feed: the only one a line may have is its
      last character, and `strip` removes it. */
  lemma StrippedLineHasNoLineFeed(line: string)
    requires forall j :: 0 <= j < |line| - 1 ==> line[j] != '\n'
    ensures '\n' !in Strip(line)
  {
    var l := LStrip(line);
    var r := RStrip(l);
    var m := |line| - |l|;
    assert l == line[m..];
    assert r == l[..|r|];
    forall j | 0 <= j < |r|
      ensures r[j] != '\n'
    {
      assert r[j] == line[m + j];
      if m + j == |line| - 1 {
        assert j == |r| - 1;
        assert !IsSpace(r[|r| - 1]);
      }
    }
  }
}
